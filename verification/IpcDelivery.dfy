/** One call of processEvents: the passes it makes, the handlers that give the answers,
    and how it ends. */
module IpcDelivery {
  import opened IpcModel
  import opened IpcInvariants

  /** A handler may answer differently each time: its answer depends on the data and on
      the moment of the call. */
  type Handler = (Bytes, nat) -> bool

  ghost predicate NobodyEligible(ev: seq<Event>, p: Proc, owner: nat) {
    forall i :: 0 <= i < |ev| ==> !Eligible(ev[i], p, owner)
  }

  /** The actions of the passes made by one call of processEvents. */
  function Passes(p: Proc, replies: seq<bool>): (log: seq<Action>)
    ensures |log| == |replies|
  {
    seq(|replies|, i requires 0 <= i < |replies| => Pass(p, replies[i]))
  }

  /** The state after these passes. */
  function AfterPasses(clk: Clock, s: Sys, p: Proc, replies: seq<bool>): Sys {
    if replies == [] then s
    else DoPass(clk, AfterPasses(clk, s, p, replies[..|replies| - 1]), p, replies[|replies| - 1])
  }

  /** If the pass finds an event with a handler, that handler gives the answer. */
  ghost predicate Serves(clk: Clock, s: Sys, handlers: map<Bytes, Handler>, p: Proc, answer: bool) {
    var h, t := Fetched(clk, s, p), AfterFetch(clk, s, p);
    h < |s.mem.events| && EventName(t.mem.events[h]) in p.handlers ==>
      && EventName(t.mem.events[h]) in handlers
      && answer == handlers[EventName(t.mem.events[h])](DataOf(t.mem.events[h].data, t.mem.events[h].posted), t.tick)
  }

  /** Passes that all find an event, with the answers of these handlers. */
  ghost predicate Busy(clk: Clock, s: Sys, p: Proc, handlers: map<Bytes, Handler>, replies: seq<bool>) {
    forall i :: 0 <= i < |replies| ==>
                  var t := AfterPasses(clk, s, p, replies[..i]);
                  Serves(clk, t, handlers, p, replies[i]) && Fetched(clk, t, p) < |t.mem.events|
  }

  /** The passes of a whole call: busy ones, and a last one that finds nothing. */
  ghost predicate Drains(clk: Clock, s: Sys, p: Proc, handlers: map<Bytes, Handler>, replies: seq<bool>) {
    && replies != []
    && Busy(clk, s, p, handlers, replies[..|replies| - 1])
    && var t := AfterPasses(clk, s, p, replies[..|replies| - 1]);
       Fetched(clk, t, p) == |t.mem.events|
  }

  lemma BusySnoc(clk: Clock, s: Sys, p: Proc, handlers: map<Bytes, Handler>, replies: seq<bool>, answer: bool)
    requires Busy(clk, s, p, handlers, replies)
    requires var t := AfterPasses(clk, s, p, replies);
             Serves(clk, t, handlers, p, answer) && Fetched(clk, t, p) < |t.mem.events|
    ensures Busy(clk, s, p, handlers, replies + [answer])
  {
    hide AfterPasses, Serves, Fetched;
    var all := replies + [answer];
    forall i | 0 <= i < |all|
      ensures var t := AfterPasses(clk, s, p, all[..i]);
              Serves(clk, t, handlers, p, all[i]) && Fetched(clk, t, p) < |t.mem.events|
    {
      assert all[..i] == if i < |replies| then replies[..i] else replies;
    }
  }

  lemma BusyInit(clk: Clock, s: Sys, p: Proc, handlers: map<Bytes, Handler>, replies: seq<bool>)
    requires replies != [] && Busy(clk, s, p, handlers, replies)
    ensures var m := |replies| - 1;
            var t := AfterPasses(clk, s, p, replies[..m]);
            && Busy(clk, s, p, handlers, replies[..m])
            && Serves(clk, t, handlers, p, replies[m]) && Fetched(clk, t, p) < |t.mem.events|
  {
    hide AfterPasses, Serves, Fetched;
    var m := |replies| - 1;
    forall i | 0 <= i < m
      ensures var t := AfterPasses(clk, s, p, replies[..m][..i]);
              Serves(clk, t, handlers, p, replies[..m][i]) && Fetched(clk, t, p) < |t.mem.events|
    {
      assert replies[..m][..i] == replies[..i];
    }
  }

  /** Passes with the answers of these handlers, whether they find an event or not. */
  ghost predicate Answering(clk: Clock, s: Sys, p: Proc, handlers: map<Bytes, Handler>, replies: seq<bool>) {
    forall i :: 0 <= i < |replies| ==> Serves(clk, AfterPasses(clk, s, p, replies[..i]), handlers, p, replies[i])
  }

  lemma AnsweringInit(clk: Clock, s: Sys, p: Proc, handlers: map<Bytes, Handler>, replies: seq<bool>)
    requires replies != [] && Answering(clk, s, p, handlers, replies)
    ensures var m := |replies| - 1;
            && Answering(clk, s, p, handlers, replies[..m])
            && Serves(clk, AfterPasses(clk, s, p, replies[..m]), handlers, p, replies[m])
  {
    hide AfterPasses, Serves;
    var m := |replies| - 1;
    forall i | 0 <= i < m
      ensures Serves(clk, AfterPasses(clk, s, p, replies[..m][..i]), handlers, p, replies[..m][i])
    {
      assert replies[..m][..i] == replies[..i];
    }
  }

  lemma DrainsAnswers(clk: Clock, s: Sys, p: Proc, handlers: map<Bytes, Handler>, replies: seq<bool>)
    requires Drains(clk, s, p, handlers, replies)
    ensures Answering(clk, s, p, handlers, replies)
  {
    hide AfterPasses, Fetched;
    var m := |replies| - 1;
    forall i | 0 <= i < |replies|
      ensures Serves(clk, AfterPasses(clk, s, p, replies[..i]), handlers, p, replies[i])
    {
      if i < m {
        assert replies[..m][..i] == replies[..i] && replies[..m][i] == replies[i];
      }
    }
  }

  lemma PassSnoc(clk: Clock, s: Sys, p: Proc, replies: seq<bool>, answer: bool)
    ensures AfterPasses(clk, s, p, replies + [answer]) == DoPass(clk, AfterPasses(clk, s, p, replies), p, answer)
  {
    assert (replies + [answer])[..|replies|] == replies;
  }

  // ---------- who gave the answers ----------

  /** The run got its answer from the handler for the event's name, called with the
      event's data at a moment since the given one. */
  ghost predicate Answered(s: Sys, r: Run, handlers: map<Bytes, Handler>, since: nat) {
    && r.name in handlers && r.key in s.posts
    && exists moment :: since <= moment <= s.tick
                        && r.result == handlers[r.name](r.data, moment)
  }

  /** Every run in the history from position n on was answered in this way. */
  ghost predicate AnsweredBy(s: Sys, n: nat, handlers: map<Bytes, Handler>, since: nat) {
    forall i :: n <= i < |s.runs| ==> Answered(s, s.runs[i], handlers, since)
  }

  lemma AnsweredEarlier(s: Sys, t: Sys, r: Run, handlers: map<Bytes, Handler>, since: nat)
    requires Answered(s, r, handlers, since) && s.tick <= t.tick && s.posts == t.posts
    ensures Answered(t, r, handlers, since)
  {
  }

  lemma AnsweredLast(clk: Clock, s: Sys, handlers: map<Bytes, Handler>, p: Proc, answer: bool, since: nat)
    requires Ticks(clk) && Inv(s) && since <= s.tick && Serves(clk, s, handlers, p, answer)
    requires |DoPass(clk, s, p, answer).runs| > |s.runs|
    ensures var u := DoPass(clk, s, p, answer);
            |u.runs| == |s.runs| + 1 && Answered(u, u.runs[|s.runs|], handlers, since)
  {
    var h, t := Fetched(clk, s, p), AfterFetch(clk, s, p);
    FetchInv(clk, s, p);
    assert SlotOk(t, t.mem.events[h]);
    assert since <= t.tick;
  }

  /** A pass adds at most one run, answered by the handler that was called. */
  lemma AnsweredByNext(clk: Clock, s: Sys, n: nat, handlers: map<Bytes, Handler>, p: Proc, answer: bool, since: nat)
    requires Ticks(clk) && Inv(s) && n <= |s.runs| && AnsweredBy(s, n, handlers, since) && since <= s.tick
    requires Serves(clk, s, handlers, p, answer)
    ensures var u := DoPass(clk, s, p, answer); n <= |u.runs| && AnsweredBy(u, n, handlers, since) && since <= u.tick
  {
    hide Answered, Inv;
    var u := DoPass(clk, s, p, answer);
    forall i | n <= i < |u.runs|
      ensures Answered(u, u.runs[i], handlers, since)
    {
      if i < |s.runs| {
        assert u.runs[i] == s.runs[i];
        AnsweredEarlier(s, u, s.runs[i], handlers, since);
      } else {
        AnsweredLast(clk, s, handlers, p, answer, since);
      }
    }
  }

  // ---------- the end of the loop ----------

  /** Once the clock has passed the last ticket by the collection timeout, a fetch
      finds nothing. */
  lemma LateFetchFindsNothing(clk: Clock, s: Sys, p: Proc, horizon: nat)
    requires Ticks(clk) && Inv(s)
    requires horizon <= s.tick && clk(horizon) > s.mem.lastEvent + GC_TIMEOUT
    ensures Fetched(clk, s, p) == |s.mem.events|
  {
    forall i | 0 <= i < QUEUE_SIZE
      ensures !Eligible(Swept(s.mem.events[i], clk(s.tick + i)), p, s.mem.globalId)
    {
      assert SlotOk(s, s.mem.events[i]);
      assert clk(horizon) <= clk(s.tick + i);
    }
  }

  lemma FetchedNothing(clk: Clock, s: Sys, p: Proc)
    requires Fetched(clk, s, p) == |s.mem.events|
    ensures NobodyEligible(AfterFetch(clk, s, p).mem.events, p, s.mem.globalId)
  {
  }

  predicate Pending(e: Event) {
    e.posted != 0 && e.processed == 0
  }

  /** How many of the first h slots hold an event that is still to be processed. */
  function PendingIn(ev: seq<Event>, h: nat): (n: nat)
    requires h <= |ev|
    ensures n <= h
  {
    if h == 0 then 0 else PendingIn(ev, h - 1) + if Pending(ev[h - 1]) then 1 else 0
  }

  lemma {:induction false} PendingDrops(one: seq<Event>, other: seq<Event>, h: nat)
    requires h <= |one| == |other|
    requires forall i :: 0 <= i < h && Pending(other[i]) ==> Pending(one[i])
    ensures PendingIn(other, h) <= PendingIn(one, h)
    ensures (exists i :: 0 <= i < h && Pending(one[i]) && !Pending(other[i])) ==> PendingIn(other, h) < PendingIn(one, h)
  {
    if h > 0 {
      PendingDrops(one, other, h - 1);
    }
  }

  /** A run of the event's handler will close it: it is directed, or the handler accepts
      it whenever it is called. */
  ghost predicate WillClose(e: Event, handlers: map<Bytes, Handler>) {
    && EventName(e) in handlers
    && (e.dest == 0 ==> forall moment :: handlers[EventName(e)](DataOf(e.data, e.posted), moment))
  }

  /** No run of this process will close it: it has no handler, or it is global and its
      handler declines it whenever it is called. */
  ghost predicate NeverCloses(e: Event, handlers: map<Bytes, Handler>) {
    || EventName(e) !in handlers
    || (e.dest == 0 && forall moment :: !handlers[EventName(e)](DataOf(e.data, e.posted), moment))
  }

  /** Every event in the first h slots that this process may run will be closed. */
  ghost predicate ClosesAll(ev: seq<Event>, p: Proc, owner: nat, handlers: map<Bytes, Handler>, h: nat)
    requires h <= |ev|
  {
    forall i :: 0 <= i < h && Eligible(ev[i], p, owner) ==> WillClose(ev[i], handlers)
  }

  /** What a pass leaves of the table when it works on slot f. */
  lemma PassTouches(clk: Clock, s: Sys, p: Proc, answer: bool)
    requires Ticks(clk)
    ensures var f, t := Fetched(clk, s, p), DoPass(clk, s, p, answer);
            && |t.mem.events| == |s.mem.events| && t.mem.globalId == s.mem.globalId && t.epoch == s.epoch
            && s.tick <= t.tick && s.runs <= t.runs
            && (f < |s.mem.events| ==> t.tick <= s.tick + f + 2)
            && (forall i :: 0 <= i < |s.mem.events| && i != f ==>
                              t.mem.events[i] == s.mem.events[i] || t.mem.events[i] == ZERO_EVENT)
            && (forall i :: f < i < |s.mem.events| ==> t.mem.events[i] == s.mem.events[i])
  {
  }

  lemma PassClosesSlot(clk: Clock, s: Sys, p: Proc, handlers: map<Bytes, Handler>, answer: bool)
    requires Ticks(clk) && p.handlers == handlers.Keys && Serves(clk, s, handlers, p, answer)
    requires var f := Fetched(clk, s, p); f < |s.mem.events| && WillClose(s.mem.events[f], handlers)
    ensures var f := Fetched(clk, s, p);
            Eligible(s.mem.events[f], p, s.mem.globalId) && !Pending(DoPass(clk, s, p, answer).mem.events[f])
  {
    assert clk(AfterFetch(clk, s, p).tick) > 0;
  }

  lemma FetchedWasEligible(clk: Clock, s: Sys, p: Proc)
    ensures var f := Fetched(clk, s, p);
            f < |s.mem.events| ==> Eligible(s.mem.events[f], p, s.mem.globalId) && !Expired(s.mem.events[f], clk(s.tick + f))
                                   && AfterFetch(clk, s, p).mem.events[f] == s.mem.events[f]
  {
  }

  lemma PassLeavesOpen(clk: Clock, s: Sys, p: Proc, handlers: map<Bytes, Handler>, answer: bool)
    requires Inv(s) && p.handlers == handlers.Keys && Serves(clk, s, handlers, p, answer)
    requires var f := Fetched(clk, s, p); f < |s.mem.events| && NeverCloses(s.mem.events[f], handlers)
    ensures var f := Fetched(clk, s, p);
            DoPass(clk, s, p, answer).mem.events[f] == s.mem.events[f]
  {
    FetchedWasEligible(clk, s, p);
    assert SlotOk(s, s.mem.events[Fetched(clk, s, p)]);
  }

  /** Whatever the answer, the event itself stays. */
  lemma PassKeepsContent(clk: Clock, s: Sys, p: Proc, answer: bool)
    requires Fetched(clk, s, p) < |s.mem.events|
    ensures var f := Fetched(clk, s, p);
            var e, d := s.mem.events[f], DoPass(clk, s, p, answer).mem.events[f];
            d == e.(accepted := d.accepted, processed := d.processed)
  {
    FetchedWasEligible(clk, s, p);
  }

  /** A pass that works below slot h, where all events will be closed, closes one. */
  lemma PassCloses(clk: Clock, s: Sys, p: Proc, handlers: map<Bytes, Handler>, answer: bool, h: nat)
    requires Ticks(clk) && p.handlers == handlers.Keys && Serves(clk, s, handlers, p, answer)
    requires Fetched(clk, s, p) < h <= |s.mem.events|
    requires ClosesAll(s.mem.events, p, s.mem.globalId, handlers, h)
    ensures var t := DoPass(clk, s, p, answer);
            && |t.mem.events| == |s.mem.events|
            && PendingIn(t.mem.events, h) < PendingIn(s.mem.events, h)
            && ClosesAll(t.mem.events, p, t.mem.globalId, handlers, h)
  {
    hide DoPass, WillClose, Serves;
    var f, t := Fetched(clk, s, p), DoPass(clk, s, p, answer);
    PassTouches(clk, s, p, answer);
    FetchedWasEligible(clk, s, p);
    PassClosesSlot(clk, s, p, handlers, answer);
    PendingDrops(s.mem.events, t.mem.events, h);
  }

  /** If this process closes whatever it may run, it makes at most one pass for each
      pending event and one to see that nothing is left, whatever the clock does. */
  lemma {:induction false} BusyIsBounded(clk: Clock, s: Sys, p: Proc, handlers: map<Bytes, Handler>, replies: seq<bool>)
    requires Ticks(clk) && p.handlers == handlers.Keys && Busy(clk, s, p, handlers, replies)
    requires ClosesAll(s.mem.events, p, s.mem.globalId, handlers, |s.mem.events|)
    ensures var t := AfterPasses(clk, s, p, replies);
            && |t.mem.events| == |s.mem.events|
            && |replies| + PendingIn(t.mem.events, |t.mem.events|) <= PendingIn(s.mem.events, |s.mem.events|)
            && ClosesAll(t.mem.events, p, t.mem.globalId, handlers, |t.mem.events|)
    decreases |replies|
  {
    hide DoPass, Serves, ClosesAll, PendingIn, Busy, Fetched;
    if replies != [] {
      var m := |replies| - 1;
      BusyInit(clk, s, p, handlers, replies);
      BusyIsBounded(clk, s, p, handlers, replies[..m]);
      var t := AfterPasses(clk, s, p, replies[..m]);
      PassCloses(clk, t, p, handlers, replies[m], |t.mem.events|);
    }
  }

  lemma DrainsFast(clk: Clock, s: Sys, p: Proc, handlers: map<Bytes, Handler>, replies: seq<bool>)
    requires Ticks(clk) && p.handlers == handlers.Keys && Drains(clk, s, p, handlers, replies)
    requires |s.mem.events| == QUEUE_SIZE && ClosesAll(s.mem.events, p, s.mem.globalId, handlers, QUEUE_SIZE)
    ensures |replies| <= PendingIn(s.mem.events, QUEUE_SIZE) + 1 <= QUEUE_SIZE + 1
  {
    hide Busy, ClosesAll;
    BusyIsBounded(clk, s, p, handlers, replies[..|replies| - 1]);
  }
}
