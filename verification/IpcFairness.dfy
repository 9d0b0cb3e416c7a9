/** Which events one call of processEvents reaches before they are collected: every pass
    starts over at the first slot, so that an event that stays open holds up the later
    ones. */
module IpcFairness {
  import opened IpcModel
  import opened IpcInvariants
  import opened IpcDelivery

  // ---------- which events are reached ----------

  /** A pass runs the handler of a given slot exactly when its event has not expired and
      no slot before it holds one that this process may run. */
  lemma PassReachesIff(clk: Clock, s: Sys, p: Proc, h: nat)
    requires h < |s.mem.events| && Eligible(s.mem.events[h], p, s.mem.globalId)
    ensures Fetched(clk, s, p) == h <==>
              && !Expired(s.mem.events[h], clk(s.tick + h))
              && forall k :: 0 <= k < h ==> !Eligible(Swept(s.mem.events[k], clk(s.tick + k)), p, s.mem.globalId)
  {
  }

  /** The event of this slot was run in this epoch after position n of the history. */
  ghost predicate RunSince(s: Sys, n: nat, key: Key) {
    exists i :: n <= i < |s.runs| && s.runs[i].key == key
  }

  lemma PassRuns(clk: Clock, s: Sys, p: Proc, answer: bool)
    requires var f := Fetched(clk, s, p); f < |s.mem.events| && EventName(s.mem.events[f]) in p.handlers
    ensures RunSince(DoPass(clk, s, p, answer), |s.runs|, Key(s.epoch, s.mem.events[Fetched(clk, s, p)].posted))
  {
    FetchedWasEligible(clk, s, p);
    assert DoPass(clk, s, p, answer).runs[|s.runs|].key == Key(s.epoch, s.mem.events[Fetched(clk, s, p)].posted);
  }

  lemma {:induction false} PassesGrow(clk: Clock, s: Sys, p: Proc, replies: seq<bool>)
    requires Ticks(clk)
    ensures var t := AfterPasses(clk, s, p, replies);
            && |t.mem.events| == |s.mem.events| && t.mem.globalId == s.mem.globalId && t.epoch == s.epoch
            && s.tick <= t.tick && s.runs <= t.runs
    decreases |replies|
  {
    hide DoPass;
    if replies != [] {
      var m := |replies| - 1;
      PassesGrow(clk, s, p, replies[..m]);
      PassTouches(clk, AfterPasses(clk, s, p, replies[..m]), p, replies[m]);
    }
  }

  /** Readings needed to reach slot h when n events before it are pending. */
  function ReadingsTo(h: nat, n: nat): nat {
    n * (h + 1) + h
  }

  lemma FewerReadings(h: nat, n: nat, m: nat)
    requires n <= m
    ensures ReadingsTo(h, n) <= ReadingsTo(h, m)
    ensures n < m ==> ReadingsTo(h, n) + h + 1 <= ReadingsTo(h, m)
  {
    assert n * (h + 1) <= m * (h + 1);
    if n < m {
      assert (n + 1) * (h + 1) <= m * (h + 1);
    }
  }

  /** The reading by which slot h is reached, when n events before it are pending and some
      of them go away only by being collected, at the reading `late`. */
  function Deadline(tick: nat, late: nat, h: nat, n: nat): nat {
    (if tick < late then late + h + 1 else tick) + ReadingsTo(h, n)
  }

  /** A pass below slot h does not move the deadline. */
  lemma DeadlineNext(tick: nat, next: nat, late: nat, h: nat, n: nat, m: nat)
    requires tick <= next <= tick + h + 1 && n <= m && (late <= tick ==> n < m)
    ensures Deadline(next, late, h, n) <= Deadline(tick, late, h, m)
  {
    FewerReadings(h, n, m);
  }

  /** The event does not stand in the way for good: it will be closed, or it will be
      collected by the reading `late`. */
  ghost predicate GoesAway(clk: Clock, e: Event, handlers: map<Bytes, Handler>, late: nat) {
    WillClose(e, handlers) || clk(late) > e.posted + GC_TIMEOUT
  }

  /** The events in the first h slots that this process may run go away. */
  ghost predicate AllGoAway(clk: Clock, ev: seq<Event>, p: Proc, owner: nat, handlers: map<Bytes, Handler>,
                            h: nat, late: nat)
    requires h <= |ev|
  {
    forall k :: 0 <= k < h && Eligible(ev[k], p, owner) ==> GoesAway(clk, ev[k], handlers, late)
  }

  /** The event in slot h still waits, and the events before it go away in time: the clock
      does not pass its collection timeout before its turn. */
  ghost predicate InTime(clk: Clock, s: Sys, p: Proc, handlers: map<Bytes, Handler>, h: nat, e: Event, late: nat) {
    && h < |s.mem.events| && s.mem.events[h] == e && Eligible(e, p, s.mem.globalId)
    && AllGoAway(clk, s.mem.events, p, s.mem.globalId, handlers, h, late)
    && clk(Deadline(s.tick, late, h, PendingIn(s.mem.events, h))) <= e.posted + GC_TIMEOUT
  }

  lemma InTimeIsFound(clk: Clock, s: Sys, p: Proc, handlers: map<Bytes, Handler>, h: nat, e: Event, late: nat)
    requires Ticks(clk) && InTime(clk, s, p, handlers, h, e, late)
    ensures Fetched(clk, s, p) <= h
  {
    assert clk(s.tick + h) <= clk(Deadline(s.tick, late, h, PendingIn(s.mem.events, h)));
    assert Swept(e, clk(s.tick + h)) == e;
  }

  /** What is still eligible after a pass goes away as before; once `late` is over, the
      pass closes an event. */
  lemma StillGoAway(clk: Clock, s: Sys, p: Proc, handlers: map<Bytes, Handler>, answer: bool, h: nat, late: nat)
    requires Ticks(clk) && p.handlers == handlers.Keys && Serves(clk, s, handlers, p, answer)
    requires Fetched(clk, s, p) < h <= |s.mem.events|
    requires AllGoAway(clk, s.mem.events, p, s.mem.globalId, handlers, h, late)
    ensures var t := DoPass(clk, s, p, answer);
            && |t.mem.events| == |s.mem.events|
            && AllGoAway(clk, t.mem.events, p, t.mem.globalId, handlers, h, late)
            && PendingIn(t.mem.events, h) <= PendingIn(s.mem.events, h)
            && (late <= s.tick ==> PendingIn(t.mem.events, h) < PendingIn(s.mem.events, h))
  {
    hide DoPass, Serves, Fetched;
    var f, t := Fetched(clk, s, p), DoPass(clk, s, p, answer);
    PassTouches(clk, s, p, answer);
    FetchedWasEligible(clk, s, p);
    PassKeepsContent(clk, s, p, answer);
    if late <= s.tick {
      assert clk(late) <= clk(s.tick + f);
      PassClosesSlot(clk, s, p, handlers, answer);
    }
    PendingDrops(s.mem.events, t.mem.events, h);
  }

  lemma InTimeNext(clk: Clock, s: Sys, p: Proc, handlers: map<Bytes, Handler>, answer: bool, h: nat, e: Event, late: nat)
    requires Ticks(clk) && p.handlers == handlers.Keys && Serves(clk, s, handlers, p, answer)
    requires InTime(clk, s, p, handlers, h, e, late) && Fetched(clk, s, p) < h
    ensures InTime(clk, DoPass(clk, s, p, answer), p, handlers, h, e, late)
  {
    hide DoPass, Serves, AllGoAway, Fetched, Deadline;
    var t := DoPass(clk, s, p, answer);
    PassTouches(clk, s, p, answer);
    StillGoAway(clk, s, p, handlers, answer, h, late);
    var n, m := PendingIn(t.mem.events, h), PendingIn(s.mem.events, h);
    DeadlineNext(s.tick, t.tick, late, h, n, m);
    assert clk(Deadline(t.tick, late, h, n)) <= clk(Deadline(s.tick, late, h, m));
  }

  lemma InTimeSlot(clk: Clock, s: Sys, p: Proc, handlers: map<Bytes, Handler>, h: nat, e: Event, late: nat)
    requires InTime(clk, s, p, handlers, h, e, late)
    ensures h < |s.mem.events| && s.mem.events[h] == e
  {
  }

  /** Either the event has been run, or it still waits and is in time. */
  lemma {:induction false} ReachedOrInTime(clk: Clock, s: Sys, p: Proc, handlers: map<Bytes, Handler>,
                                           replies: seq<bool>, h: nat, e: Event, late: nat)
    requires Ticks(clk) && p.handlers == handlers.Keys && Busy(clk, s, p, handlers, replies)
    requires InTime(clk, s, p, handlers, h, e, late) && EventName(e) in handlers
    ensures var t := AfterPasses(clk, s, p, replies);
            RunSince(t, |s.runs|, Key(s.epoch, e.posted)) || InTime(clk, t, p, handlers, h, e, late)
    decreases |replies|
  {
    hide DoPass, Serves, InTime, Fetched, Busy;
    if replies != [] {
      var m := |replies| - 1;
      BusyInit(clk, s, p, handlers, replies);
      ReachedOrInTime(clk, s, p, handlers, replies[..m], h, e, late);
      var t := AfterPasses(clk, s, p, replies[..m]);
      PassesGrow(clk, s, p, replies[..m]);
      PassTouches(clk, t, p, replies[m]);
      if InTime(clk, t, p, handlers, h, e, late) {
        InTimeIsFound(clk, t, p, handlers, h, e, late);
        if Fetched(clk, t, p) < h {
          InTimeNext(clk, t, p, handlers, replies[m], h, e, late);
        } else {
          InTimeSlot(clk, t, p, handlers, h, e, late);
          PassRuns(clk, t, p, replies[m]);
        }
      }
    }
  }

  /** A posted event is run before it is collected if it has a handler, the events in the
      slots before it that this process may run will be closed or are collected by the
      reading `late`, and the clock leaves time to reach it afterwards. */
  lemma {:induction false} Delivered(clk: Clock, s: Sys, p: Proc, handlers: map<Bytes, Handler>,
                                     replies: seq<bool>, h: nat, late: nat)
    requires Ticks(clk) && p.handlers == handlers.Keys && Drains(clk, s, p, handlers, replies)
    requires h < |s.mem.events| && EventName(s.mem.events[h]) in handlers
    requires InTime(clk, s, p, handlers, h, s.mem.events[h], late)
    ensures RunSince(AfterPasses(clk, s, p, replies), |s.runs|, Key(s.epoch, s.mem.events[h].posted))
  {
    hide DoPass, Serves, InTime, Fetched, Busy;
    var m, e := |replies| - 1, s.mem.events[h];
    ReachedOrInTime(clk, s, p, handlers, replies[..m], h, e, late);
    var t := AfterPasses(clk, s, p, replies[..m]);
    PassTouches(clk, t, p, replies[m]);
    if InTime(clk, t, p, handlers, h, e, late) {
      InTimeIsFound(clk, t, p, handlers, h, e, late);
      InTimeSlot(clk, t, p, handlers, h, e, late);
    }
  }

  // ---------- which events are not ----------

  /** Slot k holds an event that this process fetches but never closes, or the clock has
      passed the collection timeout of the event in slot h. */
  ghost predicate Starving(clk: Clock, s: Sys, p: Proc, handlers: map<Bytes, Handler>, k: nat, h: nat, ticket: int) {
    && k < h < |s.mem.events| == QUEUE_SIZE
    && (InTable(s, ticket) ==>
          && s.mem.events[h].posted == ticket && s.mem.events[h].processed == 0
          && (clk(s.tick) > ticket + GC_TIMEOUT
              || (Eligible(s.mem.events[k], p, s.mem.globalId) && NeverCloses(s.mem.events[k], handlers)
                  && s.mem.events[k].posted > ticket)))
  }

  lemma PassRunKey(clk: Clock, s: Sys, p: Proc, answer: bool)
    ensures var f, t := Fetched(clk, s, p), DoPass(clk, s, p, answer);
            forall i :: |s.runs| <= i < |t.runs| ==>
                          f < |s.mem.events| && t.runs[i].key == Key(s.epoch, s.mem.events[f].posted)
  {
    FetchedWasEligible(clk, s, p);
  }

  lemma OnlySlot(s: Sys, h: nat, ticket: int)
    requires Inv(s) && h < |s.mem.events| && s.mem.events[h].posted == ticket != 0
    ensures forall i :: 0 <= i < |s.mem.events| && i != h ==> s.mem.events[i].posted != ticket
  {
  }

  /** The pass does not work on slot h. */
  lemma StarvingMisses(clk: Clock, s: Sys, p: Proc, handlers: map<Bytes, Handler>, k: nat, h: nat, ticket: int)
    requires Ticks(clk) && Starving(clk, s, p, handlers, k, h, ticket) && InTable(s, ticket) && ticket > 0
    ensures Fetched(clk, s, p) != h
    ensures clk(s.tick) > ticket + GC_TIMEOUT || Expired(s.mem.events[k], clk(s.tick + k)) || Fetched(clk, s, p) <= k
  {
    assert clk(s.tick) <= clk(s.tick + h) && clk(s.tick + k) <= clk(s.tick + h);
    FetchedWasEligible(clk, s, p);
  }

  lemma TickPast(clk: Clock, s: Sys, p: Proc, answer: bool, k: nat)
    requires Ticks(clk) && k <= Fetched(clk, s, p) && k < |s.mem.events|
    ensures clk(s.tick + k) <= clk(DoPass(clk, s, p, answer).tick)
  {
    assert s.tick + k <= DoPass(clk, s, p, answer).tick;
  }

  /** The event in slot k stays while it is fetched first, and when it is collected the
      clock has passed the timeout of the older event too. */
  lemma BlockerStays(clk: Clock, s: Sys, p: Proc, handlers: map<Bytes, Handler>, answer: bool, k: nat, h: nat, ticket: int)
    requires p.handlers == handlers.Keys && Serves(clk, s, handlers, p, answer)
    requires Ticks(clk) && Inv(s) && Starving(clk, s, p, handlers, k, h, ticket) && InTable(s, ticket) && ticket > 0
    requires clk(s.tick) <= ticket + GC_TIMEOUT
    ensures var t := DoPass(clk, s, p, answer);
            |t.mem.events| == |s.mem.events|
            && (clk(t.tick) > ticket + GC_TIMEOUT || t.mem.events[k] == s.mem.events[k])
  {
    var t := DoPass(clk, s, p, answer);
    PassTouches(clk, s, p, answer);
    if Expired(s.mem.events[k], clk(s.tick + k)) && Fetched(clk, s, p) >= k {
      TickPast(clk, s, p, answer, k);
    }
    FetchedWasEligible(clk, s, p);
    if Fetched(clk, s, p) == k {
      PassLeavesOpen(clk, s, p, handlers, answer);
    }
  }

  lemma StarvingTable(clk: Clock, s: Sys, p: Proc, handlers: map<Bytes, Handler>, answer: bool, k: nat, h: nat, ticket: int)
    requires p.handlers == handlers.Keys && Serves(clk, s, handlers, p, answer)
    requires Ticks(clk) && Inv(s) && ticket > 0 && Starving(clk, s, p, handlers, k, h, ticket) && InTable(s, ticket)
    requires Fetched(clk, s, p) != h
    ensures Starving(clk, DoPass(clk, s, p, answer), p, handlers, k, h, ticket)
  {
    hide DoPass, Fetched, Inv, Eligible, Serves, NeverCloses;
    var t := DoPass(clk, s, p, answer);
    PassTouches(clk, s, p, answer);
    assert clk(s.tick) <= clk(t.tick);
    OnlySlot(s, h, ticket);
    forall i | 0 <= i < |t.mem.events| && i != h
      ensures t.mem.events[i].posted != ticket
    {
      PassBringsNothing(clk, s, p, answer, i);
    }
    if clk(s.tick) <= ticket + GC_TIMEOUT {
      BlockerStays(clk, s, p, handlers, answer, k, h, ticket);
    }
  }

  lemma StarvingPass(clk: Clock, s: Sys, p: Proc, handlers: map<Bytes, Handler>, answer: bool, k: nat, h: nat, ticket: int)
    requires p.handlers == handlers.Keys && Serves(clk, s, handlers, p, answer)
    requires Ticks(clk) && Inv(s) && ticket > 0 && Starving(clk, s, p, handlers, k, h, ticket)
    ensures var t := DoPass(clk, s, p, answer);
            && Starving(clk, t, p, handlers, k, h, ticket)
            && (forall i :: |s.runs| <= i < |t.runs| ==> t.runs[i].key != Key(s.epoch, ticket))
  {
    hide DoPass, Fetched, Inv, Eligible, Ticks, Serves, NeverCloses;
    PassTouches(clk, s, p, answer);
    PassRunKey(clk, s, p, answer);
    if InTable(s, ticket) {
      StarvingMisses(clk, s, p, handlers, k, h, ticket);
      StarvingTable(clk, s, p, handlers, answer, k, h, ticket);
      OnlySlot(s, h, ticket);
    } else {
      forall i | 0 <= i < |s.mem.events|
        ensures DoPass(clk, s, p, answer).mem.events[i].posted != ticket
      {
        PassBringsNothing(clk, s, p, answer, i);
        assert s.mem.events[i].posted != ticket;
      }
    }
  }

  lemma {:induction false} StarvedAlong(clk: Clock, s: Sys, p: Proc, handlers: map<Bytes, Handler>, replies: seq<bool>, k: nat, h: nat, ticket: int)
    requires p.handlers == handlers.Keys && Answering(clk, s, p, handlers, replies)
    requires Ticks(clk) && Inv(s) && ticket > 0 && Starving(clk, s, p, handlers, k, h, ticket)
    ensures var t := AfterPasses(clk, s, p, replies);
            Inv(t) && Starving(clk, t, p, handlers, k, h, ticket) && !RunSince(t, |s.runs|, Key(s.epoch, ticket))
    decreases |replies|
  {
    hide DoPass, Inv, Starving, Answering, Serves;
    if replies != [] {
      var m := |replies| - 1;
      AnsweringInit(clk, s, p, handlers, replies);
      StarvedAlong(clk, s, p, handlers, replies[..m], k, h, ticket);
      var t := AfterPasses(clk, s, p, replies[..m]);
      PassesGrow(clk, s, p, replies[..m]);
      PassTouches(clk, t, p, replies[m]);
      PassInv(clk, t, p, replies[m]);
      StarvingPass(clk, t, p, handlers, replies[m], k, h, ticket);
    }
  }

  /** An event that waits behind a younger one that is never closed is never run by this
      process: the younger one is fetched first until both have to be collected. */
  lemma {:induction false} StarvedBehind(clk: Clock, s: Sys, p: Proc, handlers: map<Bytes, Handler>, replies: seq<bool>,
                                         k: nat, h: nat)
    requires Ticks(clk) && Inv(s) && k < h < QUEUE_SIZE
    requires p.handlers == handlers.Keys && Answering(clk, s, p, handlers, replies)
    requires Eligible(s.mem.events[k], p, s.mem.globalId) && NeverCloses(s.mem.events[k], handlers)
    requires Pending(s.mem.events[h]) && s.mem.events[h].posted < s.mem.events[k].posted
    ensures !RunSince(AfterPasses(clk, s, p, replies), |s.runs|, Key(s.epoch, s.mem.events[h].posted))
  {
    hide NeverCloses, Answering, Eligible;
    var ticket := s.mem.events[h].posted;
    assert SlotOk(s, s.mem.events[h]);
    StarvedAlong(clk, s, p, handlers, replies, k, h, ticket);
  }

  // ---------- exactly which events a call delivers ----------

  /** Each event before slot h that this process may run is either sure to be closed or
      sure not to be, and one of the latter kind that is older than the event in slot h
      is collected by the reading `late`. */
  ghost predicate Decided(clk: Clock, s: Sys, p: Proc, handlers: map<Bytes, Handler>, h: nat, late: nat)
    requires h < |s.mem.events|
  {
    forall k :: 0 <= k < h && Eligible(s.mem.events[k], p, s.mem.globalId) ==>
      var e := s.mem.events[k];
      WillClose(e, handlers)
      || (NeverCloses(e, handlers) && (e.posted < s.mem.events[h].posted ==> clk(late) > e.posted + GC_TIMEOUT))
  }

  /** No younger event that will stay open stands before slot h. */
  ghost predicate WayIsFree(s: Sys, p: Proc, handlers: map<Bytes, Handler>, h: nat)
    requires h < |s.mem.events|
  {
    forall k :: 0 <= k < h && Eligible(s.mem.events[k], p, s.mem.globalId) ==>
      WillClose(s.mem.events[k], handlers) || s.mem.events[k].posted < s.mem.events[h].posted
  }

  lemma BlockedBy(s: Sys, p: Proc, handlers: map<Bytes, Handler>, h: nat, k: nat)
    requires Inv(s) && k < h < QUEUE_SIZE && Eligible(s.mem.events[k], p, s.mem.globalId)
    requires !(s.mem.events[k].posted < s.mem.events[h].posted)
    ensures s.mem.events[h].posted < s.mem.events[k].posted
  {
    assert s.mem.events[k].posted != s.mem.events[h].posted;
  }

  /** One whole call of the event loop: an event with a handler is run exactly when every
      event before it that this process may run will be closed or is older.  The clock
      has to leave time: the older ones that stay open are collected by the reading
      `late`, and the event itself not until its turn. */
  lemma DeliveredIff(clk: Clock, s: Sys, p: Proc, handlers: map<Bytes, Handler>, replies: seq<bool>, h: nat, late: nat)
    requires Ticks(clk) && Inv(s) && p.handlers == handlers.Keys && Drains(clk, s, p, handlers, replies)
    requires h < QUEUE_SIZE && Eligible(s.mem.events[h], p, s.mem.globalId) && EventName(s.mem.events[h]) in handlers
    requires Decided(clk, s, p, handlers, h, late)
    requires clk(Deadline(s.tick, late, h, PendingIn(s.mem.events, h))) <= s.mem.events[h].posted + GC_TIMEOUT
    ensures RunSince(AfterPasses(clk, s, p, replies), |s.runs|, Key(s.epoch, s.mem.events[h].posted)) <==>
              WayIsFree(s, p, handlers, h)
  {
    hide WillClose, NeverCloses, Drains, Deadline, RunSince, Inv;
    EventCount(s);
    if WayIsFree(s, p, handlers, h) {
      Delivered(clk, s, p, handlers, replies, h, late);
    } else {
      var k :| 0 <= k < h && Eligible(s.mem.events[k], p, s.mem.globalId)
               && !(WillClose(s.mem.events[k], handlers) || s.mem.events[k].posted < s.mem.events[h].posted);
      DrainsAnswers(clk, s, p, handlers, replies);
      BlockedBy(s, p, handlers, h, k);
      StarvedBehind(clk, s, p, handlers, replies, k, h);
    }
  }

  // ---------- a run in which an event is starved ----------

  /** Second 100 twice, then 104, then 106 until the second pass of the last call, and
      120 from there on. */
  function JumpClock(): Clock {
    (n: nat) => if n < 2 then 100 else if n < 3 then 104 else if n < 39 then 106 else 120
  }

  function Waiting(name: Byte, dest: nat, ticket: int): Event {
    Event(dest, 7, Pad([name], NAME_SIZE), Pad([], DATA_SIZE), ticket, 0, false)
  }

  /** An event takes slot 0 and another one slot 1; the first one is collected, and a
      younger event takes its slot. */
  function Blocked(): seq<Action> {
    [Create(1), Post(7, [3], [], 3), Post(7, [1], [], 2),
     Lease(Proc(8, 1, 1, {})), Pass(Proc(8, 1, 1, {}), true), Post(7, [2], [], 2)]
  }

  lemma PostsAt(clk: Clock, s: Sys, name: Byte, dest: nat, h: nat, ticket: int)
    requires h < |s.mem.events| == QUEUE_SIZE && s.mem.events[h].posted == 0
    requires forall i :: 0 <= i < h ==> s.mem.events[i].posted != 0
    requires ticket == NextTicket(clk, s)
    ensures var t := DoPost(clk, s, 7, [name], [], dest);
            && t.mem == s.mem.(lastEvent := ticket, events := s.mem.events[h := Waiting(name, dest, ticket)])
            && t.tick == s.tick + 1 && t.epoch == s.epoch && t.runs == s.runs
  {
    assert FreeFrom(s.mem.events, 0) == h;
  }

  /** The owner's pass collects the event in slot 0 and finds nothing to run. */
  lemma SweepsFirst(s: Sys)
    requires s.mem == Memory(1, 104, 106, EmptyQueue()[0 := Waiting(3, 3, 100)][1 := Waiting(1, 2, 104)])
    requires s.tick == 4
    ensures var t := DoPass(JumpClock(), s, Proc(8, 1, 1, {}), true);
            && t.mem == s.mem.(events := EmptyQueue()[1 := Waiting(1, 2, 104)])
            && t.tick == 36 && t.epoch == s.epoch && t.runs == s.runs
  {
    var clk, p := JumpClock(), Proc(8, 1, 1, {});
    assert Fetched(clk, s, p) == QUEUE_SIZE;
    assert SweptTo(s.mem.events, clk, s.tick, QUEUE_SIZE) == EmptyQueue()[1 := Waiting(1, 2, 104)];
  }

  lemma SixSteps(clk: Clock, log: seq<Action>)
    requires |log| == 6
    ensures Exec(clk, log) == Step(clk, Step(clk, Step(clk, Step(clk, Step(clk, Step(clk, START,
                                log[0]), log[1]), log[2]), log[3]), log[4]), log[5])
  {
    hide Step;
    ExecSnoc(clk, log[..0], log[0]);
    assert forall n :: 0 <= n < 6 ==> log[..n] + [log[n]] == log[..n + 1];
    ExecSnoc(clk, log[..1], log[1]);
    ExecSnoc(clk, log[..2], log[2]);
    ExecSnoc(clk, log[..3], log[3]);
    ExecSnoc(clk, log[..4], log[4]);
    ExecSnoc(clk, log[..5], log[5]);
    assert log[..6] == log && log[..0] == [];
  }

  lemma BlockedState()
    ensures var s := Exec(JumpClock(), Blocked());
            && s.mem == Memory(1, 106, 106, EmptyQueue()[0 := Waiting(2, 2, 106)][1 := Waiting(1, 2, 104)])
            && s.tick == 37 && s.epoch == 1 && s.runs == []
  {
    hide DoPass, DoPost;
    var clk := JumpClock();
    SixSteps(clk, Blocked());
    var s1 := Step(clk, START, Create(1));
    PostsAt(clk, s1, 3, 3, 0, 100);
    var s2 := Step(clk, s1, Post(7, [3], [], 3));
    PostsAt(clk, s2, 1, 2, 1, 104);
    var s3 := Step(clk, s2, Post(7, [1], [], 2));
    var s4 := Step(clk, s3, Lease(Proc(8, 1, 1, {})));
    SweepsFirst(s4);
    var s5 := Step(clk, s4, Pass(Proc(8, 1, 1, {}), true));
    PostsAt(clk, s5, 2, 2, 0, 106);
    assert EmptyQueue()[1 := Waiting(1, 2, 104)][0 := Waiting(2, 2, 106)]
           == EmptyQueue()[0 := Waiting(2, 2, 106)][1 := Waiting(1, 2, 104)];
  }

  /** The first pass of the call finds the younger event and leaves it. */
  lemma FirstPass(u: Sys, p: Proc)
    requires u.mem == Memory(1, 106, 106, EmptyQueue()[0 := Waiting(2, 2, 106)][1 := Waiting(1, 2, 104)])
    requires u.tick == 38 && p == Proc(9, 2, 2, {[1]})
    ensures Fetched(JumpClock(), u, p) == 0 && EventName(u.mem.events[0]) == [2]
    ensures DoPass(JumpClock(), u, p, false) == u.(tick := 39)
  {
    NameArrives([2]);
    var clk := JumpClock();
    assert Eligible(Swept(u.mem.events[0], clk(38)), p, 1);
    assert SweptTo(u.mem.events, clk, 38, 1) == u.mem.events;
  }

  lemma ServesNothing(clk: Clock, s: Sys, handlers: map<Bytes, Handler>, p: Proc)
    requires var f := Fetched(clk, s, p); f < |s.mem.events| && EventName(s.mem.events[f]) !in p.handlers
    ensures Serves(clk, s, handlers, p, false)
  {
    FetchedWasEligible(clk, s, p);
  }

  /** The second one collects both. */
  lemma SecondPass(u: Sys, p: Proc)
    requires u.mem == Memory(1, 106, 106, EmptyQueue()[0 := Waiting(2, 2, 106)][1 := Waiting(1, 2, 104)])
    requires u.tick == 39 && p == Proc(9, 2, 2, {[1]})
    ensures Fetched(JumpClock(), u, p) == QUEUE_SIZE
    ensures var t := DoPass(JumpClock(), u, p, false);
            t.mem.events == EmptyQueue() && t.runs == u.runs
  {
    var clk := JumpClock();
    assert Fetched(clk, u, p) == QUEUE_SIZE;
    assert SweptTo(u.mem.events, clk, 39, QUEUE_SIZE) == EmptyQueue();
  }

  lemma TwoPasses(clk: Clock, s: Sys, p: Proc, one: bool, two: bool)
    ensures AfterPasses(clk, s, p, []) == s
    ensures AfterPasses(clk, s, p, [one]) == DoPass(clk, s, p, one)
    ensures AfterPasses(clk, s, p, [one, two]) == DoPass(clk, DoPass(clk, s, p, one), p, two)
  {
    hide DoPass;
    assert [one, two] == [one] + [two] && [one] == [] + [one];
    PassSnoc(clk, s, p, [], one);
    PassSnoc(clk, s, p, [one], two);
  }

  lemma BlockedLease()
    ensures var s := DoLease(JumpClock(), Exec(JumpClock(), Blocked()), Proc(9, 2, 2, {[1]}));
            && s.mem == Memory(1, 106, 106, EmptyQueue()[0 := Waiting(2, 2, 106)][1 := Waiting(1, 2, 104)])
            && s.tick == 38 && s.runs == []
  {
    hide Exec;
    BlockedState();
  }

  /** A reachable state in which an event has a handler that accepts everything, and the
      call of the event loop ends with the event collected and no handler run. */
  lemma StarvedInARun()
    ensures var clk, p := JumpClock(), Proc(9, 2, 2, {[1]});
            var handlers: map<Bytes, Handler> := map[[1] := (data, moment) => true];
            var u := DoLease(clk, Exec(clk, Blocked()), p);
            && Ticks(clk) && |u.mem.events| == QUEUE_SIZE
            && Eligible(u.mem.events[1], p, u.mem.globalId) && EventName(u.mem.events[1]) in handlers
            && !Expired(u.mem.events[1], clk(u.tick))
            && Drains(clk, u, p, handlers, [false, false])
            && var t := AfterPasses(clk, u, p, [false, false]);
               t.mem.events == EmptyQueue() && t.runs == []
  {
    hide DoPass, Fetched, DoLease, Exec, AfterPasses, Serves;
    BlockedLease();
    NameArrives([1]);
    var clk, p := JumpClock(), Proc(9, 2, 2, {[1]});
    var handlers: map<Bytes, Handler> := map[[1] := (data, moment) => true];
    var u := DoLease(clk, Exec(clk, Blocked()), p);
    FirstPass(u, p);
    SecondPass(u.(tick := 39), p);
    TwoPasses(clk, u, p, false, false);
    assert [false, false][..1] == [false] && [false][..0] == [];
    ServesNothing(clk, u, handlers, p);
    assert Busy(clk, u, p, handlers, [false]);
  }
}
