/** What every run of posts, passes, leases, exits and creations keeps, and what
    follows for the processes that use the shared memory. */
module IpcInvariants {
  import opened IpcModel

  // ---------- the invariant ----------

  ghost predicate RunOf(s: Sys, r: Run, e: Event) {
    r.key == Key(s.epoch, e.posted)
  }

  /** A slot is free and all zero, or holds an event posted in this epoch; a pending
      event has only been declined, and globally; a processed one carries the answer
      of a handler run. */
  ghost predicate SlotOk(s: Sys, e: Event) {
    if e.posted == 0 then e == ZERO_EVENT
    else
      && 0 < e.posted <= s.mem.lastEvent
      && Key(s.epoch, e.posted) in s.posts
      && s.posts[Key(s.epoch, e.posted)] == PostInfo(e.sender, e.dest, e.name, e.data)
      && (e.processed == 0 ==>
            !e.accepted && forall i :: 0 <= i < |s.runs| && RunOf(s, s.runs[i], e) ==>
                                         e.dest == 0 && !s.runs[i].result)
      && (e.processed != 0 ==>
            exists i :: 0 <= i < |s.runs| && RunOf(s, s.runs[i], e) && s.runs[i].result == e.accepted)
  }

  ghost predicate Slots(s: Sys) {
    && |s.mem.events| == QUEUE_SIZE
    && (forall i :: 0 <= i < QUEUE_SIZE ==> SlotOk(s, s.mem.events[i]))
    && (forall i, j :: 0 <= i < j < QUEUE_SIZE && s.mem.events[i].posted != 0 ==>
                         s.mem.events[i].posted != s.mem.events[j].posted)
  }

  ghost predicate Tickets(s: Sys) {
    && s.mem.lastEvent >= 0
    && forall k :: k in s.posts ==>
                     0 < k.ticket && k.epoch <= s.epoch && (k.epoch == s.epoch ==> k.ticket <= s.mem.lastEvent)
  }

  /** A handler runs only in a process that the event is meant for and that did not
      send it, under the name and with the data that the event carries. */
  ghost predicate RunOk(s: Sys, r: Run) {
    && r.key in s.posts
    && var i := s.posts[r.key];
       && i.sender != r.proc.pid
       && (i.dest == r.proc.profile || (i.dest == 0 && r.owner == r.proc.gid))
       && r.name == NameOf(i.name) && r.name in r.proc.handlers && r.data == DataOf(i.data, r.key.ticket)
  }

  ghost predicate RunsOk(s: Sys) {
    forall i :: 0 <= i < |s.runs| ==> RunOk(s, s.runs[i])
  }

  /** Only declined global events are run again. */
  ghost predicate RunsOnce(s: Sys) {
    forall i, j :: 0 <= i < j < |s.runs| && s.runs[i].key == s.runs[j].key ==>
                     s.runs[i].key in s.posts && s.posts[s.runs[i].key].dest == 0 && !s.runs[i].result
  }

  ghost predicate Inv(s: Sys) {
    Slots(s) && Tickets(s) && RunsOk(s) && RunsOnce(s)
  }

  lemma EventCount(s: Sys)
    requires Inv(s)
    ensures |s.mem.events| == QUEUE_SIZE
  {
  }

  // ---------- every action keeps it ----------

  lemma StartInv()
    ensures Inv(START)
  {
  }

  /** Collecting events cannot break anything. */
  lemma SweepInv(s: Sys, events: seq<Event>, tick: nat)
    requires Inv(s) && |events| == QUEUE_SIZE
    requires forall i :: 0 <= i < QUEUE_SIZE ==> events[i] == s.mem.events[i] || events[i] == ZERO_EVENT
    ensures Inv(s.(mem := s.mem.(events := events), tick := tick))
  {
    var t := s.(mem := s.mem.(events := events), tick := tick);
    forall i | 0 <= i < QUEUE_SIZE
      ensures SlotOk(t, t.mem.events[i])
    {
      assert SlotOk(s, s.mem.events[i]);
    }
  }

  /** A new epoch starts with an empty queue; the history stays. */
  lemma WipeInv(s: Sys, gid: nat, now: int, tick: nat)
    requires Inv(s)
    ensures Inv(Wiped(s, gid, now, tick))
  {
  }

  /** The owner and lease fields and the clock play no part in the invariant. */
  lemma OwnerFieldsInv(s: Sys, t: Sys)
    requires Inv(s)
    requires t == s.(mem := s.mem.(globalId := t.mem.globalId, lastProcessed := t.mem.lastProcessed), tick := t.tick)
    ensures Inv(t)
  {
  }

  lemma LeaseInv(clk: Clock, s: Sys, p: Proc)
    requires Inv(s)
    ensures Inv(DoLease(clk, s, p))
  {
    var t := DoLease(clk, s, p);
    if t.epoch == s.epoch {
      OwnerFieldsInv(s, t);
    } else {
      WipeInv(s, p.gid, clk(s.tick + 1), s.tick + 2);
    }
  }

  lemma FetchInv(clk: Clock, s: Sys, p: Proc)
    requires Inv(s)
    ensures Inv(AfterFetch(clk, s, p))
    ensures var h := Fetched(clk, s, p);
            h < |s.mem.events| ==> Eligible(AfterFetch(clk, s, p).mem.events[h], p, s.mem.globalId)
  {
    var t := AfterFetch(clk, s, p);
    SweepInv(s, t.mem.events, t.tick);
  }

  /** What a handler run does to the slot it served. */
  lemma ServedSlot(clk: Clock, s: Sys, p: Proc, h: nat, answer: bool)
    requires Ticks(clk) && Inv(s) && h < |s.mem.events| && Eligible(s.mem.events[h], p, s.mem.globalId)
    ensures SlotOk(Handled(clk, s, p, h, answer), Handled(clk, s, p, h, answer).mem.events[h])
  {
    var e := s.mem.events[h];
    var t := Handled(clk, s, p, h, answer);
    var n := |s.runs|;
    assert SlotOk(s, e);
    assert RunOf(t, t.runs[n], t.mem.events[h]) && t.runs[n].result == answer;
    assert forall i :: 0 <= i < n ==> t.runs[i] == s.runs[i];
    assert forall i :: 0 <= i < n && RunOf(t, t.runs[i], t.mem.events[h]) ==> RunOf(s, s.runs[i], e);
  }

  lemma OtherSlot(clk: Clock, s: Sys, p: Proc, h: nat, answer: bool, k: nat)
    requires Inv(s) && h < |s.mem.events| && s.mem.events[h].posted != 0
    requires k < |s.mem.events| && k != h
    ensures SlotOk(Handled(clk, s, p, h, answer), s.mem.events[k])
  {
    var e := s.mem.events[k];
    var t := Handled(clk, s, p, h, answer);
    assert SlotOk(s, e);
    assert e.posted != s.mem.events[h].posted;
    if e.posted != 0 {
      assert forall i :: 0 <= i < |s.runs| ==> t.runs[i] == s.runs[i];
      assert !RunOf(t, t.runs[|s.runs|], e);
      if e.processed != 0 {
        var i :| 0 <= i < |s.runs| && RunOf(s, s.runs[i], e) && s.runs[i].result == e.accepted;
        assert RunOf(t, t.runs[i], e);
      } else {
        assert forall i :: 0 <= i < |s.runs| && RunOf(t, t.runs[i], e) ==> RunOf(s, s.runs[i], e);
      }
    }
  }

  lemma HandledInv(clk: Clock, s: Sys, p: Proc, h: nat, answer: bool)
    requires Ticks(clk) && Inv(s) && h < |s.mem.events| && Eligible(s.mem.events[h], p, s.mem.globalId)
    requires EventName(s.mem.events[h]) in p.handlers
    ensures Inv(Handled(clk, s, p, h, answer))
  {
    var e := s.mem.events[h];
    var t := Handled(clk, s, p, h, answer);
    var n := |s.runs|;
    assert SlotOk(s, e);
    assert forall i :: 0 <= i < n ==> t.runs[i] == s.runs[i];
    assert Slots(t) by {
      ServedSlot(clk, s, p, h, answer);
      forall k | 0 <= k < QUEUE_SIZE
        ensures SlotOk(t, t.mem.events[k])
      {
        if k != h {
          OtherSlot(clk, s, p, h, answer, k);
        }
      }
    }
    assert RunsOk(t) by {
      forall i | 0 <= i < |t.runs|
        ensures RunOk(t, t.runs[i])
      {
        if i < n {
          assert RunOk(s, s.runs[i]);
        }
      }
    }
    assert RunsOnce(t) by {
      forall i, j | 0 <= i < j < |t.runs| && t.runs[i].key == t.runs[j].key
        ensures t.runs[i].key in t.posts && t.posts[t.runs[i].key].dest == 0 && !t.runs[i].result
      {
        assert RunOk(s, s.runs[i]);
        if j == n {
          assert RunOf(s, s.runs[i], e);
        }
      }
    }
  }

  lemma FetchKeeps(clk: Clock, s: Sys, p: Proc)
    ensures var t := AfterFetch(clk, s, p);
            |t.mem.events| == |s.mem.events| && t.mem.globalId == s.mem.globalId
  {
  }

  lemma {:induction false} PassInv(clk: Clock, s: Sys, p: Proc, answer: bool)
    requires Ticks(clk) && Inv(s)
    ensures Inv(DoPass(clk, s, p, answer))
  {
    hide Inv, Handled, AfterFetch, Eligible, Fetched;
    FetchInv(clk, s, p);
    var h := Fetched(clk, s, p);
    var t := AfterFetch(clk, s, p);
    assert |t.mem.events| == |s.mem.events| && t.mem.globalId == s.mem.globalId by { FetchKeeps(clk, s, p); }
    if h < |s.mem.events| && EventName(t.mem.events[h]) in p.handlers {
      HandledInv(clk, t, p, h, answer);
    }
  }

  lemma PostInv(clk: Clock, s: Sys, pid: int, name: Bytes, data: Bytes, dest: nat)
    requires Ticks(clk) && Inv(s)
    ensures Inv(DoPost(clk, s, pid, name, data, dest))
  {
    if CanPost(s, name, data) {
      var h, ticket := FreeFrom(s.mem.events, 0), NextTicket(clk, s);
      var t := DoPost(clk, s, pid, name, data, dest);
      var key := Key(s.epoch, ticket);
      assert key !in s.posts;
      assert t.posts == s.posts[key := t.posts[key]];
      assert forall i :: 0 <= i < |s.runs| ==> RunOk(s, s.runs[i]) && s.runs[i].key != key;
      assert RunsOk(t);
      forall k | 0 <= k < QUEUE_SIZE
        ensures SlotOk(t, t.mem.events[k])
      {
        assert SlotOk(s, s.mem.events[k]);
      }
      assert Slots(t);
    }
  }

  lemma {:induction false} StepInv(clk: Clock, s: Sys, a: Action)
    requires Ticks(clk) && Inv(s)
    ensures Inv(Step(clk, s, a))
  {
    hide Inv, DoPass, DoPost, DoLease, Wiped, Ticks;
    match a
    case Create(gid) => WipeInv(s, gid, clk(s.tick), s.tick + 1);
    case Lease(p) => LeaseInv(clk, s, p);
    case Pass(p, answer) => PassInv(clk, s, p, answer);
    case Post(pid, name, data, dest) => PostInv(clk, s, pid, name, data, dest);
    case Exit(gid) => OwnerFieldsInv(s, Step(clk, s, a));
  }

  lemma ExecSnoc(clk: Clock, log: seq<Action>, a: Action)
    ensures Exec(clk, log + [a]) == Step(clk, Exec(clk, log), a)
  {
  }

  lemma {:induction false} ExecFromInv(clk: Clock, s: Sys, log: seq<Action>)
    requires Ticks(clk) && Inv(s)
    ensures Inv(ExecFrom(clk, s, log))
    decreases |log|
  {
    hide Inv, Step;
    if log != [] {
      ExecFromInv(clk, s, log[..|log| - 1]);
      StepInv(clk, ExecFrom(clk, s, log[..|log| - 1]), log[|log| - 1]);
    }
  }

  lemma {:induction false} ExecInv(clk: Clock, log: seq<Action>)
    requires Ticks(clk)
    ensures Inv(Exec(clk, log))
  {
    StartInv();
    ExecFromInv(clk, START, log);
  }

  // ---------- exactly-once handling ----------

  /** Over every run: when an event's handler runs a second time, in whatever process,
      the event was global and the earlier run declined it.  So an event has at most
      one accepting run, which is its last, and a directed event has at most one run. */
  lemma HandledOnce(clk: Clock, log: seq<Action>, i: nat, j: nat)
    requires Ticks(clk) && i < j < |Exec(clk, log).runs|
    requires Exec(clk, log).runs[i].key == Exec(clk, log).runs[j].key
    ensures var s := Exec(clk, log);
            s.runs[i].key in s.posts && s.posts[s.runs[i].key].dest == 0 && !s.runs[i].result
  {
    hide Exec, Ticks;
    ExecInv(clk, log);
    var s := Exec(clk, log);
    assert RunOk(s, s.runs[i]);
  }

  /** An event is run by a process of the profile it is addressed to or, if it is global,
      by the owner, and never by its sender.  A process of profile 0 counts as addressed
      by global events. */
  lemma RunByAddressee(clk: Clock, log: seq<Action>, i: nat)
    requires Ticks(clk) && i < |Exec(clk, log).runs|
    ensures var s := Exec(clk, log);
            var r := s.runs[i];
            && r.key in s.posts
            && r.proc.pid != s.posts[r.key].sender
            && (r.proc.profile == s.posts[r.key].dest || (s.posts[r.key].dest == 0 && r.owner == r.proc.gid))
  {
    hide Exec, Ticks;
    ExecInv(clk, log);
    assert RunOk(Exec(clk, log), Exec(clk, log).runs[i]);
  }

  /** Outside profile 0, global events are run by the owner of the moment alone. */
  lemma GlobalRunByOwner(clk: Clock, log: seq<Action>, i: nat)
    requires Ticks(clk) && i < |Exec(clk, log).runs|
    requires Exec(clk, log).runs[i].proc.profile != 0
    ensures var s := Exec(clk, log);
            var r := s.runs[i];
            r.key in s.posts && (s.posts[r.key].dest == 0 ==> r.owner == r.proc.gid)
  {
    hide Exec, Ticks;
    RunByAddressee(clk, log, i);
  }

  /** Can some process, under some owner, still run the event? */
  ghost predicate StillOpen(e: Event) {
    exists p, owner :: Eligible(e, p, owner)
  }

  lemma OpenIff(e: Event)
    ensures StillOpen(e) <==> e.posted != 0 && e.processed == 0
  {
    if e.posted != 0 && e.processed == 0 {
      assert Eligible(e, Proc(e.sender + 1, 0, e.dest, {}), 0);
    }
  }

  /** After a handler has run, the event stays open to be run again exactly when it is
      global and was declined, and its slot carries the answer either way. */
  lemma OpenAfterRun(clk: Clock, s: Sys, p: Proc, answer: bool)
    requires Ticks(clk) && Inv(s)
    requires var h := Fetched(clk, s, p);
             h < |s.mem.events|
             && var e := AfterFetch(clk, s, p).mem.events[h];
                EventName(e) in p.handlers
    ensures var h := Fetched(clk, s, p);
            var e := AfterFetch(clk, s, p).mem.events[h];
            var t := DoPass(clk, s, p, answer);
            && |t.mem.events| == |s.mem.events|
            && t.mem.events[h].posted == e.posted && t.mem.events[h].accepted == answer
            && (StillOpen(t.mem.events[h]) <==> e.dest == 0 && !answer)
            && |t.runs| == |s.runs| + 1
  {
    FetchInv(clk, s, p);
    OpenIff(DoPass(clk, s, p, answer).mem.events[Fetched(clk, s, p)]);
  }

  /** An event without a handler is left as it is, whoever fetches it. */
  lemma UnhandledIsLeft(clk: Clock, s: Sys, p: Proc, answer: bool)
    requires Inv(s)
    requires var h := Fetched(clk, s, p);
             h < |s.mem.events|
             && var e := AfterFetch(clk, s, p).mem.events[h];
                EventName(e) !in p.handlers
    ensures var h := Fetched(clk, s, p);
            var t := DoPass(clk, s, p, answer);
            && |t.mem.events| == |s.mem.events|
            && t.mem.events[h] == s.mem.events[h] && StillOpen(t.mem.events[h]) && t.runs == s.runs
  {
    FetchInv(clk, s, p);
    OpenIff(s.mem.events[Fetched(clk, s, p)]);
  }

  // ---------- acknowledgements ----------

  /** With unique tickets there is one slot to ask. */
  lemma AnswerIsUnique(s: Sys, h: nat, ticket: int)
    requires Inv(s) && h < QUEUE_SIZE && ticket != 0
    requires Answers(s.mem.events[h], ticket)
    ensures AnswerFrom(s.mem.events, ticket, 0) == h
  {
  }

  /** An accepted ticket was posted in this epoch, and some process other than its
      sender ran the handler registered for the event's name, which returned true. */
  lemma AcknowledgementIsSound(clk: Clock, log: seq<Action>, ticket: int)
    requires Ticks(clk) && IsAccepted(Exec(clk, log).mem, ticket)
    ensures var s := Exec(clk, log);
            var key := Key(s.epoch, ticket);
            && ticket > 0 && key in s.posts
            && exists i :: 0 <= i < |s.runs| && s.runs[i].key == key && s.runs[i].result
                           && s.runs[i].proc.pid != s.posts[key].sender
                           && s.runs[i].name == NameOf(s.posts[key].name)
                           && s.runs[i].name in s.runs[i].proc.handlers
  {
    hide Exec, Ticks;
    ExecInv(clk, log);
    var s := Exec(clk, log);
    var e := s.mem.events[AnswerFrom(s.mem.events, ticket, 0)];
    assert SlotOk(s, e);
    var i :| 0 <= i < |s.runs| && RunOf(s, s.runs[i], e) && s.runs[i].result == e.accepted;
    assert RunOk(s, s.runs[i]);
  }

  lemma HistoryStep(clk: Clock, s: Sys, a: Action)
    requires Ticks(clk) && Inv(s)
    ensures s.runs <= Step(clk, s, a).runs
    ensures forall k :: k in s.posts ==> k in Step(clk, s, a).posts && Step(clk, s, a).posts[k] == s.posts[k]
  {
  }

  /** The history only grows. */
  lemma {:induction false} HistoryGrows(clk: Clock, s: Sys, log: seq<Action>)
    requires Ticks(clk) && Inv(s)
    ensures s.runs <= ExecFrom(clk, s, log).runs
    ensures forall k :: k in s.posts ==> k in ExecFrom(clk, s, log).posts && ExecFrom(clk, s, log).posts[k] == s.posts[k]
    decreases |log|
  {
    hide Step, Inv, Ticks;
    if log != [] {
      var init := log[..|log| - 1];
      HistoryGrows(clk, s, init);
      ExecFromInv(clk, s, init);
      HistoryStep(clk, ExecFrom(clk, s, init), log[|log| - 1]);
    }
  }

  lemma {:induction false} ExecSplit(clk: Clock, s: Sys, log: seq<Action>, n: nat)
    requires n <= |log|
    ensures ExecFrom(clk, s, log) == ExecFrom(clk, ExecFrom(clk, s, log[..n]), log[n..])
    decreases |log|
  {
    hide Step;
    if n == |log| {
      assert log[..n] == log;
    } else {
      var m := |log| - 1;
      assert log[..m][..n] == log[..n] && log[..m][n..] == log[n..][..m - n];
      ExecSplit(clk, s, log[..m], n);
    }
  }

  /** Some process other than the sender ran this event's handler, which accepted it. */
  ghost predicate HandledFor(s: Sys, key: Key) {
    && key in s.posts
    && exists i :: 0 <= i < |s.runs| && s.runs[i].key == key && s.runs[i].result
                   && s.runs[i].proc.pid != s.posts[key].sender
  }

  /** When a ticket is seen accepted at some point of a run, the whole history has an
      accepting run of the event that carries this ticket in the epoch of the sighting,
      in a process other than that event's sender. */
  lemma SeenAcceptedWasHandled(clk: Clock, log: seq<Action>, n: nat, ticket: int)
    requires Ticks(clk) && n <= |log| && IsAccepted(Exec(clk, log[..n]).mem, ticket)
    ensures HandledFor(Exec(clk, log), Key(Exec(clk, log[..n]).epoch, ticket))
  {
    hide ExecFrom, Ticks, Inv, IsAccepted;
    var t := Exec(clk, log[..n]);
    AcknowledgementIsSound(clk, log[..n], ticket);
    ExecInv(clk, log[..n]);
    HistoryGrows(clk, t, log[n..]);
    ExecSplit(clk, START, log, n);
    var i :| 0 <= i < |t.runs| && t.runs[i].key == Key(t.epoch, ticket) && t.runs[i].result
             && t.runs[i].proc.pid != t.posts[Key(t.epoch, ticket)].sender;
    assert Exec(clk, log).runs[i] == t.runs[i];
  }

  /** The m-th action of the run is a post that succeeds with this ticket. */
  ghost predicate PostedAt(clk: Clock, log: seq<Action>, m: nat, ticket: int) {
    && m < |log| && log[m].Post?
    && CanPost(Exec(clk, log[..m]), log[m].name, log[m].data)
    && ticket == NextTicket(clk, Exec(clk, log[..m]))
  }

  /** A poster that sees its ticket accepted in the epoch of its post has had its own
      event accepted. */
  lemma OwnPostWasHandled(clk: Clock, log: seq<Action>, m: nat, n: nat, ticket: int)
    requires Ticks(clk) && PostedAt(clk, log, m, ticket) && m < n <= |log|
    requires Exec(clk, log[..n]).epoch == Exec(clk, log[..m]).epoch
    requires IsAccepted(Exec(clk, log[..n]).mem, ticket)
    ensures HandledFor(Exec(clk, log), Key(Exec(clk, log[..m]).epoch, ticket))
  {
    hide ExecFrom, Ticks, IsAccepted, CanPost;
    SeenAcceptedWasHandled(clk, log, n, ticket);
  }

  /** The ticket of a failed post is never accepted. */
  lemma FailedPostIsNeverAccepted(clk: Clock, log: seq<Action>)
    requires Ticks(clk)
    ensures !IsAccepted(Exec(clk, log).mem, 0)
  {
    hide Exec, Ticks;
    if IsAccepted(Exec(clk, log).mem, 0) {
      AcknowledgementIsSound(clk, log, 0);
    }
  }

  // ---------- tickets ----------

  /** A post takes one free slot and nothing else, and its ticket exceeds every ticket
      of the epoch. */
  lemma PostIsFresh(clk: Clock, log: seq<Action>, pid: int, name: Bytes, data: Bytes, dest: nat)
    requires Ticks(clk) && CanPost(Exec(clk, log), name, data)
    ensures var s := Exec(clk, log);
            var t := DoPost(clk, s, pid, name, data, dest);
            var h := FreeFrom(s.mem.events, 0);
            && |s.mem.events| == |t.mem.events| == QUEUE_SIZE
            && s.mem.events[h] == ZERO_EVENT
            && (forall i :: 0 <= i < QUEUE_SIZE && i != h ==> t.mem.events[i] == s.mem.events[i])
            && t.mem.lastEvent == t.mem.events[h].posted > 0
            && (forall k :: k in s.posts && k.epoch == s.epoch ==> k.ticket < t.mem.events[h].posted)
  {
    hide Exec;
    ExecInv(clk, log);
    var s := Exec(clk, log);
    assert SlotOk(s, s.mem.events[FreeFrom(s.mem.events, 0)]);
  }

  ghost predicate InTable(s: Sys, ticket: int) {
    exists i :: 0 <= i < |s.mem.events| && s.mem.events[i].posted == ticket
  }

  lemma EpochsGrow(clk: Clock, s: Sys, a: Action)
    ensures s.epoch <= Step(clk, s, a).epoch
    ensures Step(clk, s, a).epoch == s.epoch ==> s.mem.lastEvent <= Step(clk, s, a).mem.lastEvent
    ensures s.tick <= Step(clk, s, a).tick
    ensures |s.mem.events| == QUEUE_SIZE ==> |Step(clk, s, a).mem.events| == QUEUE_SIZE
  {
  }

  lemma {:induction false} EpochsGrowAlong(clk: Clock, s: Sys, log: seq<Action>)
    ensures s.epoch <= ExecFrom(clk, s, log).epoch
    ensures s.tick <= ExecFrom(clk, s, log).tick
    decreases |log|
  {
    hide Step;
    if log != [] {
      EpochsGrowAlong(clk, s, log[..|log| - 1]);
      EpochsGrow(clk, ExecFrom(clk, s, log[..|log| - 1]), log[|log| - 1]);
    }
  }

  lemma PostBringsOnlyNew(clk: Clock, s: Sys, pid: int, name: Bytes, data: Bytes, dest: nat, i: nat)
    requires i < |s.mem.events|
    ensures var t := DoPost(clk, s, pid, name, data, dest);
            && |t.mem.events| == |s.mem.events|
            && (t.mem.events[i] == s.mem.events[i] || t.mem.events[i].posted > s.mem.lastEvent)
  {
  }

  lemma PassBringsNothing(clk: Clock, s: Sys, p: Proc, answer: bool, i: nat)
    requires i < |s.mem.events|
    ensures var t := DoPass(clk, s, p, answer);
            && |t.mem.events| == |s.mem.events|
            && (t.mem.events[i].posted == s.mem.events[i].posted || t.mem.events[i] == ZERO_EVENT)
  {
  }

  lemma SameSize(clk: Clock, s: Sys, a: Action)
    requires a.Post? || a.Pass?
    ensures |Step(clk, s, a).mem.events| == |s.mem.events|
  {
  }

  /** One step brings no collected ticket back. */
  lemma GoneStaysGoneStep(clk: Clock, s: Sys, a: Action, ticket: int)
    requires 0 < ticket <= s.mem.lastEvent && !InTable(s, ticket)
    requires Step(clk, s, a).epoch == s.epoch
    ensures ticket <= Step(clk, s, a).mem.lastEvent && !InTable(Step(clk, s, a), ticket)
  {
    hide DoPost, DoPass;
    var t := Step(clk, s, a);
    EpochsGrow(clk, s, a);
    forall i | 0 <= i < |t.mem.events|
      ensures t.mem.events[i].posted != ticket
    {
      match a
      case Post(pid, name, data, dest) =>
        SameSize(clk, s, a);
        assert s.mem.events[i].posted != ticket;
        PostBringsOnlyNew(clk, s, pid, name, data, dest, i);
      case Pass(p, answer) =>
        SameSize(clk, s, a);
        assert s.mem.events[i].posted != ticket;
        PassBringsNothing(clk, s, p, answer, i);
      case _ =>
    }
  }

  /** Once collected, a ticket never reappears in its epoch. */
  lemma {:induction false} GoneStaysGone(clk: Clock, s: Sys, log: seq<Action>, ticket: int)
    requires 0 < ticket <= s.mem.lastEvent && !InTable(s, ticket)
    requires ExecFrom(clk, s, log).epoch == s.epoch
    ensures ticket <= ExecFrom(clk, s, log).mem.lastEvent && !InTable(ExecFrom(clk, s, log), ticket)
    decreases |log|
  {
    hide Step, InTable;
    if log != [] {
      var init := log[..|log| - 1];
      var t := ExecFrom(clk, s, init);
      EpochsGrowAlong(clk, s, init);
      EpochsGrow(clk, t, log[|log| - 1]);
      GoneStaysGone(clk, s, init, ticket);
      GoneStaysGoneStep(clk, t, log[|log| - 1], ticket);
    }
  }

  // ---------- results stay readable ----------

  /** The slot holds an event that has been marked processed. */
  predicate Marked(s: Sys, h: nat) {
    h < |s.mem.events| == QUEUE_SIZE && s.mem.events[h].posted != 0 && s.mem.events[h].processed != 0
  }

  /** From s to t the epoch stays, and no clock reading passes the collection timeout of
      the marked event. */
  ghost predicate Within(clk: Clock, s: Sys, t: Sys, h: nat)
    requires h < |s.mem.events|
  {
    t.epoch == s.epoch && (t.tick > s.tick ==> clk(t.tick - 1) <= s.mem.events[h].processed + GC_TIMEOUT)
  }

  lemma ResultPass(clk: Clock, s: Sys, p: Proc, answer: bool, h: nat)
    requires Ticks(clk) && Marked(s, h) && Within(clk, s, DoPass(clk, s, p, answer), h)
    ensures |DoPass(clk, s, p, answer).mem.events| == QUEUE_SIZE
    ensures DoPass(clk, s, p, answer).mem.events[h] == s.mem.events[h]
  {
    var e := s.mem.events[h];
    var f := Fetched(clk, s, p);
    var t := AfterFetch(clk, s, p);
    var u := DoPass(clk, s, p, answer);
    assert t.tick <= u.tick;
    if h <= f {
      assert clk(s.tick + h) <= clk(u.tick - 1);
      assert !Expired(e, clk(s.tick + h));
    }
    assert t.mem.events[h] == e;
    assert f != h;
  }

  lemma ResultStep(clk: Clock, s: Sys, a: Action, h: nat)
    requires Ticks(clk) && Marked(s, h) && Within(clk, s, Step(clk, s, a), h)
    ensures |Step(clk, s, a).mem.events| == QUEUE_SIZE && Step(clk, s, a).mem.events[h] == s.mem.events[h]
  {
    match a
    case Pass(p, answer) => ResultPass(clk, s, p, answer, h);
    case Post(pid, name, data, dest) =>
    case _ =>
  }

  /** From the time it is marked until the collection timeout has passed, a processed
      event keeps its slot unchanged, whatever any process does. */
  lemma {:induction false} ResultIsStable(clk: Clock, s: Sys, log: seq<Action>, h: nat)
    requires Ticks(clk) && Marked(s, h) && Within(clk, s, ExecFrom(clk, s, log), h)
    ensures var t := ExecFrom(clk, s, log); Marked(t, h) && t.mem.events[h] == s.mem.events[h]
    decreases |log|
  {
    hide Step;
    if log != [] {
      var init := log[..|log| - 1];
      var t := ExecFrom(clk, s, init);
      EpochsGrowAlong(clk, s, init);
      EpochsGrow(clk, t, log[|log| - 1]);
      ResultIsStable(clk, s, init, h);
      ResultStep(clk, t, log[|log| - 1], h);
    }
  }

  /** So during that time the sender's question has one answer: the handler's, as
      soon as the owner's lease is newer than the ticket. */
  lemma {:induction false} AnswerIsStable(clk: Clock, log: seq<Action>, n: nat, h: nat)
    requires Ticks(clk) && n <= |log| && Marked(Exec(clk, log[..n]), h)
    requires Within(clk, Exec(clk, log[..n]), Exec(clk, log), h)
    ensures var e := Exec(clk, log[..n]).mem.events[h];
            var t := Exec(clk, log);
            IsAccepted(t.mem, e.posted) <==> t.mem.lastProcessed > e.posted && e.accepted
  {
    hide ExecFrom, Ticks, Within;
    var s := Exec(clk, log[..n]);
    ExecSplit(clk, START, log, n);
    ResultIsStable(clk, s, log[n..], h);
    ExecInv(clk, log);
    AnswerIsUnique(Exec(clk, log), h, s.mem.events[h].posted);
  }
}
