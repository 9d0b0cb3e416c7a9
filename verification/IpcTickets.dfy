/** Tickets across epochs: a wipe of the memory starts the ticket count over from the
    clock.  When do tickets, and the answers given for them, stay those of one event? */
module IpcTickets {
  import opened IpcModel
  import opened IpcInvariants

  lemma ExecPrefix(clk: Clock, log: seq<Action>, n: nat)
    requires n < |log|
    ensures Exec(clk, log[..n + 1]) == Step(clk, Exec(clk, log[..n]), log[n])
  {
    assert log[..n + 1] == log[..n] + [log[n]];
    ExecSnoc(clk, log[..n], log[n]);
  }

  // ---------- what every run keeps ----------

  /** The last ticket of the epoch was given to an event. */
  ghost predicate LastWasPosted(s: Sys) {
    s.mem.lastEvent > 0 ==> Key(s.epoch, s.mem.lastEvent) in s.posts
  }

  lemma LastWasPostedStep(clk: Clock, s: Sys, a: Action)
    requires LastWasPosted(s)
    ensures LastWasPosted(Step(clk, s, a))
  {
  }

  lemma {:induction false} LastWasPostedAlong(clk: Clock, log: seq<Action>)
    ensures LastWasPosted(Exec(clk, log))
    decreases |log|
  {
    hide Step;
    if log != [] {
      LastWasPostedAlong(clk, log[..|log| - 1]);
      LastWasPostedStep(clk, Exec(clk, log[..|log| - 1]), log[|log| - 1]);
    }
  }

  /** The next ticket is the least one that is not behind the clock and exceeds every
      ticket of the epoch. */
  lemma NextTicketIsLeast(clk: Clock, log: seq<Action>, t: int)
    requires Ticks(clk)
    ensures var s := Exec(clk, log);
            t == NextTicket(clk, s) <==>
              && t >= clk(s.tick) && (forall k :: k in s.posts && k.epoch == s.epoch ==> k.ticket < t)
              && (t == clk(s.tick) || exists k :: k in s.posts && k.epoch == s.epoch && k.ticket == t - 1)
  {
    hide Exec;
    ExecInv(clk, log);
    LastWasPostedAlong(clk, log);
    var s := Exec(clk, log);
    assert s.mem.lastEvent > 0 ==> Key(s.epoch, s.mem.lastEvent) in s.posts;
  }

  // ---------- when tickets stay unique ----------

  /** The next ticket exceeds every ticket given so far, in this epoch and before. */
  ghost predicate NextIsFresh(clk: Clock, s: Sys) {
    forall k :: k in s.posts ==> k.ticket < NextTicket(clk, s)
  }

  /** If the action wipes the memory, the clock has passed the last ticket by its next
      reading. */
  predicate WipesLate(clk: Clock, s: Sys, a: Action) {
    Step(clk, s, a).epoch == s.epoch || s.mem.lastEvent < clk(Step(clk, s, a).tick)
  }

  /** Tickets of earlier epochs lie behind the clock and behind the tickets of later
      epochs. */
  ghost predicate EpochsInOrder(clk: Clock, s: Sys) {
    && (forall k :: k in s.posts && k.epoch < s.epoch ==> k.ticket < clk(s.tick))
    && (forall k, l :: k in s.posts && l in s.posts && k.epoch < l.epoch ==> k.ticket < l.ticket)
  }

  lemma EpochsInOrderFresh(clk: Clock, s: Sys)
    requires Inv(s) && EpochsInOrder(clk, s)
    ensures NextIsFresh(clk, s)
  {
  }

  lemma PassKeepsPosts(clk: Clock, s: Sys, p: Proc, answer: bool)
    ensures var t := DoPass(clk, s, p, answer); t.posts == s.posts && t.epoch == s.epoch && s.tick <= t.tick
  {
  }

  lemma LeaseKeepsPosts(clk: Clock, s: Sys, p: Proc)
    ensures var t := DoLease(clk, s, p);
            t.posts == s.posts && s.tick <= t.tick && (t.epoch == s.epoch || t.epoch == s.epoch + 1)
  {
  }

  /** What one action does to the posts. */
  lemma PostsStep(clk: Clock, s: Sys, a: Action)
    ensures var t := Step(clk, s, a);
            && s.tick <= t.tick && (t.epoch == s.epoch || t.epoch == s.epoch + 1)
            && (t.posts == s.posts
                || (t.epoch == s.epoch && t.posts.Keys == s.posts.Keys + {Key(s.epoch, NextTicket(clk, s))}))
  {
    hide DoPass, DoLease;
    match a
    case Pass(p, answer) => PassKeepsPosts(clk, s, p, answer);
    case Lease(p) => LeaseKeepsPosts(clk, s, p);
    case _ =>
  }

  lemma EpochsInOrderStep(clk: Clock, s: Sys, a: Action)
    requires Ticks(clk) && Inv(s) && EpochsInOrder(clk, s) && WipesLate(clk, s, a)
    ensures EpochsInOrder(clk, Step(clk, s, a))
  {
    hide Step;
    var t := Step(clk, s, a);
    PostsStep(clk, s, a);
    EpochsInOrderFresh(clk, s);
    assert clk(s.tick) <= clk(t.tick);
  }

  /** A wipe that comes too early makes the very next ticket one that was given. */
  lemma EarlyWipeRepeats(clk: Clock, s: Sys, a: Action)
    requires Ticks(clk) && Inv(s) && LastWasPosted(s) && !WipesLate(clk, s, a)
    ensures !NextIsFresh(clk, Step(clk, s, a))
  {
    var t := Step(clk, s, a);
    assert t.mem.lastEvent == 0 && t.posts == s.posts;
    assert NextTicket(clk, t) <= s.mem.lastEvent;
    assert Key(s.epoch, s.mem.lastEvent) in t.posts;
  }

  lemma StartInOrder(clk: Clock)
    ensures EpochsInOrder(clk, START)
  {
  }

  lemma {:induction false} LateWipesKeepOrder(clk: Clock, log: seq<Action>)
    requires Ticks(clk)
    requires forall n :: 0 <= n < |log| ==> WipesLate(clk, Exec(clk, log[..n]), log[n])
    ensures EpochsInOrder(clk, Exec(clk, log))
    decreases |log|
  {
    hide Step, WipesLate, EpochsInOrder, Ticks;
    if log == [] {
      StartInOrder(clk);
    } else {
      var m := |log| - 1;
      forall n | 0 <= n < m
        ensures WipesLate(clk, Exec(clk, log[..m][..n]), log[..m][n])
      {
        assert log[..m][..n] == log[..n] && log[..m][n] == log[n];
      }
      LateWipesKeepOrder(clk, log[..m]);
      ExecInv(clk, log[..m]);
      EpochsInOrderStep(clk, Exec(clk, log[..m]), log[m]);
    }
  }

  /** Over every run: at every moment the next ticket exceeds all tickets ever given,
      exactly when every wipe of the run finds the clock past the last ticket. */
  lemma {:induction false} TicketsFreshIff(clk: Clock, log: seq<Action>)
    requires Ticks(clk)
    ensures (forall n :: 0 <= n <= |log| ==> NextIsFresh(clk, Exec(clk, log[..n]))) <==>
            (forall n :: 0 <= n < |log| ==> WipesLate(clk, Exec(clk, log[..n]), log[n]))
  {
    hide Exec, Step, WipesLate, NextIsFresh, EpochsInOrder, LastWasPosted, Ticks;
    if forall n :: 0 <= n < |log| ==> WipesLate(clk, Exec(clk, log[..n]), log[n]) {
      forall n | 0 <= n <= |log|
        ensures NextIsFresh(clk, Exec(clk, log[..n]))
      {
        forall m | 0 <= m < n
          ensures WipesLate(clk, Exec(clk, log[..n][..m]), log[..n][m])
        {
          assert log[..n][..m] == log[..m] && log[..n][m] == log[m];
        }
        LateWipesKeepOrder(clk, log[..n]);
        ExecInv(clk, log[..n]);
        EpochsInOrderFresh(clk, Exec(clk, log[..n]));
      }
    } else {
      var n :| 0 <= n < |log| && !WipesLate(clk, Exec(clk, log[..n]), log[n]);
      ExecInv(clk, log[..n]);
      LastWasPostedAlong(clk, log[..n]);
      EarlyWipeRepeats(clk, Exec(clk, log[..n]), log[n]);
      ExecPrefix(clk, log, n);
    }
  }

  /** No action sequence without a further wipe gets a ticket behind the clock. */
  lemma {:induction false} EpochKeeps(clk: Clock, u: Sys, log: seq<Action>, k: Key)
    requires Ticks(clk) && k in u.posts && k.epoch < u.epoch && k.ticket < clk(u.tick)
    requires ExecFrom(clk, u, log).epoch == u.epoch
    ensures k.ticket < NextTicket(clk, ExecFrom(clk, u, log))
  {
    EpochsGrowAlong(clk, u, log);
    assert clk(u.tick) <= clk(ExecFrom(clk, u, log).tick);
  }

  ghost predicate FreshThroughEpoch(clk: Clock, s: Sys, u: Sys) {
    forall log: seq<Action>, k :: ExecFrom(clk, u, log).epoch == u.epoch && k in s.posts ==>
                                    k.ticket < NextTicket(clk, ExecFrom(clk, u, log))
  }

  lemma NothingFrom(clk: Clock, u: Sys)
    ensures ExecFrom(clk, u, []) == u
  {
  }

  /** The same for one wipe: through the whole new epoch, whatever the processes do, its
      tickets exceed all earlier ones exactly when the clock has passed the last one. */
  lemma {:induction false} WipeKeepsTicketsFreshIff(clk: Clock, s: Sys, a: Action)
    requires Ticks(clk) && Inv(s) && LastWasPosted(s) && EpochsInOrder(clk, s)
    requires Step(clk, s, a).epoch == s.epoch + 1
    ensures FreshThroughEpoch(clk, s, Step(clk, s, a)) <==> s.mem.lastEvent < clk(Step(clk, s, a).tick)
  {
    hide Step, ExecFrom;
    var u := Step(clk, s, a);
    PostsStep(clk, s, a);
    if s.mem.lastEvent < clk(u.tick) {
      forall log: seq<Action>, k | ExecFrom(clk, u, log).epoch == u.epoch && k in s.posts
        ensures k.ticket < NextTicket(clk, ExecFrom(clk, u, log))
      {
        assert clk(s.tick) <= clk(u.tick);
        EpochKeeps(clk, u, log, k);
      }
    } else {
      EarlyWipeRepeats(clk, s, a);
      NothingFrom(clk, u);
      var k :| k in u.posts && !(k.ticket < NextTicket(clk, u));
      assert ExecFrom(clk, u, []).epoch == u.epoch && k in s.posts;
    }
  }

  // ---------- whose acknowledgement is it? ----------

  /** With late wipes, a ticket of an earlier epoch is never accepted. */
  lemma OldTicketsAreNotAccepted(clk: Clock, log: seq<Action>, n: nat, k: Key)
    requires Ticks(clk) && n <= |log|
    requires forall m :: 0 <= m < |log| ==> WipesLate(clk, Exec(clk, log[..m]), log[m])
    requires k in Exec(clk, log[..n]).posts && k.epoch != Exec(clk, log[..n]).epoch
    ensures !IsAccepted(Exec(clk, log[..n]).mem, k.ticket)
  {
    hide Exec, Step, WipesLate, Ticks, IsAccepted;
    forall m | 0 <= m < n
      ensures WipesLate(clk, Exec(clk, log[..n][..m]), log[..n][m])
    {
      assert log[..n][..m] == log[..m] && log[..n][m] == log[m];
    }
    LateWipesKeepOrder(clk, log[..n]);
    ExecInv(clk, log[..n]);
    if IsAccepted(Exec(clk, log[..n]).mem, k.ticket) {
      AcknowledgementIsSound(clk, log[..n], k.ticket);
    }
  }

  lemma PostIsRecorded(clk: Clock, s: Sys, a: Action)
    requires a.Post? && CanPost(s, a.name, a.data)
    ensures Key(s.epoch, NextTicket(clk, s)) in Step(clk, s, a).posts
  {
  }

  /** A poster's key stays in the history. */
  lemma PostStays(clk: Clock, log: seq<Action>, m: nat, n: nat, ticket: int)
    requires Ticks(clk) && PostedAt(clk, log, m, ticket) && m < n <= |log|
    ensures Key(Exec(clk, log[..m]).epoch, ticket) in Exec(clk, log[..n]).posts
  {
    hide ExecFrom, Ticks;
    ExecPrefix(clk, log, m);
    PostIsRecorded(clk, Exec(clk, log[..m]), log[m]);
    ExecInv(clk, log[..m + 1]);
    assert log[..n][..m + 1] == log[..m + 1];
    ExecSplit(clk, START, log[..n], m + 1);
    HistoryGrows(clk, Exec(clk, log[..m + 1]), log[..n][m + 1..]);
  }

  /** With late wipes, a poster that sees its ticket accepted, at any later time, has had
      its own event accepted by another process. */
  lemma AcceptedMeansMine(clk: Clock, log: seq<Action>, m: nat, n: nat, ticket: int)
    requires Ticks(clk) && PostedAt(clk, log, m, ticket) && m < n <= |log|
    requires forall i :: 0 <= i < |log| ==> WipesLate(clk, Exec(clk, log[..i]), log[i])
    requires IsAccepted(Exec(clk, log[..n]).mem, ticket)
    ensures HandledFor(Exec(clk, log), Key(Exec(clk, log[..m]).epoch, ticket))
  {
    hide Exec, Step, WipesLate, Ticks, IsAccepted, PostedAt;
    var key := Key(Exec(clk, log[..m]).epoch, ticket);
    PostStays(clk, log, m, n, ticket);
    if key.epoch != Exec(clk, log[..n]).epoch {
      OldTicketsAreNotAccepted(clk, log, n, key);
    } else {
      OwnPostWasHandled(clk, log, m, n, ticket);
    }
  }

  /** The second clock reads like the first as far as the run has gone. */
  ghost predicate SameSoFar(one: Clock, other: Clock, tick: nat) {
    forall n :: 0 <= n < tick ==> one(n) == other(n)
  }

  /** In no future of this epoch is a ticket of an earlier epoch accepted. */
  ghost predicate NeverAnotherAnswer(clk: Clock, s: Sys, u: Sys) {
    forall future: Clock, log: seq<Action>, k ::
      Ticks(future) && SameSoFar(clk, future, u.tick) && k in s.posts && ExecFrom(future, u, log).epoch == u.epoch ==>
        !IsAccepted(ExecFrom(future, u, log).mem, k.ticket)
  }

  /** Three actions that get a ticket accepted after a wipe. */
  function Impostor(owner: nat): seq<Action> {
    [Post(9, [1], [], 0), Pass(Proc(8, owner, 1, {[1]}), true), Lease(Proc(8, owner, 1, {[1]}))]
  }

  lemma ImpostorPosts(clk: Clock, u: Sys, ticket: int)
    requires u.mem.events == EmptyQueue() && u.mem.lastEvent == 0 && clk(u.tick) == ticket > 0
    ensures var s := DoPost(clk, u, 9, [1], [], 0);
            && s.mem == u.mem.(lastEvent := ticket, events := s.mem.events) && |s.mem.events| == QUEUE_SIZE
            && s.mem.events[0] == Event(0, 9, Pad([1], NAME_SIZE), Pad([], DATA_SIZE), ticket, 0, false)
            && s.tick == u.tick + 1 && s.epoch == u.epoch && s.runs == u.runs
  {
    assert FreeFrom(u.mem.events, 0) == 0;
  }

  lemma ImpostorRuns(clk: Clock, s: Sys, p: Proc, ticket: int)
    requires |s.mem.events| == QUEUE_SIZE && s.mem.globalId == p.gid && p.pid == 8 && p.handlers == {[1]}
    requires s.mem.events[0] == Event(0, 9, Pad([1], NAME_SIZE), Pad([], DATA_SIZE), ticket, 0, false)
    requires clk(s.tick) == clk(s.tick + 1) == ticket > 0
    ensures var t := DoPass(clk, s, p, true);
            && |t.mem.events| == QUEUE_SIZE && t.mem.globalId == p.gid && t.tick == s.tick + 2 && t.epoch == s.epoch
            && t.mem.events[0].posted == ticket && t.mem.events[0].processed != 0 && t.mem.events[0].accepted
            && |t.runs| == |s.runs| + 1 && t.runs[..|s.runs|] == s.runs
            && t.runs[|s.runs|].key == Key(s.epoch, ticket)
  {
    NameArrives([1]);
    assert Fetched(clk, s, p) == 0;
  }

  lemma FromSnoc(clk: Clock, u: Sys, log: seq<Action>, a: Action)
    ensures ExecFrom(clk, u, log + [a]) == Step(clk, ExecFrom(clk, u, log), a)
  {
    assert (log + [a])[..|log|] == log;
  }

  lemma ThreeSteps(clk: Clock, u: Sys, log: seq<Action>)
    requires |log| == 3
    ensures ExecFrom(clk, u, log) == Step(clk, Step(clk, Step(clk, u, log[0]), log[1]), log[2])
  {
    hide Step;
    assert log == [log[0]] + [log[1]] + [log[2]] && [log[0]] == [] + [log[0]];
    FromSnoc(clk, u, [], log[0]);
    FromSnoc(clk, u, [log[0]], log[1]);
    FromSnoc(clk, u, [log[0]] + [log[1]], log[2]);
    NothingFrom(clk, u);
  }

  /** An event posted right after a wipe is run by the owner and acknowledged as soon as
      the clock moves on. */
  lemma ImpostorAccepted(clk: Clock, u: Sys, ticket: int)
    requires u.mem.events == EmptyQueue() && u.mem.lastEvent == 0 && ticket > 0
    requires clk(u.tick) == clk(u.tick + 1) == clk(u.tick + 2) == ticket && clk(u.tick + 3) == ticket + 1
    ensures var t := ExecFrom(clk, u, Impostor(u.mem.globalId));
            && t.epoch == u.epoch && IsAccepted(t.mem, ticket)
            && |t.runs| == |u.runs| + 1 && t.runs[..|u.runs|] == u.runs
            && t.runs[|u.runs|].key == Key(u.epoch, ticket)
  {
    hide DoPost, DoPass, ExecFrom, NextTicket, CanPost;
    var p := Proc(8, u.mem.globalId, 1, {[1]});
    var s1 := DoPost(clk, u, 9, [1], [], 0);
    ImpostorPosts(clk, u, ticket);
    var s2 := DoPass(clk, s1, p, true);
    ImpostorRuns(clk, s1, p, ticket);
    var s3 := DoLease(clk, s2, p);
    ThreeSteps(clk, u, Impostor(u.mem.globalId));
    assert AnswerFrom(s3.mem.events, ticket, 0) == 0;
  }

  /** A clock that shows the old ticket just long enough. */
  function StuckAt(clk: Clock, tick: nat, ticket: int): Clock {
    (n: nat) => if n < tick then clk(n) else if n < tick + 3 then ticket else ticket + 1
  }

  lemma StuckTicks(clk: Clock, tick: nat, ticket: int)
    requires Ticks(clk) && tick > 0 && clk(tick - 1) <= ticket
    ensures Ticks(StuckAt(clk, tick, ticket))
  {
    var f := StuckAt(clk, tick, ticket);
    forall m: nat, n: nat | m <= n
      ensures f(m) <= f(n)
    {
      if m < tick <= n {
        assert clk(m) <= clk(tick - 1);
      }
    }
  }

  /** The state that a wipe leaves. */
  lemma WipeLeaves(clk: Clock, s: Sys, a: Action)
    requires Ticks(clk) && Inv(s) && Step(clk, s, a).epoch == s.epoch + 1
    ensures var u := Step(clk, s, a);
            && u.mem.events == EmptyQueue() && u.mem.lastEvent == 0 && u.posts == s.posts && u.tick > s.tick
            && u.mem.lastProcessed == clk(u.tick - 1) && u.mem.lastProcessed > 0 && Inv(u)
  {
    StepInv(clk, s, a);
  }

  /** The tickets of an epoch are at least the clock readings since its wipe. */
  ghost predicate TicketsSince(s: Sys, epoch: nat, low: int) {
    forall k :: k in s.posts && k.epoch == epoch ==> low <= k.ticket
  }

  lemma {:induction false} TicketsSinceAlong(clk: Clock, u: Sys, log: seq<Action>, low: int)
    requires Ticks(clk) && TicketsSince(u, u.epoch, low) && low <= clk(u.tick)
    requires ExecFrom(clk, u, log).epoch == u.epoch
    ensures TicketsSince(ExecFrom(clk, u, log), u.epoch, low)
    decreases |log|
  {
    hide Step;
    if log != [] {
      var init := log[..|log| - 1];
      var t := ExecFrom(clk, u, init);
      EpochsGrowAlong(clk, u, init);
      EpochsGrow(clk, t, log[|log| - 1]);
      TicketsSinceAlong(clk, u, init, low);
      PostsStep(clk, t, log[|log| - 1]);
      assert clk(u.tick) <= clk(t.tick);
    }
  }

  lemma AcceptedIsPosted(s: Sys, ticket: int)
    requires Inv(s) && IsAccepted(s.mem, ticket)
    ensures Key(s.epoch, ticket) in s.posts
  {
    assert SlotOk(s, s.mem.events[AnswerFrom(s.mem.events, ticket, 0)]);
  }

  lemma OldStaysUnanswered(clk: Clock, future: Clock, s: Sys, u: Sys, log: seq<Action>, k: Key)
    requires Ticks(clk) && Ticks(future) && Inv(s) && Inv(u) && EpochsInOrder(clk, s)
    requires u.posts == s.posts && u.epoch == s.epoch + 1 && s.tick < u.tick
    requires u.mem.lastProcessed == clk(u.tick - 1) && s.mem.lastEvent < u.mem.lastProcessed
    requires SameSoFar(clk, future, u.tick) && k in s.posts && ExecFrom(future, u, log).epoch == u.epoch
    ensures !IsAccepted(ExecFrom(future, u, log).mem, k.ticket)
  {
    hide ExecFrom, IsAccepted;
    var low := u.mem.lastProcessed;
    var t := ExecFrom(future, u, log);
    assert k.ticket < low by {
      assert clk(s.tick) <= clk(u.tick - 1);
    }
    assert low <= future(u.tick) by {
      assert future(u.tick - 1) <= future(u.tick);
    }
    TicketsSinceAlong(future, u, log, low);
    ExecFromInv(future, u, log);
    if IsAccepted(t.mem, k.ticket) {
      AcceptedIsPosted(t, k.ticket);
    }
  }

  /** What a new owner could check: after a takeover, no future of the epoch answers for
      an event of an earlier epoch exactly when the last ticket lies before the reading
      that the takeover left as the time of its lease. */
  lemma {:induction false} NeverAnotherAnswerIff(clk: Clock, s: Sys, a: Action)
    requires Ticks(clk) && Inv(s) && LastWasPosted(s) && EpochsInOrder(clk, s)
    requires Step(clk, s, a).epoch == s.epoch + 1
    ensures NeverAnotherAnswer(clk, s, Step(clk, s, a)) <==> s.mem.lastEvent < Step(clk, s, a).mem.lastProcessed
  {
    hide Step, ExecFrom, IsAccepted, Inv;
    var u := Step(clk, s, a);
    WipeLeaves(clk, s, a);
    if s.mem.lastEvent < u.mem.lastProcessed {
      forall future: Clock, log: seq<Action>, k |
        Ticks(future) && SameSoFar(clk, future, u.tick) && k in s.posts && ExecFrom(future, u, log).epoch == u.epoch
        ensures !IsAccepted(ExecFrom(future, u, log).mem, k.ticket)
      {
        OldStaysUnanswered(clk, future, s, u, log, k);
      }
    } else {
      var last := s.mem.lastEvent;
      var future := StuckAt(clk, u.tick, last);
      assert Ticks(future) by { StuckTicks(clk, u.tick, last); }
      ImpostorAccepted(future, u, last);
      var k := Key(s.epoch, last);
      assert SameSoFar(clk, future, u.tick) && k in s.posts;
      assert ExecFrom(future, u, Impostor(u.mem.globalId)).epoch == u.epoch;
      assert IsAccepted(ExecFrom(future, u, Impostor(u.mem.globalId)).mem, k.ticket);
    }
  }

  // ---------- a run in which it goes wrong ----------

  /** Second 100, then 105 for six readings, then 106. */
  function SlowClock(): Clock {
    (n: nat) => if n < 1 then 100 else if n < 7 then 105 else 106
  }

  /** A process creates the segment and falls silent; another posts; a third takes over
      in the same second. */
  function Takeover(): seq<Action> {
    [Create(1), Post(7, [1], [], 0), Lease(Proc(8, 2, 1, {[1]}))]
  }

  lemma TakeoverState()
    ensures var s := Exec(SlowClock(), Takeover());
            && s.tick == 4 && s.epoch == 2 && s.mem == Memory(2, 0, 105, EmptyQueue())
            && s.runs == [] && s.posts.Keys == {Key(1, 105)} && s.posts[Key(1, 105)].sender == 7
  {
    var clk := SlowClock();
    ThreeSteps(clk, START, Takeover());
    var s1 := Step(clk, START, Create(1));
    assert s1.mem == Memory(1, 0, 100, EmptyQueue());
    assert FreeFrom(s1.mem.events, 0) == 0;
  }

  /** A reachable state in which the next event gets the ticket of an event of an earlier
      epoch. */
  lemma TicketsRepeatAcrossEpochs()
    ensures var s := Exec(SlowClock(), Takeover());
            && Ticks(SlowClock()) && s.epoch == 2
            && CanPost(s, [1], []) && NextTicket(SlowClock(), s) == 105 && Key(1, 105) in s.posts
  {
    TakeoverState();
    assert FreeFrom(EmptyQueue(), 0) == 0;
  }

  lemma FirstPost(clk: Clock, log: seq<Action>)
    requires |log| > 1 && log[0] == Create(1) && log[1] == Post(7, [1], [], 0) && clk == SlowClock()
    ensures PostedAt(clk, log, 1, 105) && Exec(clk, log[..1]).epoch == 1
  {
    assert log[..1] == [] + [Create(1)];
    ExecSnoc(clk, [], Create(1));
    var s1 := Exec(clk, log[..1]);
    assert s1 == Step(clk, START, Create(1));
    assert FreeFrom(s1.mem.events, 0) == 0;
  }

  /** The poster of that earlier event sees its ticket accepted although no handler ever
      ran for its event. */
  lemma AcceptedForAnother()
    ensures var log := Takeover() + Impostor(2);
            var s := Exec(SlowClock(), log);
            && PostedAt(SlowClock(), log, 1, 105) && Exec(SlowClock(), log[..1]).epoch == 1
            && IsAccepted(s.mem, 105)
            && forall i :: 0 <= i < |s.runs| ==> s.runs[i].key == Key(2, 105)
  {
    hide ExecFrom, IsAccepted;
    var clk := SlowClock();
    var log := Takeover() + Impostor(2);
    TakeoverState();
    ImpostorAccepted(clk, Exec(clk, Takeover()), 105);
    assert log[..3] == Takeover() && log[3..] == Impostor(2);
    ExecSplit(clk, START, log, 3);
    FirstPost(clk, log);
  }
}
