/** Who owns the shared memory over whole runs. */
module IpcLease {
  import opened IpcModel
  import opened IpcInvariants

  lemma PrefixRun(clk: Clock, s: Sys, log: seq<Action>, n: nat)
    requires n < |log|
    ensures ExecFrom(clk, s, log[..n + 1]) == Step(clk, ExecFrom(clk, s, log[..n]), log[n])
  {
    assert log[..n + 1][..n] == log[..n];
  }

  // ---------- a timely owner stays owner ----------

  predicate RenewsLease(a: Action, g: nat) {
    a.Lease? && a.p.gid == g
  }

  /** The clock reading at which action n of the run looks at the lease. */
  function ReadingAt(clk: Clock, s: Sys, log: seq<Action>, n: nat): int
    requires n <= |log|
  {
    clk(ExecFrom(clk, s, log[..n]).tick)
  }

  /** Less than the ownership timeout before action n, the owner renewed its lease. */
  ghost predicate RenewedBefore(clk: Clock, s: Sys, log: seq<Action>, g: nat, n: nat)
    requires n <= |log|
  {
    || ReadingAt(clk, s, log, n) - s.mem.lastProcessed < OWNERSHIP_TIMEOUT
    || exists m :: 0 <= m < n && RenewsLease(log[m], g)
                   && ReadingAt(clk, s, log, n) - ReadingAt(clk, s, log, m) < OWNERSHIP_TIMEOUT
  }

  /** Action n does not create the segment anew, is not the owner's exit, and if it is
      another process's look at the lease, the owner has renewed it in time. */
  ghost predicate SparesOwner(clk: Clock, s: Sys, log: seq<Action>, g: nat, n: nat)
    requires n < |log|
  {
    && !log[n].Create? && log[n] != Exit(g)
    && (log[n].Lease? && log[n].p.gid != g ==> RenewedBefore(clk, s, log, g, n))
  }

  /** The process owns the memory after n actions, and it has not been wiped. */
  ghost predicate KeptAt(clk: Clock, s: Sys, log: seq<Action>, g: nat, n: nat)
    requires n <= |log|
  {
    ExecFrom(clk, s, log[..n]).mem.globalId == g && ExecFrom(clk, s, log[..n]).epoch == s.epoch
  }

  /** The lease dates from the owner's last renewal. */
  ghost predicate LeaseIsNewest(clk: Clock, s: Sys, log: seq<Action>, g: nat, n: nat)
    requires n <= |log|
  {
    var lease := ExecFrom(clk, s, log[..n]).mem.lastProcessed;
    && s.mem.lastProcessed <= lease
    && (forall m :: 0 <= m < n && RenewsLease(log[m], g) ==> ReadingAt(clk, s, log, m) <= lease)
    && (lease == s.mem.lastProcessed
        || exists m :: 0 <= m < n && RenewsLease(log[m], g) && ReadingAt(clk, s, log, m) == lease)
  }

  /** What one action does to ownership. */
  lemma OwnerStep(clk: Clock, t: Sys, a: Action, g: nat)
    requires t.mem.globalId == g != 0
    ensures var u := Step(clk, t, a);
            (u.mem.globalId == g && u.epoch == t.epoch) <==>
              && !a.Create? && a != Exit(g)
              && (a.Lease? && a.p.gid != g ==> clk(t.tick) - t.mem.lastProcessed < OWNERSHIP_TIMEOUT)
    ensures var u := Step(clk, t, a);
            u.mem.globalId == g && u.epoch == t.epoch ==>
              u.mem.lastProcessed == if RenewsLease(a, g) then clk(t.tick) else t.mem.lastProcessed
  {
  }

  lemma ReadingsGrow(clk: Clock, s: Sys, log: seq<Action>, m: nat, n: nat)
    requires Ticks(clk) && m <= n <= |log|
    ensures ReadingAt(clk, s, log, m) <= ReadingAt(clk, s, log, n)
    decreases n
  {
    if m < n {
      PrefixRun(clk, s, log, n - 1);
      EpochsGrow(clk, ExecFrom(clk, s, log[..n - 1]), log[n - 1]);
      ReadingsGrow(clk, s, log, m, n - 1);
    }
  }

  lemma StartReading(clk: Clock, s: Sys, log: seq<Action>)
    ensures ReadingAt(clk, s, log, 0) == clk(s.tick)
  {
  }

  /** The lease is fresh exactly when some renewal is. */
  lemma NewestDecides(clk: Clock, s: Sys, log: seq<Action>, g: nat, n: nat)
    requires n <= |log| && LeaseIsNewest(clk, s, log, g, n)
    ensures RenewedBefore(clk, s, log, g, n) <==>
              ReadingAt(clk, s, log, n) - ExecFrom(clk, s, log[..n]).mem.lastProcessed < OWNERSHIP_TIMEOUT
  {
    hide ExecFrom, ReadingAt;
  }

  lemma NewestNext(clk: Clock, s: Sys, log: seq<Action>, g: nat, n: nat)
    requires Ticks(clk) && s.mem.lastProcessed <= clk(s.tick)
    requires n < |log| && LeaseIsNewest(clk, s, log, g, n)
    requires ExecFrom(clk, s, log[..n + 1]).mem.lastProcessed
             == if RenewsLease(log[n], g) then ReadingAt(clk, s, log, n) else ExecFrom(clk, s, log[..n]).mem.lastProcessed
    ensures LeaseIsNewest(clk, s, log, g, n + 1)
  {
    hide ExecFrom, ReadingAt;
    if RenewsLease(log[n], g) {
      forall m | 0 <= m <= n
        ensures ReadingAt(clk, s, log, m) <= ReadingAt(clk, s, log, n)
      {
        ReadingsGrow(clk, s, log, m, n);
      }
      StartReading(clk, s, log);
    }
  }

  /** While the process is the owner, it stays so exactly through an action that spares
      it. */
  lemma {:induction false} KeptNext(clk: Clock, s: Sys, log: seq<Action>, g: nat, n: nat)
    requires Ticks(clk) && g != 0 && s.mem.lastProcessed <= clk(s.tick)
    requires n < |log| && KeptAt(clk, s, log, g, n) && LeaseIsNewest(clk, s, log, g, n)
    ensures KeptAt(clk, s, log, g, n + 1) <==> SparesOwner(clk, s, log, g, n)
    ensures KeptAt(clk, s, log, g, n + 1) ==> LeaseIsNewest(clk, s, log, g, n + 1)
  {
    hide Step, ExecFrom, LeaseIsNewest;
    PrefixRun(clk, s, log, n);
    OwnerStep(clk, ExecFrom(clk, s, log[..n]), log[n], g);
    NewestDecides(clk, s, log, g, n);
    if KeptAt(clk, s, log, g, n + 1) {
      NewestNext(clk, s, log, g, n);
    }
  }

  lemma {:induction false} KeptUpTo(clk: Clock, s: Sys, log: seq<Action>, g: nat, n: nat)
    requires Ticks(clk) && g != 0 && s.mem.globalId == g && s.mem.lastProcessed <= clk(s.tick) && n <= |log|
    requires (forall m :: 0 <= m < n ==> SparesOwner(clk, s, log, g, m)) || (forall m :: 0 <= m <= n ==> KeptAt(clk, s, log, g, m))
    ensures KeptAt(clk, s, log, g, n) && LeaseIsNewest(clk, s, log, g, n)
    decreases n
  {
    hide SparesOwner;
    if n == 0 {
      assert log[..0] == [];
    } else {
      hide KeptAt, LeaseIsNewest;
      KeptUpTo(clk, s, log, g, n - 1);
      KeptNext(clk, s, log, g, n - 1);
    }
  }

  /** Over every run: the owner is never displaced and its memory never wiped, exactly
      when the segment is not created anew, the owner does not leave, and every look of
      another process comes less than the timeout after a renewal. */
  lemma {:induction false} TimelyOwnerIsKept(clk: Clock, s: Sys, log: seq<Action>, g: nat)
    requires Ticks(clk) && g != 0 && s.mem.globalId == g && s.mem.lastProcessed <= clk(s.tick)
    ensures (forall n :: 0 <= n <= |log| ==> KeptAt(clk, s, log, g, n)) <==>
            (forall n :: 0 <= n < |log| ==> SparesOwner(clk, s, log, g, n))
  {
    hide SparesOwner, KeptAt, LeaseIsNewest;
    if forall n :: 0 <= n < |log| ==> SparesOwner(clk, s, log, g, n) {
      forall n | 0 <= n <= |log|
        ensures KeptAt(clk, s, log, g, n)
      {
        KeptUpTo(clk, s, log, g, n);
      }
    } else if forall n :: 0 <= n <= |log| ==> KeptAt(clk, s, log, g, n) {
      var n :| 0 <= n < |log| && !SparesOwner(clk, s, log, g, n);
      KeptUpTo(clk, s, log, g, n);
      KeptNext(clk, s, log, g, n);
    }
  }

  // ---------- a silent owner is succeeded ----------

  /** After the owner's last renewal: nothing but other processes' actions, and every
      look at the lease before it has run out.  The owner may have left. */
  ghost predicate SilentOwner(clk: Clock, s: Sys, log: seq<Action>) {
    forall n :: 0 <= n < |log| ==>
                  && !log[n].Create?
                  && (log[n].Lease? ==>
                        && log[n].p.gid != s.mem.globalId && log[n].p.gid != 0
                        && ReadingAt(clk, s, log, n) - s.mem.lastProcessed < OWNERSHIP_TIMEOUT)
  }

  /** One action while the owner is silent: the lease stays as it is. */
  lemma SilentStep(clk: Clock, t: Sys, a: Action)
    requires !a.Create?
    requires a.Lease? ==> a.p.gid != t.mem.globalId && clk(t.tick) - t.mem.lastProcessed < OWNERSHIP_TIMEOUT
    ensures var u := Step(clk, t, a);
            && u.mem.lastProcessed == t.mem.lastProcessed && u.epoch == t.epoch
            && (u.mem.globalId == t.mem.globalId || u.mem.globalId == 0)
  {
  }

  lemma {:induction false} SilentUpTo(clk: Clock, s: Sys, log: seq<Action>, n: nat)
    requires SilentOwner(clk, s, log) && n <= |log|
    ensures var t := ExecFrom(clk, s, log[..n]);
            && t.mem.lastProcessed == s.mem.lastProcessed && t.epoch == s.epoch
            && (t.mem.globalId == s.mem.globalId || t.mem.globalId == 0)
    decreases n
  {
    if n == 0 {
      assert log[..0] == [];
    } else {
      SilentUpTo(clk, s, log, n - 1);
      PrefixRun(clk, s, log, n - 1);
      hide Step, ExecFrom;
      SilentStep(clk, ExecFrom(clk, s, log[..n - 1]), log[n - 1]);
    }
  }

  /** Once the owner is silent, whether it crashed or left, nobody takes over before
      its lease has run out, and the first process to look afterwards owns an empty
      queue. */
  lemma {:induction false} Succession(clk: Clock, s: Sys, log: seq<Action>, p: Proc)
    requires Ticks(clk) && SilentOwner(clk, s, log)
    requires p.gid != s.mem.globalId && p.gid != 0
    ensures var t := ExecFrom(clk, s, log);
            && t.epoch == s.epoch && (t.mem.globalId == s.mem.globalId || t.mem.globalId == 0)
            && var u := DoLease(clk, t, p);
               if clk(t.tick) >= s.mem.lastProcessed + OWNERSHIP_TIMEOUT
               then u.mem.globalId == p.gid && u.mem.events == EmptyQueue() && u.epoch == s.epoch + 1
                    && u.mem.lastProcessed >= s.mem.lastProcessed + OWNERSHIP_TIMEOUT
               else u.mem == t.mem && u.epoch == s.epoch
  {
    hide ExecFrom;
    SilentUpTo(clk, s, log, |log|);
    assert log[..|log|] == log;
    var t := ExecFrom(clk, s, log);
    assert clk(t.tick) <= clk(t.tick + 1);
  }

  /** A clean exit hands nothing over: until the timeout there is no owner at all. */
  lemma CleanExitStillWaits(clk: Clock, s: Sys, p: Proc)
    requires s.mem.globalId != 0 && p.gid != 0
    requires clk(s.tick) - s.mem.lastProcessed < OWNERSHIP_TIMEOUT
    ensures ExecFrom(clk, s, [Exit(s.mem.globalId), Lease(p)]).mem.globalId == 0
  {
    var log := [Exit(s.mem.globalId), Lease(p)];
    PrefixRun(clk, s, log, 0);
    PrefixRun(clk, s, log, 1);
    assert log[..0] == [] && log[..2] == log;
  }
}
