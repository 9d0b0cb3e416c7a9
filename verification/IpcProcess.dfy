/** The methods of one process, working in place on the shared memory.  Each is proved
    to do exactly what its actions in the shared history say. */
module IpcProcess {
  import opened IpcModel
  import opened IpcInvariants
  import opened IpcDelivery

  /** What all processes of a machine share: the memory segment and the clock. */
  class Machine {
    var globalId: nat
    var lastEvent: int
    var lastProcessed: int
    const events: array<Event>

    const clk: Clock
    /** How often the clock has been read. */
    var tick: nat
    /** Everything done to the segment so far. */
    ghost var log: seq<Action>

    ghost predicate Holds(s: Sys)
      reads this, events
    {
      && events.Length == QUEUE_SIZE
      && s.mem == Memory(globalId, lastEvent, lastProcessed, events[..])
      && s.tick == tick
    }

    ghost function History(): Sys
      reads this
    {
      Exec(clk, log)
    }

    ghost predicate Valid()
      reads this, events
    {
      Ticks(clk) && Holds(History())
    }

    constructor (clk: Clock)
      requires Ticks(clk)
      ensures Valid() && fresh(events) && log == [] && this.clk == clk
    {
      globalId, lastEvent, lastProcessed, tick := 0, 0, 0, 0;
      events := new Event[QUEUE_SIZE](_ => ZERO_EVENT);
      this.clk := clk;
      log := [];
      new;
      assert events[..] == EmptyQueue();
    }

    method Time() returns (t: int)
      modifies this`tick
      ensures t == clk(old(tick)) && tick == old(tick) + 1
    {
      t := clk(tick);
      tick := tick + 1;
    }

    /** Collects the event in a slot if it is too old. */
    method SweepSlot(h: nat) returns (evt: Event)
      requires events.Length == QUEUE_SIZE && h < QUEUE_SIZE
      modifies this`tick, events
      ensures evt == Swept(old(events[h]), clk(old(tick))) && tick == old(tick) + 1
      ensures events[..] == old(events[..])[h := evt]
    {
      evt := events[h];
      var now := Time();
      if (evt.processed != 0 && now - evt.processed > GC_TIMEOUT)
         || (evt.processed == 0 && now - evt.posted > GC_TIMEOUT) {
        events[h] := ZERO_EVENT;
      }
      evt := events[h];
    }

    /** Sets every slot to zero. */
    method ClearEvents()
      requires events.Length == QUEUE_SIZE
      modifies events
      ensures events[..] == EmptyQueue()
    {
      for i := 0 to QUEUE_SIZE
        invariant forall k :: 0 <= k < i ==> events[k] == ZERO_EVENT
      {
        events[i] := ZERO_EVENT;
      }
    }

    /** Zeroes the segment and takes it over. */
    method Wipe(gid: nat)
      requires events.Length == QUEUE_SIZE
      modifies this`globalId, this`lastEvent, this`lastProcessed, this`tick, events
      ensures events[..] == EmptyQueue()
      ensures globalId == gid && lastEvent == 0 && lastProcessed == clk(old(tick)) && tick == old(tick) + 1
    {
      ClearEvents();
      lastEvent := 0;
      globalId := gid;
      lastProcessed := Time();
    }

    /** Appends to the history an action that has just been carried out. */
    ghost method Record(a: Action)
      requires Holds(Step(clk, History(), a)) && Ticks(clk)
      modifies this`log
      ensures Valid() && log == old(log) + [a] && History() == Step(clk, old(History()), a)
    {
      log := log + [a];
      assert log[..|log| - 1] == old(log);
    }
  }

  /** The state after the handler, if there is one, has run for a fetched event. */
  function Served(clk: Clock, t: Sys, p: Proc, h: nat, answer: bool): Sys
    requires h < |t.mem.events|
  {
    if EventName(t.mem.events[h]) in p.handlers then Handled(clk, t, p, h, answer) else t
  }

  /** The state of the fetch loop: h slots are swept and none of them was eligible. */
  ghost predicate FetchedSoFar(clk: Clock, s: Sys, p: Proc, h: nat, ev: seq<Event>)
    requires h <= |s.mem.events|
  {
    && ev == SweptTo(s.mem.events, clk, s.tick, h)
    && FindFrom(s.mem.events, p, s.mem.globalId, clk, s.tick, h) == Fetched(clk, s, p)
  }

  lemma FetchStarts(clk: Clock, s: Sys, p: Proc)
    ensures FetchedSoFar(clk, s, p, 0, s.mem.events)
  {
  }

  lemma FetchSlot(clk: Clock, s: Sys, p: Proc, h: nat, ev: seq<Event>)
    requires h < |s.mem.events| && FetchedSoFar(clk, s, p, h, ev)
    ensures h < |ev| && ev[h] == s.mem.events[h]
    ensures var e := Swept(ev[h], clk(s.tick + h));
            if Eligible(e, p, s.mem.globalId)
            then Fetched(clk, s, p) == h
                 && AfterFetch(clk, s, p) == s.(mem := s.mem.(events := ev[h := e]), tick := s.tick + h + 1)
            else FetchedSoFar(clk, s, p, h + 1, ev[h := e])
  {
  }

  lemma FetchEnds(clk: Clock, s: Sys, p: Proc, ev: seq<Event>)
    requires FetchedSoFar(clk, s, p, |s.mem.events|, ev)
    ensures Fetched(clk, s, p) == |s.mem.events|
    ensures AfterFetch(clk, s, p) == s.(mem := s.mem.(events := ev), tick := s.tick + |s.mem.events|)
  {
  }

  /** Taking or renewing the lease runs no handler and raises no ticket. */
  lemma LeaseKeeps(clk: Clock, s: Sys, p: Proc, handlers: map<Bytes, Handler>)
    requires Inv(s)
    ensures var t := DoLease(clk, s, p);
            && t.runs == s.runs && t.mem.lastEvent <= s.mem.lastEvent && s.tick <= t.tick
            && AnsweredBy(t, |s.runs|, handlers, s.tick)
  {
  }

  lemma FetchTakesTime(clk: Clock, s: Sys, p: Proc)
    requires |s.mem.events| == QUEUE_SIZE
    ensures var t := AfterFetch(clk, s, p);
            && t.tick > s.tick && t.mem.lastEvent == s.mem.lastEvent && t.mem.globalId == s.mem.globalId
            && |t.mem.events| == QUEUE_SIZE
  {
  }

  lemma ServedKeeps(clk: Clock, t: Sys, p: Proc, h: nat, answer: bool)
    requires h < |t.mem.events|
    ensures var u := Served(clk, t, p, h, answer);
            u.tick >= t.tick && u.mem.lastEvent == t.mem.lastEvent
  {
  }

  lemma NotBusy(clk: Clock, s: Sys, p: Proc, handlers: map<Bytes, Handler>)
    ensures Busy(clk, s, p, handlers, []) && AfterPasses(clk, s, p, []) == s
  {
  }

  lemma NobodyLeft(ev: seq<Event>, p: Proc, owner: nat)
    requires NobodyEligible(ev, p, owner)
    ensures forall h :: 0 <= h < |ev| ==>
                          !(ev[h].posted != 0 && ev[h].processed == 0 && ev[h].sender != p.pid
                            && (ev[h].dest == p.profile || (ev[h].dest == 0 && owner == p.gid)))
  {
  }

  /** What the attempt to get at the shared segment comes to.  A segment just created may
      fail to be locked. */
  datatype Segment = Created | CreatedUnlocked | Attached | Unreachable

  class Ipc {
    const machine: Machine
    const pid: int
    const globalId: nat
    const attached: bool
    var profileId: nat
    var eventHandlers: map<Bytes, Handler>

    ghost function Self(): Proc
      reads this
    {
      Proc(pid, globalId, profileId, eventHandlers.Keys)
    }

    /** Starts a process.  Whoever creates the segment wipes and owns it, if it gets the
        lock; a process that can neither create nor attach it stays out of everything. */
    constructor (machine: Machine, pid: int, globalId: nat, profileId: nat, segment: Segment, ghost horizon: nat)
      requires machine.Valid()
      requires machine.clk(horizon) > machine.lastEvent + GC_TIMEOUT
      modifies machine, machine.events
      ensures machine.Valid()
      ensures this.machine == machine && this.pid == pid && this.globalId == globalId
              && this.profileId == profileId && eventHandlers == map[]
      ensures attached <==> !segment.Unreachable?
      ensures if attached
              then exists replies :: machine.log == old(machine.log)
                                                    + (if segment.Created? then [Create(globalId)] else [])
                                                    + [Lease(Self())] + Passes(Self(), replies)
              else machine.log == old(machine.log) && machine.tick == old(machine.tick)
    {
      this.machine, this.pid, this.globalId := machine, pid, globalId;
      this.profileId, this.eventHandlers := profileId, map[];
      this.attached := !segment.Unreachable?;
      new;
      if !segment.Unreachable? {
        ghost var replies := Join(segment.Created?, horizon);
      }
    }

    /** The first round of events, after zeroing the segment if it is new. */
    method Join(created: bool, ghost horizon: nat) returns (ghost replies: seq<bool>)
      requires machine.Valid()
      requires machine.clk(horizon) > machine.lastEvent + GC_TIMEOUT
      modifies machine, machine.events
      ensures machine.Valid()
      ensures machine.log == old(machine.log) + (if created then [Create(globalId)] else [])
                             + [Lease(Self())] + Passes(Self(), replies)
    {
      hide Exec, AfterPasses, Drains, DoLease, AnsweredBy, ClosesAll;
      if created {
        CreateSegment();
      }
      assert machine.log == old(machine.log) + if created then [Create(globalId)] else [];
      replies := ProcessEvents(horizon);
    }

    /** Zeroes a new segment and owns it. */
    method CreateSegment()
      requires machine.Valid()
      modifies machine, machine.events
      ensures machine.Valid() && machine.log == old(machine.log) + [Create(globalId)]
      ensures machine.lastEvent <= old(machine.lastEvent)
    {
      ExecInv(machine.clk, machine.log);
      machine.Wipe(globalId);
      machine.Record(Create(globalId));
    }

    method IsAttached() returns (b: bool)
      ensures b == attached
    {
      b := attached;
    }

    method SetProfileId(id: nat)
      modifies this`profileId
      ensures profileId == id
    {
      profileId := id;
    }

    method RegisterEventHandler(name: Bytes, handler: Handler)
      modifies this`eventHandlers
      ensures eventHandlers == old(eventHandlers)[name := handler]
    {
      eventHandlers := eventHandlers[name := handler];
    }

    method UnregisterEventHandler(name: Bytes)
      modifies this`eventHandlers
      ensures eventHandlers == old(eventHandlers) - {name}
    {
      eventHandlers := eventHandlers - {name};
    }

    method IsCurrentOwner() returns (b: bool)
      requires machine.Valid()
      ensures b <==> machine.History().mem.globalId == globalId
    {
      b := machine.globalId == globalId;
    }

    /** The process leaves; only the owner mark goes with it. */
    method Leave()
      requires machine.Valid()
      modifies machine
      ensures machine.Valid() && machine.log == old(machine.log) + [Exit(globalId)]
    {
      if machine.globalId == globalId {
        machine.globalId := 0;
      }
      machine.Record(Exit(globalId));
    }

    /** Returns the event's ticket, or 0 when it does not fit or no slot is free. */
    method PostEvent(name: Bytes, data: Bytes, dest: nat) returns (result: int)
      requires machine.Valid()
      modifies machine, machine.events
      ensures machine.Valid() && machine.log == old(machine.log) + [Post(pid, name, data, dest)]
      ensures result == if CanPost(old(machine.History()), name, data)
                        then NextTicket(machine.clk, old(machine.History())) else 0
    {
      ghost var s := machine.History();
      result := 0;
      if |name| > NAME_SIZE || |data| > DATA_SIZE {
        machine.Record(Post(pid, name, data, dest));
        return;
      }
      var h := 0;
      while h < QUEUE_SIZE && machine.events[h].posted != 0
        invariant h <= QUEUE_SIZE
        invariant FreeFrom(s.mem.events, h) == FreeFrom(s.mem.events, 0)
      {
        h := h + 1;
      }
      if h < QUEUE_SIZE {
        var now := machine.Time();
        result := if machine.lastEvent + 1 >= now then machine.lastEvent + 1 else now;
        machine.lastEvent := result;
        machine.events[h] := Event(dest, pid, Pad(name, NAME_SIZE), Pad(data, DATA_SIZE), result, 0, false);
      }
      machine.Record(Post(pid, name, data, dest));
    }

    method IsEventAccepted(ticket: int) returns (result: bool)
      requires machine.Valid()
      ensures result <==> IsAccepted(machine.History().mem, ticket)
    {
      result := false;
      ghost var ev := machine.History().mem.events;
      if machine.lastProcessed > ticket {
        var i := 0;
        while i < QUEUE_SIZE
          invariant i <= QUEUE_SIZE && !result
          invariant AnswerFrom(ev, ticket, i) == AnswerFrom(ev, ticket, 0)
        {
          if machine.events[i].posted == ticket && machine.events[i].processed != 0 {
            result := machine.events[i].accepted;
            return;
          }
          i := i + 1;
        }
      }
    }

    /** Collects old events on the way to the first one this process may run. */
    method FetchEvent(ghost s: Sys) returns (h: nat)
      requires machine.Holds(s)
      modifies machine`tick, machine.events
      ensures machine.Holds(AfterFetch(machine.clk, s, Self()))
      ensures h == Fetched(machine.clk, s, Self())
    {
      hide Fetched, AfterFetch, FetchedSoFar, Swept;
      ghost var p, clk := Self(), machine.clk;
      h := 0;
      FetchStarts(clk, s, p);
      while h < QUEUE_SIZE
        invariant h <= QUEUE_SIZE && machine.tick == s.tick + h
        invariant FetchedSoFar(clk, s, p, h, machine.events[..])
      {
        FetchSlot(clk, s, p, h, machine.events[..]);
        var evt := machine.SweepSlot(h);
        if evt.posted != 0 && evt.processed == 0 && evt.sender != pid
           && (evt.dest == profileId || (evt.dest == 0 && machine.globalId == globalId)) {
          return;
        }
        h := h + 1;
      }
      FetchEnds(clk, s, p, machine.events[..]);
    }

    /** Renews the lease, or takes it over when it has run out. */
    method RenewLease()
      requires machine.Valid()
      modifies machine, machine.events
      ensures machine.Valid() && machine.log == old(machine.log) + [Lease(Self())]
      ensures machine.History() == DoLease(machine.clk, old(machine.History()), Self())
    {
      if machine.globalId == globalId {
        machine.lastProcessed := machine.Time();
      } else {
        var now := machine.Time();
        if now - machine.lastProcessed >= OWNERSHIP_TIMEOUT {
          machine.Wipe(globalId);
        }
      }
      machine.Record(Lease(Self()));
    }

    /** Runs the handler of a fetched event, if it has one, and marks the event. */
    method Serve(h: nat, ghost t: Sys) returns (ghost answer: bool)
      requires h < QUEUE_SIZE && machine.Holds(t)
      modifies machine`tick, machine.events
      ensures machine.Holds(Served(machine.clk, t, Self(), h, answer))
      ensures var e := t.mem.events[h];
              EventName(e) in eventHandlers ==>
                answer == eventHandlers[EventName(e)](DataOf(e.data, e.posted), t.tick)
    {
      answer := false;
      var evt := machine.events[h];
      assert evt == t.mem.events[h];
      var name := NameOf(evt.name);
      if name in eventHandlers {
        var result := eventHandlers[name](DataOf(evt.data, evt.posted), machine.tick);
        answer := result;
        evt := evt.(accepted := result);
        machine.events[h] := evt;
        if evt.dest == 0 {
          if evt.accepted {
            var now := machine.Time();
            machine.events[h] := evt.(processed := now);
          }
        } else {
          var now := machine.Time();
          machine.events[h] := evt.(processed := now);
        }
      }
    }

    /** One pass: fetch an event and run its handler.  Returns false when there was
        nothing to fetch. */
    method RunNext() returns (more: bool, ghost answer: bool)
      requires machine.Valid()
      modifies machine, machine.events
      ensures machine.Valid() && machine.log == old(machine.log) + [Pass(Self(), answer)]
      ensures machine.History() == DoPass(machine.clk, old(machine.History()), Self(), answer)
      ensures more <==> Fetched(machine.clk, old(machine.History()), Self()) < QUEUE_SIZE
      ensures machine.tick > old(machine.tick) && machine.lastEvent == old(machine.lastEvent)
      ensures Serves(machine.clk, old(machine.History()), eventHandlers, Self(), answer)
      ensures !more ==> NobodyEligible(machine.events[..], Self(), machine.globalId)
    {
      hide Exec, Handled, Fetched, AfterFetch;
      ghost var s, p, clk := machine.History(), Self(), machine.clk;
      var h := FetchEvent(s);
      ghost var t := AfterFetch(clk, s, p);
      FetchTakesTime(clk, s, p);
      more := h < QUEUE_SIZE;
      answer := false;
      if more {
        answer := Serve(h, t);
        ServedKeeps(clk, t, p, h, answer);
      } else {
        FetchedNothing(clk, s, p);
      }
      machine.Record(Pass(p, answer));
    }

    /** Renews or takes over the lease, then runs handlers until nothing is left that
        this process may run.  Events nobody handles are fetched again and again until
        they are collected, so the loop ends only because the clock moves on: `horizon`
        is a reading that lies the collection timeout past the last ticket. */
    method ProcessEvents(ghost horizon: nat) returns (ghost replies: seq<bool>)
      requires machine.Valid()
      requires machine.clk(horizon) > machine.lastEvent + GC_TIMEOUT
      modifies machine, machine.events
      ensures machine.Valid()
      ensures machine.log == old(machine.log) + [Lease(Self())] + Passes(Self(), replies)
      ensures machine.History() == AfterPasses(machine.clk, DoLease(machine.clk, old(machine.History()), Self()),
                                               Self(), replies)
      ensures Drains(machine.clk, DoLease(machine.clk, old(machine.History()), Self()), Self(), eventHandlers, replies)
      ensures var s := DoLease(machine.clk, old(machine.History()), Self());
              ClosesAll(s.mem.events, Self(), s.mem.globalId, eventHandlers, |s.mem.events|) ==>
                |replies| <= QUEUE_SIZE + 1
      ensures AnsweredBy(machine.History(), |old(machine.History()).runs|, eventHandlers, old(machine.tick))
      ensures forall h :: 0 <= h < machine.events.Length ==>
                            var e := machine.events[h];
                            !(e.posted != 0 && e.processed == 0 && e.sender != pid
                              && (e.dest == profileId || (e.dest == 0 && machine.globalId == globalId)))
    {
      hide Exec, DoPass, DoLease, AfterFetch, Fetched, Inv, AnsweredBy, Serves, NobodyEligible, Busy;
      ghost var s0, p, clk := machine.History(), Self(), machine.clk;
      ghost var n := |s0.runs|;
      ExecInv(clk, machine.log);
      LeaseKeeps(clk, s0, p, eventHandlers);
      RenewLease();
      ghost var log, leased := machine.log, machine.History();
      ExecInv(clk, log);
      EventCount(leased);
      replies := [];
      NotBusy(clk, leased, p, eventHandlers);
      var more := true;
      while more
        invariant machine.Valid() && machine.log == log + Passes(p, replies)
        invariant machine.History() == AfterPasses(clk, leased, p, replies)
        invariant clk(horizon) > machine.lastEvent + GC_TIMEOUT
        invariant n <= |machine.History().runs| && s0.tick <= machine.tick
        invariant AnsweredBy(machine.History(), n, eventHandlers, s0.tick)
        invariant more ==> Busy(clk, leased, p, eventHandlers, replies)
        invariant !more ==> Drains(clk, leased, p, eventHandlers, replies)
        invariant !more ==> NobodyEligible(machine.events[..], p, machine.globalId)
        decreases more, if machine.tick < horizon then horizon - machine.tick else 0
      {
        ghost var s := machine.History();
        ExecInv(clk, machine.log);
        EventCount(s);
        if horizon <= s.tick {
          LateFetchFindsNothing(clk, s, p, horizon);
        }
        ghost var answer;
        more, answer := RunNext();
        AnsweredByNext(clk, s, n, eventHandlers, p, answer, s0.tick);
        PassSnoc(clk, leased, p, replies, answer);
        if more {
          BusySnoc(clk, leased, p, eventHandlers, replies, answer);
        }
        assert (replies + [answer])[..|replies|] == replies;
        replies := replies + [answer];
      }
      NobodyLeft(machine.events[..], p, machine.globalId);
      if ClosesAll(leased.mem.events, p, leased.mem.globalId, eventHandlers, |leased.mem.events|) {
        DrainsFast(clk, leased, p, eventHandlers, replies);
      }
    }
  }

  // ---------- waiting for an answer ----------

  /** What one round of waiting sees: the shared memory, and then the clock. */
  datatype Poll = Poll(mem: Memory, now: int)
  datatype Outcome = Accepted | GaveUp | StillWaiting

  /** The polls see the memory as a run has left it after ever more actions. */
  ghost predicate PollsOf(polls: seq<Poll>, clk: Clock, log: seq<Action>, at: seq<nat>) {
    && |at| == |polls|
    && (forall i :: 0 <= i < |polls| ==> at[i] <= |log| && polls[i].mem == Exec(clk, log[..at[i]]).mem)
    && (forall i, j :: 0 <= i < j < |polls| ==> at[i] <= at[j])
  }

  /** Asks again and again until the event is accepted or the time is up; without a
      positive timeout it never gives up.  The other processes act between the polls.
      When it ends with an acceptance, another process's handler accepted the event that
      carries the ticket in the epoch of that poll. */
  method WaitUntilAccepted(polls: seq<Poll>, ticket: int, start: int, timeout: int,
                           ghost clk: Clock, ghost log: seq<Action>, ghost at: seq<nat>)
    returns (r: Outcome)
    requires Ticks(clk) && PollsOf(polls, clk, log, at)
    ensures r.Accepted? <==> exists i :: 0 <= i < |polls| && IsAccepted(polls[i].mem, ticket)
                                          && forall j :: 0 <= j < i ==> !(timeout > 0 && polls[j].now - start >= timeout)
    ensures r.Accepted? ==> exists i :: 0 <= i < |polls|
                                         && HandledFor(Exec(clk, log), Key(Exec(clk, log[..at[i]]).epoch, ticket))
    ensures r.GaveUp? ==> timeout > 0 && exists i :: 0 <= i < |polls| && polls[i].now - start >= timeout
                                          && forall j :: 0 <= j <= i ==> !IsAccepted(polls[j].mem, ticket)
    ensures r.StillWaiting? ==> forall i :: 0 <= i < |polls| ==>
                                    !IsAccepted(polls[i].mem, ticket) && !(timeout > 0 && polls[i].now - start >= timeout)
  {
    hide Exec, HandledFor, IsAccepted, Ticks;
    var i := 0;
    while i < |polls|
      invariant i <= |polls|
      invariant forall j :: 0 <= j < i ==> !IsAccepted(polls[j].mem, ticket) && !(timeout > 0 && polls[j].now - start >= timeout)
    {
      if IsAccepted(polls[i].mem, ticket) {
        SeenAcceptedWasHandled(clk, log, at[i], ticket);
        return Accepted;
      }
      if timeout > 0 && polls[i].now - start >= timeout {
        return GaveUp;
      }
      i := i + 1;
    }
    r := StillWaiting;
  }
}
