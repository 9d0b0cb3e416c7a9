/** What becomes of an event in its slot, field by field: how it is posted, who may run it
    and with what, when it is marked and when the slot is free again. */
module IpcSlots {
  import opened IpcModel
  import opened IpcInvariants
  import opened IpcTickets
  import opened IpcDelivery

  // ---------- posting ----------

  /** The field holds these bytes, and zeros behind them. */
  ghost predicate Holds(field: Bytes, bytes: Bytes, size: nat) {
    && |field| == size >= |bytes|
    && forall i :: 0 <= i < size ==> field[i] == if i < |bytes| then bytes[i] else 0
  }

  /** An unprocessed event in this slot carries what was posted. */
  ghost predicate Carries(e: Event, pid: int, name: Bytes, data: Bytes, dest: nat, ticket: int) {
    && e.dest == dest && e.sender == pid && Holds(e.name, name, NAME_SIZE) && Holds(e.data, data, DATA_SIZE)
    && e.posted == ticket && e.processed == 0 && !e.accepted
  }

  /** What is recorded of a post. */
  ghost predicate Records(i: PostInfo, pid: int, name: Bytes, data: Bytes, dest: nat) {
    && i.sender == pid && i.dest == dest && Holds(i.name, name, NAME_SIZE) && Holds(i.data, data, DATA_SIZE)
  }

  /** A post succeeds exactly when name and data fit and some slot is free.  Then one free
      slot and the history carry the arguments, and nothing else changes; otherwise nothing
      changes at all. */
  lemma PostCarries(clk: Clock, s: Sys, pid: int, name: Bytes, data: Bytes, dest: nat)
    requires Ticks(clk) && Inv(s)
    ensures var t := DoPost(clk, s, pid, name, data, dest);
            if |name| <= NAME_SIZE && |data| <= DATA_SIZE
               && exists h :: 0 <= h < |s.mem.events| && s.mem.events[h].posted == 0
            then exists h ::
              && 0 <= h < |s.mem.events| == |t.mem.events| && s.mem.events[h] == ZERO_EVENT
              && Carries(t.mem.events[h], pid, name, data, dest, t.mem.lastEvent)
              && (forall i :: 0 <= i < |s.mem.events| && i != h ==> t.mem.events[i] == s.mem.events[i])
              && var key := Key(s.epoch, t.mem.lastEvent);
                 key !in s.posts && t.posts.Keys == s.posts.Keys + {key}
                 && Records(t.posts[key], pid, name, data, dest)
            else t == s
  {
    var h := FreeFrom(s.mem.events, 0);
    var t := DoPost(clk, s, pid, name, data, dest);
    if CanPost(s, name, data) {
      assert SlotOk(s, s.mem.events[h]);
      assert Carries(t.mem.events[h], pid, name, data, dest, t.mem.lastEvent);
    }
  }

  lemma HeldIsPad(field: Bytes, bytes: Bytes, size: nat)
    requires Holds(field, bytes, size)
    ensures field == Pad(bytes, size)
  {
  }

  /** A post that succeeds is recorded under its ticket. */
  lemma PostRecords(clk: Clock, s: Sys, a: Action)
    requires Ticks(clk) && Inv(s) && a.Post? && CanPost(s, a.name, a.data)
    ensures var key := Key(s.epoch, NextTicket(clk, s));
            var t := Step(clk, s, a);
            key in t.posts && Records(t.posts[key], a.pid, a.name, a.data, a.dest)
  {
    PostCarries(clk, s, a.pid, a.name, a.data, a.dest);
  }

  lemma RunIsOk(s: Sys, i: nat)
    requires Inv(s) && i < |s.runs|
    ensures RunOk(s, s.runs[i])
  {
  }

  lemma RecordArrives(i: PostInfo, pid: int, name: Bytes, data: Bytes, dest: nat, ticket: int)
    requires Records(i, pid, name, data, dest)
    ensures NameOf(i.name) == name <==> 0 !in name
    ensures DataOf(i.data, ticket) == data <==> 0 !in data && (|data| < DATA_SIZE || ticket % 0x100 == 0)
  {
    HeldIsPad(i.name, name, NAME_SIZE);
    HeldIsPad(i.data, data, DATA_SIZE);
    NameArrives(name);
    DataArrives(data, ticket);
  }

  /** From the poster to the handler, over every run: whenever a handler runs for a posted
      event, it is found under the posted name exactly when that has no zero byte, and it
      gets the posted data exactly when that has no zero byte and either leaves room in its
      field or the ticket's lowest byte is zero; it runs in another process, of the profile
      the post was addressed to or, for a global post, in the owner. */
  lemma PostedArrives(clk: Clock, log: seq<Action>, m: nat, n: nat, ticket: int, i: nat)
    requires Ticks(clk) && PostedAt(clk, log, m, ticket) && m < n <= |log|
    requires i < |Exec(clk, log[..n]).runs|
    requires Exec(clk, log[..n]).runs[i].key == Key(Exec(clk, log[..m]).epoch, ticket)
    ensures var r, a := Exec(clk, log[..n]).runs[i], log[m];
            && (r.name == a.name <==> 0 !in a.name)
            && (r.data == a.data <==> 0 !in a.data && (|a.data| < DATA_SIZE || ticket % 0x100 == 0))
            && r.name in r.proc.handlers
            && r.proc.pid != a.pid
            && (r.proc.profile == a.dest || (a.dest == 0 && r.owner == r.proc.gid))
  {
    hide ExecFrom, Ticks, Inv, Step, CanPost, Records, Holds, DataOf, NameOf;
    var a, s, t := log[m], Exec(clk, log[..m]), Exec(clk, log[..n]);
    var key := Key(s.epoch, ticket);
    ExecInv(clk, log[..m]);
    PostRecords(clk, s, a);
    ExecPrefix(clk, log, m);
    ExecInv(clk, log[..m + 1]);
    assert log[..n][..m + 1] == log[..m + 1];
    ExecSplit(clk, START, log[..n], m + 1);
    HistoryGrows(clk, Exec(clk, log[..m + 1]), log[..n][m + 1..]);
    assert Records(t.posts[key], a.pid, a.name, a.data, a.dest);
    ExecInv(clk, log[..n]);
    RunIsOk(t, i);
    RecordArrives(t.posts[key], a.pid, a.name, a.data, a.dest, ticket);
  }

  // ---------- fetching and running ----------

  /** The event is pending and addressed to this process, and at this reading it is not
      yet old. */
  ghost predicate Awaits(e: Event, p: Proc, owner: nat, now: int) {
    && e.posted != 0 && e.processed == 0 && now <= e.posted + GC_TIMEOUT
    && e.sender != p.pid && (e.dest == p.profile || (e.dest == 0 && owner == p.gid))
  }

  /** A pass works on the first event that awaits this process at the reading of its slot,
      or on none if there is none. */
  lemma FetchesFirst(clk: Clock, s: Sys, p: Proc, h: nat)
    requires h <= |s.mem.events|
    ensures Fetched(clk, s, p) == h <==>
              && (h < |s.mem.events| ==> Awaits(s.mem.events[h], p, s.mem.globalId, clk(s.tick + h)))
              && forall k :: 0 <= k < h ==> !Awaits(s.mem.events[k], p, s.mem.globalId, clk(s.tick + k))
  {
  }

  /** When a handler runs, it gets the name and the data in the slot.  The slot gets its
      answer, and, unless the event is global and was declined, the time at which the
      handler returned: the reading after those of the slots passed. */
  lemma HandlerMarks(clk: Clock, s: Sys, p: Proc, answer: bool)
    requires Ticks(clk) && Inv(s) && Fetched(clk, s, p) < QUEUE_SIZE
    requires NameOf(s.mem.events[Fetched(clk, s, p)].name) in p.handlers
    ensures var h, t := Fetched(clk, s, p), DoPass(clk, s, p, answer);
            var e := s.mem.events[h];
            && |t.mem.events| == QUEUE_SIZE
            && t.mem.events[h] == e.(accepted := answer,
                                     processed := if e.dest == 0 && !answer then 0 else clk(s.tick + h + 1))
            && t.runs == s.runs + [Run(Key(s.epoch, e.posted), p, s.mem.globalId, NameOf(e.name),
                                       DataOf(e.data, e.posted), answer)]
  {
  }

  // ---------- collection ----------

  /** The time from which the age of an event counts. */
  function Born(e: Event): int {
    if e.processed != 0 then e.processed else e.posted
  }

  /** A handler run changes the fetched slot alone. */
  lemma OtherSlotsStay(clk: Clock, s: Sys, p: Proc, answer: bool, h: nat)
    requires |s.mem.events| == QUEUE_SIZE && h < QUEUE_SIZE && h != Fetched(clk, s, p)
    ensures var t, u := AfterFetch(clk, s, p), DoPass(clk, s, p, answer);
            |t.mem.events| == |u.mem.events| == QUEUE_SIZE && u.mem.events[h] == t.mem.events[h]
  {
    hide Fetched;
  }

  /** A slot that a pass goes by is freed exactly when its event, pending or processed, is
      older than the timeout at the reading of that slot; otherwise it stays as it is. */
  lemma CollectsExactly(clk: Clock, s: Sys, p: Proc, answer: bool, h: nat)
    requires Inv(s) && h < QUEUE_SIZE && h < Fetched(clk, s, p) && s.mem.events[h].posted != 0
    ensures var e, t := s.mem.events[h], DoPass(clk, s, p, answer);
            && |t.mem.events| == QUEUE_SIZE
            && t.mem.events[h] == (if clk(s.tick + h) > (if e.processed != 0 then e.processed else e.posted) + GC_TIMEOUT
                                   then ZERO_EVENT else e)
  {
    hide DoPass, Fetched;
    EventCount(s);
    OtherSlotsStay(clk, s, p, answer, h);
  }

  /** The slots behind the fetched one are not looked at. */
  lemma RestStays(clk: Clock, s: Sys, p: Proc, answer: bool, h: nat)
    requires Inv(s) && Fetched(clk, s, p) < h < QUEUE_SIZE
    ensures var t := DoPass(clk, s, p, answer); |t.mem.events| == QUEUE_SIZE && t.mem.events[h] == s.mem.events[h]
  {
  }

  lemma FreeSlotStays(clk: Clock, s: Sys, p: Proc, answer: bool, h: nat)
    requires Inv(s) && h < QUEUE_SIZE && s.mem.events[h].posted == 0
    ensures var t := DoPass(clk, s, p, answer); |t.mem.events| == QUEUE_SIZE && t.mem.events[h] == ZERO_EVENT
  {
    assert SlotOk(s, s.mem.events[h]);
  }

  lemma {:induction false} PassesInv(clk: Clock, s: Sys, p: Proc, replies: seq<bool>)
    requires Ticks(clk) && Inv(s)
    ensures Inv(AfterPasses(clk, s, p, replies))
    decreases |replies|
  {
    hide DoPass, Inv;
    if replies != [] {
      PassesInv(clk, s, p, replies[..|replies| - 1]);
      PassInv(clk, AfterPasses(clk, s, p, replies[..|replies| - 1]), p, replies[|replies| - 1]);
    }
  }

  /** The last pass of a call, which finds nothing, goes by every slot. */
  lemma LastPassCollects(clk: Clock, s: Sys, p: Proc, handlers: map<Bytes, Handler>, replies: seq<bool>, h: nat)
    requires Ticks(clk) && Inv(s) && Drains(clk, s, p, handlers, replies) && h < QUEUE_SIZE
    ensures var u := AfterPasses(clk, s, p, replies[..|replies| - 1]);
            var t := AfterPasses(clk, s, p, replies);
            && |u.mem.events| == |t.mem.events| == QUEUE_SIZE
            && var e := u.mem.events[h];
               t.mem.events[h] == if e.posted != 0 && clk(u.tick + h) <= Born(e) + GC_TIMEOUT then e else ZERO_EVENT
  {
    hide DoPass, Fetched, Inv;
    var m := |replies| - 1;
    PassesInv(clk, s, p, replies[..m]);
    var u := AfterPasses(clk, s, p, replies[..m]);
    EventCount(u);
    if u.mem.events[h].posted == 0 {
      FreeSlotStays(clk, u, p, replies[m], h);
    } else {
      CollectsExactly(clk, u, p, replies[m], h);
    }
  }

  /** Every event in the table is older than the timeout. */
  ghost predicate AllOld(clk: Clock, s: Sys) {
    forall h :: 0 <= h < |s.mem.events| && s.mem.events[h].posted != 0 ==>
                  clk(s.tick) > Born(s.mem.events[h]) + GC_TIMEOUT
  }

  lemma OldIsNotFetched(clk: Clock, s: Sys, p: Proc)
    requires Ticks(clk) && AllOld(clk, s)
    ensures Fetched(clk, s, p) == |s.mem.events|
  {
    forall h | 0 <= h < |s.mem.events| && s.mem.events[h].posted != 0
      ensures clk(s.tick) <= clk(s.tick + h)
    {
    }
    FetchesFirst(clk, s, p, |s.mem.events|);
  }

  lemma NothingBusy(clk: Clock, s: Sys, p: Proc, handlers: map<Bytes, Handler>, replies: seq<bool>)
    requires Busy(clk, s, p, handlers, replies) && Fetched(clk, s, p) == |s.mem.events|
    ensures replies == []
  {
    assert replies[..0] == [] && AfterPasses(clk, s, p, []) == s;
  }

  /** A call of the event loop that comes after the timeout of all events empties the
      table, and the next post that fits succeeds. */
  lemma {:induction false} LateCallEmpties(clk: Clock, s: Sys, p: Proc, handlers: map<Bytes, Handler>, replies: seq<bool>,
                                           pid: int, name: Bytes, data: Bytes, dest: nat)
    requires Ticks(clk) && Inv(s) && Drains(clk, s, p, handlers, replies) && AllOld(clk, s)
    requires |name| <= NAME_SIZE && |data| <= DATA_SIZE
    ensures var t := AfterPasses(clk, s, p, replies);
            && t.mem.events == EmptyQueue()
            && var u := DoPost(clk, t, pid, name, data, dest);
               exists h :: 0 <= h < |u.mem.events| && Carries(u.mem.events[h], pid, name, data, dest, u.mem.lastEvent)
  {
    hide DoPass, Inv, Fetched, Busy, Carries, DoPost;
    var m := |replies| - 1;
    OldIsNotFetched(clk, s, p);
    NothingBusy(clk, s, p, handlers, replies[..m]);
    assert AfterPasses(clk, s, p, replies[..m]) == s;
    EventCount(s);
    PassesInv(clk, s, p, replies);
    var t := AfterPasses(clk, s, p, replies);
    EventCount(t);
    forall h | 0 <= h < QUEUE_SIZE
      ensures t.mem.events[h] == ZERO_EVENT
    {
      LastPassCollects(clk, s, p, handlers, replies, h);
      assert clk(s.tick) <= clk(s.tick + h);
    }
    assert t.mem.events == EmptyQueue() && t.mem.events[0].posted == 0;
    PostCarries(clk, t, pid, name, data, dest);
  }
}
