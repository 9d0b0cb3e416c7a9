/** The shared memory through which running instances talk: a table of 32 event
    slots under one lock, with tickets, a timed ownership lease and collection of
    old events.  Every action below is what one process does while holding the lock.

    Time is a schedule of clock readings: `clk(n)` is what the n-th call of the
    clock on this machine returns, whichever process makes it. */
module IpcModel {
  type Byte = b: int | 0 <= b < 256
  type Bytes = seq<Byte>
  type Clock = nat -> int

  const QUEUE_SIZE := 32
  const NAME_SIZE := 16
  const DATA_SIZE := 128
  const GC_TIMEOUT := 5
  const OWNERSHIP_TIMEOUT := 5

  /** One slot of the table. */
  datatype Event = Event(dest: nat, sender: int, name: Bytes, data: Bytes,
                         posted: int, processed: int, accepted: bool)

  datatype Memory = Memory(globalId: nat, lastEvent: int, lastProcessed: int, events: seq<Event>)

  /** A process as far as the shared memory is concerned. */
  datatype Proc = Proc(pid: int, gid: nat, profile: nat, handlers: set<Bytes>)

  ghost predicate Ticks(clk: Clock) {
    && (forall n :: clk(n) > 0)
    && (forall m, n :: m <= n ==> clk(m) <= clk(n))
  }

  // ---------- names and data in fixed-size fields ----------

  function Zeros(n: nat): (s: Bytes)
    ensures |s| == n && forall i :: 0 <= i < n ==> s[i] == 0
  {
    seq(n, _ => 0)
  }

  function Pad(s: Bytes, n: nat): (t: Bytes)
    requires |s| <= n
    ensures |t| == n
  {
    s + Zeros(n - |s|)
  }

  /** Reads bytes up to the first zero. */
  function CString(s: Bytes): (t: Bytes)
    ensures |t| <= |s| && t == s[..|t|] && 0 !in t
    ensures |t| < |s| ==> s[|t|] == 0
  {
    if s == [] || s[0] == 0 then [] else [s[0]] + CString(s[1..])
  }

  /** The eight bytes of a time as they lie in memory, least significant first. */
  function TimeBytes(t: int): (b: Bytes)
    ensures |b| == 8 && b[0] == t % 0x100
  {
    [t % 0x100, t / 0x100 % 0x100, t / 0x1_0000 % 0x100, t / 0x100_0000 % 0x100,
     t / 0x1_0000_0000 % 0x100, t / 0x100_0000_0000 % 0x100,
     t / 0x1_0000_0000_0000 % 0x100, t / 0x100_0000_0000_0000 % 0x100]
  }

  /** The name under which a handler is looked up: the field up to its first zero byte or
      its end. */
  function NameOf(name: Bytes): Bytes {
    CString(name)
  }

  /** The data that a handler is called with: this reader does not stop at the end of
      the field but at the first zero byte, and the ticket lies behind the field. */
  function DataOf(data: Bytes, posted: int): Bytes {
    CString(data + TimeBytes(posted))
  }

  lemma {:induction false} CStringIs(s: Bytes, k: nat)
    requires k <= |s| && 0 !in s[..k] && (k < |s| ==> s[k] == 0)
    ensures CString(s) == s[..k]
  {
  }

  predicate Fits(name: Bytes, data: Bytes) {
    |name| <= NAME_SIZE && |data| <= DATA_SIZE
  }

  /** A posted name reaches the handler lookup unchanged exactly when it has no zero
      byte; a name that fills its field does. */
  lemma NameArrives(name: Bytes)
    requires |name| <= NAME_SIZE
    ensures NameOf(Pad(name, NAME_SIZE)) == name <==> 0 !in name
  {
    var s, k := Pad(name, NAME_SIZE), |name|;
    assert s[..k] == name;
    if 0 !in name {
      CStringIs(s, k);
    }
  }

  /** Posted data reaches the handler unchanged exactly when it has no zero byte and
      either leaves room in its field or the ticket's lowest byte is zero. */
  lemma DataArrives(data: Bytes, posted: int)
    requires |data| <= DATA_SIZE
    ensures DataOf(Pad(data, DATA_SIZE), posted) == data <==>
              0 !in data && (|data| < DATA_SIZE || posted % 0x100 == 0)
  {
    var s := Pad(data, DATA_SIZE) + TimeBytes(posted);
    var k := |data|;
    assert s[..k] == data;
    assert s[k] == if k < DATA_SIZE then 0 else posted % 0x100;
    if 0 !in data && s[k] == 0 {
      CStringIs(s, k);
    }
  }

  /** Letters that fill the data field. */
  function FullData(): (d: Bytes)
    ensures |d| == DATA_SIZE && 0 !in d
  {
    seq(DATA_SIZE, _ => 97)
  }

  /** Data that the code accepts and that arrives longer than it was sent: the ticket's
      first byte is read as a part of it. */
  lemma FullDataRunsOn()
    ensures Fits([], FullData())
    ensures DataOf(Pad(FullData(), DATA_SIZE), 105) == FullData() + [105]
  {
    var s := Pad(FullData(), DATA_SIZE) + TimeBytes(105);
    assert s[DATA_SIZE] == 105 && s[DATA_SIZE + 1] == 0;
    assert s[..DATA_SIZE + 1] == FullData() + [105];
    CStringIs(s, DATA_SIZE + 1);
  }

  const ZERO_EVENT := Event(0, 0, Zeros(NAME_SIZE), Zeros(DATA_SIZE), 0, 0, false)

  function EmptyQueue(): (q: seq<Event>)
    ensures |q| == QUEUE_SIZE && forall i :: 0 <= i < QUEUE_SIZE ==> q[i] == ZERO_EVENT
  {
    seq(QUEUE_SIZE, _ => ZERO_EVENT)
  }

  function EventName(e: Event): Bytes {
    NameOf(e.name)
  }

  // ---------- fetching ----------

  predicate Expired(e: Event, now: int) {
    if e.processed != 0 then now - e.processed > GC_TIMEOUT else now - e.posted > GC_TIMEOUT
  }

  function Swept(e: Event, now: int): Event {
    if Expired(e, now) then ZERO_EVENT else e
  }

  /** May this process run the event? */
  predicate Eligible(e: Event, p: Proc, owner: nat) {
    && e.posted != 0 && e.processed == 0 && e.sender != p.pid
    && (e.dest == p.profile || (e.dest == 0 && owner == p.gid))
  }

  /** The first slot from i on that is eligible once swept, or the table size. */
  function FindFrom(ev: seq<Event>, p: Proc, owner: nat, clk: Clock, n: nat, i: nat): (h: nat)
    requires i <= |ev|
    ensures i <= h <= |ev|
    ensures h < |ev| ==> Eligible(Swept(ev[h], clk(n + h)), p, owner)
    ensures forall k :: i <= k < h ==> !Eligible(Swept(ev[k], clk(n + k)), p, owner)
    decreases |ev| - i
  {
    if i == |ev| || Eligible(Swept(ev[i], clk(n + i)), p, owner) then i
    else FindFrom(ev, p, owner, clk, n, i + 1)
  }

  /** The first k slots after collection, read at n, n + 1, ... */
  function SweptTo(ev: seq<Event>, clk: Clock, n: nat, k: nat): (w: seq<Event>)
    requires k <= |ev|
    ensures |w| == |ev|
    ensures forall i :: 0 <= i < |ev| ==> w[i] == if i < k then Swept(ev[i], clk(n + i)) else ev[i]
  {
    seq(|ev|, i requires 0 <= i < |ev| => if i < k then Swept(ev[i], clk(n + i)) else ev[i])
  }

  // ---------- the system and its history ----------

  /** Tickets are unique within an epoch; each wipe of the memory starts a new one. */
  datatype Key = Key(epoch: nat, ticket: int)
  datatype PostInfo = PostInfo(sender: int, dest: nat, name: Bytes, data: Bytes)
  /** A handler run: in which process, under which name, with which data, and its answer. */
  datatype Run = Run(key: Key, proc: Proc, owner: nat, name: Bytes, data: Bytes, result: bool)

  datatype Sys = Sys(mem: Memory, tick: nat, epoch: nat, posts: map<Key, PostInfo>, runs: seq<Run>)

  const START := Sys(Memory(0, 0, 0, EmptyQueue()), 0, 0, map[], [])

  datatype Action =
    | Create(gid: nat)
    | Lease(p: Proc)
    | Pass(p: Proc, answer: bool)
    | Post(pid: int, name: Bytes, data: Bytes, dest: nat)
    | Exit(gid: nat)

  /** Whole-memory wipe by a new owner. */
  function Wiped(s: Sys, gid: nat, now: int, tick: nat): Sys {
    s.(mem := Memory(gid, 0, now, EmptyQueue()), tick := tick, epoch := s.epoch + 1)
  }

  /** The first part of processEvents: renew the lease, or take it over. */
  function DoLease(clk: Clock, s: Sys, p: Proc): Sys {
    if s.mem.globalId == p.gid then
      s.(mem := s.mem.(lastProcessed := clk(s.tick)), tick := s.tick + 1)
    else if clk(s.tick) - s.mem.lastProcessed >= OWNERSHIP_TIMEOUT then
      Wiped(s, p.gid, clk(s.tick + 1), s.tick + 2)
    else
      s.(tick := s.tick + 1)
  }

  /** The slot a pass of processEvents works on, or the table size. */
  function Fetched(clk: Clock, s: Sys, p: Proc): (h: nat)
    ensures h <= |s.mem.events|
  {
    FindFrom(s.mem.events, p, s.mem.globalId, clk, s.tick, 0)
  }

  /** The state after fetchEvent. */
  function AfterFetch(clk: Clock, s: Sys, p: Proc): Sys {
    var h := Fetched(clk, s, p);
    var k := if h < |s.mem.events| then h + 1 else h;
    s.(mem := s.mem.(events := SweptTo(s.mem.events, clk, s.tick, k)), tick := s.tick + k)
  }

  /** The state after the fetched event's handler has run and answered. */
  function Handled(clk: Clock, s: Sys, p: Proc, h: nat, answer: bool): Sys
    requires h < |s.mem.events|
  {
    var e := s.mem.events[h];
    var marks := e.dest != 0 || answer;
    var done := e.(accepted := answer, processed := if marks then clk(s.tick) else e.processed);
    s.(mem := s.mem.(events := s.mem.events[h := done]),
       tick := if marks then s.tick + 1 else s.tick,
       runs := s.runs + [Run(Key(s.epoch, e.posted), p, s.mem.globalId, EventName(e), DataOf(e.data, e.posted), answer)])
  }

  /** One pass of the loop in processEvents. */
  function DoPass(clk: Clock, s: Sys, p: Proc, answer: bool): Sys {
    var h := Fetched(clk, s, p);
    var t := AfterFetch(clk, s, p);
    if h < |s.mem.events| && EventName(t.mem.events[h]) in p.handlers
    then Handled(clk, t, p, h, answer)
    else t
  }

  /** The first free slot from i on, or the table size. */
  function FreeFrom(ev: seq<Event>, i: nat): (h: nat)
    requires i <= |ev|
    ensures i <= h <= |ev|
    ensures h < |ev| ==> ev[h].posted == 0
    ensures forall k :: i <= k < h ==> ev[k].posted != 0
    decreases |ev| - i
  {
    if i == |ev| || ev[i].posted == 0 then i else FreeFrom(ev, i + 1)
  }

  predicate CanPost(s: Sys, name: Bytes, data: Bytes) {
    Fits(name, data) && FreeFrom(s.mem.events, 0) < |s.mem.events|
  }

  function NextTicket(clk: Clock, s: Sys): int {
    if s.mem.lastEvent + 1 >= clk(s.tick) then s.mem.lastEvent + 1 else clk(s.tick)
  }

  function DoPost(clk: Clock, s: Sys, pid: int, name: Bytes, data: Bytes, dest: nat): Sys {
    if !CanPost(s, name, data) then s
    else
      var h, t := FreeFrom(s.mem.events, 0), NextTicket(clk, s);
      var n, d := Pad(name, NAME_SIZE), Pad(data, DATA_SIZE);
      s.(mem := s.mem.(lastEvent := t, events := s.mem.events[h := Event(dest, pid, n, d, t, 0, false)]),
         tick := s.tick + 1,
         posts := s.posts[Key(s.epoch, t) := PostInfo(pid, dest, n, d)])
  }

  function Step(clk: Clock, s: Sys, a: Action): Sys {
    match a
    case Create(gid) => Wiped(s, gid, clk(s.tick), s.tick + 1)
    case Lease(p) => DoLease(clk, s, p)
    case Pass(p, answer) => DoPass(clk, s, p, answer)
    case Post(pid, name, data, dest) => DoPost(clk, s, pid, name, data, dest)
    case Exit(gid) => if s.mem.globalId == gid then s.(mem := s.mem.(globalId := 0)) else s
  }

  function ExecFrom(clk: Clock, s: Sys, log: seq<Action>): Sys {
    if log == [] then s else Step(clk, ExecFrom(clk, s, log[..|log| - 1]), log[|log| - 1])
  }

  function Exec(clk: Clock, log: seq<Action>): Sys {
    ExecFrom(clk, START, log)
  }

  /** What isEventAccepted answers: the first processed slot with this ticket decides,
      and only once the owner's lease is newer than the ticket. */
  predicate Answers(e: Event, ticket: int) {
    e.posted == ticket && e.processed != 0
  }

  function AnswerFrom(ev: seq<Event>, ticket: int, i: nat): (h: nat)
    requires i <= |ev|
    ensures i <= h <= |ev|
    ensures h < |ev| ==> Answers(ev[h], ticket)
    ensures forall k :: i <= k < h ==> !Answers(ev[k], ticket)
    decreases |ev| - i
  {
    if i == |ev| || Answers(ev[i], ticket) then i else AnswerFrom(ev, ticket, i + 1)
  }

  predicate IsAccepted(m: Memory, ticket: int) {
    && m.lastProcessed > ticket
    && AnswerFrom(m.events, ticket, 0) < |m.events|
    && m.events[AnswerFrom(m.events, ticket, 0)].accepted
  }
}
