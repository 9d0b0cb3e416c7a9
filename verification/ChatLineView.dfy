/** The rendered chat view as one sequence of rows.

    The storage class keeps three containers in step: the lines, the date-line
    map and the message index.  All three are determined by a single sequence of
    rows, so the specification of every operation is stated on that sequence. */
module ChatLineView {
  /** A chat line pointer; only its identity matters. */
  type Line = nat

  type Time = int

  type Idx = nat

  /** A message row remembers whether an index entry still points at it. */
  datatype Row =
    | Msg(idx: Idx, ts: Time, line: Line, indexed: bool)
    | Date(ts: Time, line: Line)

  type View = seq<Row>

  /** One entry of the sorted message index. */
  datatype IdxInfo = IdxInfo(idx: Idx, linePos: int, timestamp: Time)

  predicate Indexed(r: Row) {
    r.Msg? && r.indexed
  }

  // ---------- the three containers, as functions of the view ----------

  function LinesOf(v: View): (ls: seq<Line>)
    ensures |ls| == |v| && forall i :: 0 <= i < |v| ==> ls[i] == v[i].line
  {
    seq(|v|, i requires 0 <= i < |v| => v[i].line)
  }

  function EntryOf(r: Row, pos: nat): seq<IdxInfo> {
    if Indexed(r) then [IdxInfo(r.idx, pos, r.ts)] else []
  }

  function IndexOf(v: View): seq<IdxInfo> {
    if v == [] then [] else IndexOf(v[..|v| - 1]) + EntryOf(v[|v| - 1], |v| - 1)
  }

  ghost predicate DatesOf(v: View, dm: map<Line, Time>) {
    && (forall i :: 0 <= i < |v| ==> (v[i].line in dm <==> v[i].Date?))
    && (forall i :: 0 <= i < |v| && v[i].Date? ==> dm[v[i].line] == v[i].ts)
    && (forall l :: l in dm ==> l in LinesOf(v))
  }

  ghost predicate DistinctLines(v: View) {
    forall i, j :: 0 <= i < j < |v| ==> v[i].line != v[j].line
  }

  ghost predicate IdxIncreasing(v: View) {
    forall i, j :: 0 <= i < j < |v| && Indexed(v[i]) && Indexed(v[j]) ==> v[i].idx < v[j].idx
  }

  ghost predicate WellFormed(v: View) {
    DistinctLines(v) && IdxIncreasing(v)
  }

  // ---------- insertion ----------

  /** What an insertion looks for: an index, or a time. */
  datatype Bound = FromIdx(i: Idx) | FromTime(t: Time)

  predicate Reaches(b: Bound, r: Row) {
    r.Msg? && match b { case FromIdx(i) => i <= r.idx case FromTime(t) => t <= r.ts }
  }

  predicate EntryReaches(b: Bound, e: IdxInfo) {
    match b { case FromIdx(i) => i <= e.idx case FromTime(t) => t <= e.timestamp }
  }

  /** Position of the first indexed message that reaches the bound, or the end. */
  function Seek(v: View, b: Bound): (p: nat)
    ensures p <= |v|
    ensures p < |v| ==> Indexed(v[p]) && Reaches(b, v[p])
    ensures forall q :: 0 <= q < p && Indexed(v[q]) ==> !Reaches(b, v[q])
  {
    if v == [] then 0
    else
      var p := Seek(v[..|v| - 1], b);
      if p < |v| - 1 || (Indexed(v[|v| - 1]) && Reaches(b, v[|v| - 1])) then p else |v|
  }

  /** Move back over the date rows that lie after the timestamp. */
  function AdjustBack(v: View, p: nat, ts: Time): (q: nat)
    requires p <= |v|
    ensures q <= p
    ensures forall i :: q <= i < p ==> v[i].Date? && v[i].ts > ts
    ensures q > 0 && v[q - 1].Date? ==> v[q - 1].ts <= ts
  {
    if p > 0 && v[p - 1].Date? && v[p - 1].ts > ts then AdjustBack(v, p - 1, ts) else p
  }

  function InsertAt(v: View, p: nat, r: Row): (w: View)
    requires p <= |v|
    ensures |w| == |v| + 1 && w[p] == r
  {
    v[..p] + [r] + v[p..]
  }

  ghost predicate HasIdx(v: View, idx: Idx) {
    exists i :: 0 <= i < |v| && Indexed(v[i]) && v[i].idx == idx
  }

  ghost predicate HasDate(v: View, ts: Time) {
    exists i :: 0 <= i < |v| && v[i].Date? && v[i].ts == ts
  }

  function MsgPos(v: View, idx: Idx, ts: Time): (p: nat)
    ensures p <= |v|
  {
    AdjustBack(v, Seek(v, FromIdx(idx)), ts)
  }

  function DatePos(v: View, ts: Time): (p: nat)
    ensures p <= |v|
  {
    AdjustBack(v, Seek(v, FromTime(ts)), ts)
  }

  ghost function InsertMsg(v: View, idx: Idx, ts: Time, line: Line): View {
    if HasIdx(v, idx) then v else InsertAt(v, MsgPos(v, idx, ts), Msg(idx, ts, line, true))
  }

  function InsertDate(v: View, ts: Time, line: Line): View {
    InsertAt(v, DatePos(v, ts), Date(ts, line))
  }

  // ---------- erasure ----------

  /** Length of the maximal run of date rows that ends just before position p. */
  function DateRun(v: View, p: nat): (k: nat)
    requires p <= |v|
    ensures k <= p
    ensures forall i :: p - k <= i < p ==> v[i].Date?
    ensures k < p ==> v[p - k - 1].Msg?
  {
    if p > 0 && v[p - 1].Date? then 1 + DateRun(v, p - 1) else 0
  }

  /** Would the row after p leave a date line with nothing below it? */
  predicate EndsDay(v: View, p: nat)
    requires p < |v|
  {
    p + 1 == |v| || v[p + 1].Date?
  }

  /** How many date rows go together with the row at p. */
  function Cascade(v: View, p: nat): (k: nat)
    requires p < |v|
    ensures k <= p
  {
    if EndsDay(v, p) then DateRun(v, p) else 0
  }

  /** Clears the mark of the first n indexed rows. */
  function Unindex(v: View, n: nat): (w: View)
    ensures |w| == |v|
    ensures forall i :: 0 <= i < |v| ==> w[i] == v[i] || (Indexed(v[i]) && w[i] == v[i].(indexed := false))
    ensures forall i :: 0 <= i < |v| ==> w[i].line == v[i].line && w[i].ts == v[i].ts && w[i].Date? == v[i].Date?
    ensures forall i :: 0 <= i < |v| && v[i].Msg? ==> w[i].idx == v[i].idx
    ensures forall i :: 0 <= i < |v| && Indexed(w[i]) ==> Indexed(v[i])
  {
    if n == 0 || v == [] then v
    else if Indexed(v[0]) then [v[0].(indexed := false)] + Unindex(v[1..], n - 1)
    else [v[0]] + Unindex(v[1..], n)
  }

  /** Later index entries that the erase loop drops besides the row's own. */
  function Overdrop(v: View, p: nat): nat
    requires p < |v|
  {
    Cascade(v, p) + if Indexed(v[p]) then 0 else 1
  }

  /** The closed form of erasing position p, lost index entries included. */
  function EraseAt(v: View, p: nat): View
    requires p < |v|
  {
    v[..p - Cascade(v, p)] + Unindex(v[p + 1..], Overdrop(v, p))
  }

  // ---------- lemmas about the index ----------

  function Shift(s: seq<IdxInfo>, d: int): (t: seq<IdxInfo>)
    ensures |t| == |s| && forall i :: 0 <= i < |s| ==> t[i] == s[i].(linePos := s[i].linePos + d)
  {
    seq(|s|, i requires 0 <= i < |s| => s[i].(linePos := s[i].linePos + d))
  }

  lemma {:induction false} IndexConcat(a: View, b: View)
    ensures IndexOf(a + b) == IndexOf(a) + Shift(IndexOf(b), |a|)
    decreases |b|
  {
    if b == [] {
      assert a + b == a;
    } else {
      var n := |b| - 1;
      assert (a + b)[..|a + b| - 1] == a + b[..n];
      assert (a + b)[|a + b| - 1] == b[n];
      IndexConcat(a, b[..n]);
    }
  }

  lemma IndexSnoc(v: View, r: Row)
    ensures IndexOf(v + [r]) == IndexOf(v) + EntryOf(r, |v|)
  {
  }

  lemma {:induction false} IndexSplit(v: View, p: nat)
    requires p <= |v|
    ensures IndexOf(v) == IndexOf(v[..p]) + Shift(IndexOf(v[p..]), p)
  {
    hide IndexOf;
    assert v[..p] + v[p..] == v;
    IndexConcat(v[..p], v[p..]);
  }

  /** The index entry of an indexed row, and its place in the index. */
  lemma {:induction false} EntryAt(v: View, p: nat)
    requires p < |v|
    ensures IndexOf(v) == IndexOf(v[..p]) + EntryOf(v[p], p) + Shift(IndexOf(v[p + 1..]), p + 1)
  {
    hide IndexOf, EntryOf, Shift;
    assert IndexOf(v[..p + 1]) == IndexOf(v[..p]) + EntryOf(v[p], p) by {
      assert v[..p + 1] == v[..p] + [v[p]];
      IndexSnoc(v[..p], v[p]);
    }
    IndexSplit(v, p + 1);
  }

  /** Every entry points at the indexed row it was made for. */
  lemma {:induction false} EntrySound(v: View, k: nat)
    requires k < |IndexOf(v)|
    ensures var e := IndexOf(v)[k];
            && 0 <= e.linePos < |v|
            && Indexed(v[e.linePos]) && v[e.linePos].idx == e.idx && v[e.linePos].ts == e.timestamp
            && |IndexOf(v[..e.linePos])| == k
    decreases |v|
  {
    var n := |v| - 1;
    if k < |IndexOf(v[..n])| {
      EntrySound(v[..n], k);
      var e := IndexOf(v)[k];
      assert v[..n][..e.linePos] == v[..e.linePos];
    }
  }

  lemma ShiftShift(s: seq<IdxInfo>, d: int, e: int)
    ensures Shift(Shift(s, d), e) == Shift(s, d + e)
  {
  }

  lemma RankMonotone(v: View, q: nat, p: nat)
    requires q <= p <= |v|
    ensures |IndexOf(v[..q])| <= |IndexOf(v[..p])|
  {
    hide IndexOf;
    IndexConcat(v[..q], v[q..p]);
    assert v[..q] + v[q..p] == v[..p];
  }

  /** Entries are in the order of the rows they point at. */
  lemma EntriesIncreasing(v: View, j: nat, k: nat)
    requires j < k < |IndexOf(v)|
    ensures IndexOf(v)[j].linePos < IndexOf(v)[k].linePos
  {
    hide IndexOf;
    EntrySound(v, j);
    EntrySound(v, k);
    var p, q := IndexOf(v)[j].linePos, IndexOf(v)[k].linePos;
    if q <= p {
      RankMonotone(v, q, p);
      assert false;
    }
  }

  /** A view without indexed rows has an empty index. */
  lemma {:induction false} NoEntries(v: View)
    requires forall i :: 0 <= i < |v| ==> !Indexed(v[i])
    ensures IndexOf(v) == []
    decreases |v|
  {
    if v != [] {
      NoEntries(v[..|v| - 1]);
    }
  }

  /** A search through the index lands on the row that Seek names. */
  lemma SeekThroughIndex(v: View, b: Bound, j: nat)
    requires j <= |IndexOf(v)|
    requires forall k :: 0 <= k < j ==> !EntryReaches(b, IndexOf(v)[k])
    requires j < |IndexOf(v)| ==> EntryReaches(b, IndexOf(v)[j])
    ensures Seek(v, b) == if j < |IndexOf(v)| then IndexOf(v)[j].linePos else |v|
    ensures |IndexOf(v[..Seek(v, b)])| == j
  {
    hide IndexOf;
    var p := Seek(v, b);
    if p < |v| {
      EntryAt(v, p);
      var k := |IndexOf(v[..p])|;
      assert IndexOf(v)[k] == IdxInfo(v[p].idx, p, v[p].ts);
      assert EntryReaches(b, IndexOf(v)[k]);
      assert j <= k;
      if j < k {
        EntrySound(v, j);
        EntriesIncreasing(v, j, k);
        assert false;
      }
    } else {
      assert v[..p] == v;
      if j < |IndexOf(v)| {
        EntrySound(v, j);
        assert false;
      }
    }
  }

  /** Date rows between two positions do not change the index count. */
  lemma RankOverDates(v: View, q: nat, p: nat)
    requires q <= p <= |v|
    requires forall i :: q <= i < p ==> v[i].Date?
    ensures IndexOf(v[..q]) == IndexOf(v[..p])
  {
    hide IndexOf;
    IndexConcat(v[..q], v[q..p]);
    assert v[..q] + v[q..p] == v[..p];
    NoEntries(v[q..p]);
  }

  /** Inserting a row inserts its entry and shifts the entries behind it. */
  lemma IndexInsert(v: View, p: nat, r: Row)
    requires p <= |v|
    ensures var j := |IndexOf(v[..p])|;
            && j <= |IndexOf(v)|
            && IndexOf(InsertAt(v, p, r)) == IndexOf(v)[..j] + EntryOf(r, p) + Shift(IndexOf(v)[j..], 1)
  {
    hide IndexOf;
    var w := InsertAt(v, p, r);
    var head, tail := IndexOf(v[..p]), IndexOf(v[p..]);
    assert IndexOf(w) == head + EntryOf(r, p) + Shift(tail, p + 1) by {
      EntryAt(w, p);
      assert w[..p] == v[..p] && w[p + 1..] == v[p..];
    }
    IndexSplit(v, p);
    ShiftShift(tail, p, 1);
  }

  /** One more pass of Unindex drops exactly the first remaining entry. */
  lemma {:induction false} UnindexStep(v: View, n: nat)
    ensures Unindex(Unindex(v, n), 1) == Unindex(v, n + 1)
    decreases |v|
  {
    if v != [] && n > 0 {
      var m := if Indexed(v[0]) then n - 1 else n;
      UnindexStep(v[1..], m);
      assert Unindex(v, n)[1..] == Unindex(v[1..], m);
    }
  }

  lemma IndexHead(v: View)
    requires v != []
    ensures IndexOf(v) == EntryOf(v[0], 0) + Shift(IndexOf(v[1..]), 1)
  {
    hide IndexOf;
    EntryAt(v, 0);
    NoEntries(v[..0]);
  }

  lemma {:induction false} IndexUnindexOne(v: View)
    ensures IndexOf(Unindex(v, 1)) == if IndexOf(v) == [] then [] else IndexOf(v)[1..]
    decreases |v|
  {
    hide IndexOf;
    if v == [] {
      NoEntries(v);
    } else {
      var w := Unindex(v, 1);
      var tail := v[1..];
      IndexHead(v);
      IndexHead(w);
      if Indexed(v[0]) {
        assert w[1..] == tail;
      } else {
        assert w[1..] == Unindex(tail, 1);
        IndexUnindexOne(tail);
      }
    }
  }

  lemma IndexEraseOwn(v: View, p: nat)
    requires p < |v| && Indexed(v[p])
    ensures var j := |IndexOf(v[..p])|;
            && j < |IndexOf(v)|
            && IndexOf(v[..p] + v[p + 1..]) == IndexOf(v)[..j] + Shift(IndexOf(v)[j + 1..], -1)
  {
    hide IndexOf;
    var head, tail := IndexOf(v[..p]), IndexOf(v[p + 1..]);
    var own, moved := EntryOf(v[p], p), Shift(tail, p + 1);
    assert IndexOf(v) == head + own + moved by { EntryAt(v, p); }
    assert (head + own + moved)[|head| + 1..] == moved;
    assert (head + own + moved)[..|head|] == head;
    IndexConcat(v[..p], v[p + 1..]);
    ShiftShift(tail, p + 1, -1);
  }

  lemma DropAndShift(head: seq<IdxInfo>, tail: seq<IdxInfo>, d: int)
    requires tail != []
    ensures var s := head + Shift(tail, d + 1);
            s[..|head|] + Shift(s[|head| + 1..], -1) == head + Shift(tail[1..], d)
  {
  }

  lemma {:induction false} IndexEraseOther(v: View, p: nat)
    requires p < |v| && !Indexed(v[p])
    ensures var j := |IndexOf(v[..p])|;
            && j <= |IndexOf(v)|
            && IndexOf(v[..p] + Unindex(v[p + 1..], 1)) ==
               if j == |IndexOf(v)| then IndexOf(v) else IndexOf(v)[..j] + Shift(IndexOf(v)[j + 1..], -1)
  {
    hide IndexOf;
    var head, tail := IndexOf(v[..p]), IndexOf(v[p + 1..]);
    assert IndexOf(v) == head + Shift(tail, p + 1) by {
      EntryAt(v, p);
      assert head + [] == head;
    }
    assert IndexOf(v[..p] + Unindex(v[p + 1..], 1)) == head + Shift(if tail == [] then [] else tail[1..], p) by {
      IndexUnindexOne(v[p + 1..]);
      IndexConcat(v[..p], Unindex(v[p + 1..], 1));
    }
    if tail != [] {
      DropAndShift(head, tail, p);
    }
  }

  /** One pass of the erase loop on the index: whatever entry comes first at or
      after the row is dropped and the entries behind it move up. */
  lemma {:induction false} IndexEraseStep(v: View, p: nat)
    requires p < |v|
    ensures var j := |IndexOf(v[..p])|;
            var w := v[..p] + if Indexed(v[p]) then v[p + 1..] else Unindex(v[p + 1..], 1);
            && j <= |IndexOf(v)|
            && IndexOf(w) == if j == |IndexOf(v)| then IndexOf(v)
                             else IndexOf(v)[..j] + Shift(IndexOf(v)[j + 1..], -1)
  {
    if Indexed(v[p]) {
      IndexEraseOwn(v, p);
    } else {
      IndexEraseOther(v, p);
    }
  }
}
