/** The order of the rendered rows: one chronological view, whatever the order of
    insertion. */
module ChatLineOrder {
  import opened ChatLineView

  /** Chronological order: a date line stands right above the messages of its time,
      and messages are ordered by index. */
  predicate Before(a: Row, b: Row) {
    match (a, b)
    case (Date(d, _), Date(e, _)) => d < e
    case (Msg(i, _, _, _), Msg(j, _, _, _)) => i < j
    case (Date(d, _), Msg(_, t, _, _)) => d <= t
    case (Msg(_, t, _, _), Date(d, _)) => t < d
  }

  ghost predicate Sorted(v: View) {
    forall i, j :: 0 <= i < j < |v| ==> Before(v[i], v[j])
  }

  /** Every message is indexed. */
  ghost predicate Covered(v: View) {
    forall i :: 0 <= i < |v| && v[i].Msg? ==> v[i].indexed
  }

  /** Two rows that may be shown together: one row per index and per date, and
      timestamps that do not decrease with the index. */
  predicate Compatible(a: Row, b: Row) {
    && (a != b ==> a.line != b.line)
    && match (a, b)
       case (Date(d, _), Date(e, _)) => d == e ==> a == b
       case (Msg(i, t, _, _), Msg(j, u, _, _)) => (i == j ==> a == b) && (i < j ==> t <= u) && (j < i ==> u <= t)
       case _ => true
  }

  ghost predicate AllCompatible(rows: seq<Row>) {
    forall a, b :: a in rows && b in rows ==> Compatible(a, b)
  }

  /** The timestamps of the shown messages do not decrease with the index. */
  ghost predicate Timely(v: View) {
    forall i, j :: 0 <= i < |v| && 0 <= j < |v| && v[i].Msg? && v[j].Msg? && v[i].idx < v[j].idx ==>
                     v[i].ts <= v[j].ts
  }

  /** No unindexed message hides in front of the row that the search finds. */
  ghost predicate SeekIsExact(v: View, b: Bound) {
    forall i :: 0 <= i < Seek(v, b) ==> !Reaches(b, v[i])
  }

  // ---------- a single insertion ----------

  /** Inserting one row keeps the order exactly when it fits at its place. */
  lemma SortedInsert(v: View, p: nat, r: Row)
    requires Sorted(v) && p <= |v|
    ensures Sorted(InsertAt(v, p, r)) <==>
              (forall i :: 0 <= i < p ==> Before(v[i], r)) && (forall i :: p <= i < |v| ==> Before(r, v[i]))
  {
    var w := InsertAt(v, p, r);
    assert forall i :: 0 <= i < p ==> w[i] == v[i];
    assert forall i :: p < i < |w| ==> w[i] == v[i - 1];
    if Sorted(w) {
      forall i | 0 <= i < p ensures Before(v[i], r) { assert Before(w[i], w[p]); }
      forall i | p <= i < |v| ensures Before(r, v[i]) { assert w[i + 1] == v[i] && Before(w[p], w[i + 1]); }
    }
  }

  /** In a sorted view, a date row above a row that is early enough is early enough. */
  lemma DatesAbove(v: View, q: nat, ts: Time)
    requires Sorted(v) && q <= |v|
    requires q > 0 ==> v[q - 1].ts <= ts
    ensures forall i :: 0 <= i < q && v[i].Date? ==> v[i].ts <= ts
  {
  }

  /** Whatever stands below the insertion point comes after the new message. */
  lemma MsgFitsAbove(v: View, idx: Idx, ts: Time, line: Line, i: nat)
    requires Sorted(v) && !HasIdx(v, idx) && Timely(v + [Msg(idx, ts, line, true)])
    requires MsgPos(v, idx, ts) <= i < |v|
    ensures Before(Msg(idx, ts, line, true), v[i])
  {
    var s := Seek(v, FromIdx(idx));
    if s <= i {
      var all := v + [Msg(idx, ts, line, true)];
      assert all[s] == v[s] && all[|v|] == Msg(idx, ts, line, true);
      assert idx < v[s].idx;
      assert s < i ==> Before(v[s], v[i]);
    }
  }

  /** Whatever stands above the insertion point comes before the new message, if no
      unindexed message was passed over. */
  lemma MsgFitsBelow(v: View, idx: Idx, ts: Time, line: Line, i: nat)
    requires Sorted(v) && Timely(v + [Msg(idx, ts, line, true)])
    requires SeekIsExact(v, FromIdx(idx))
    requires i < MsgPos(v, idx, ts)
    ensures Before(v[i], Msg(idx, ts, line, true))
  {
    var p := MsgPos(v, idx, ts);
    assert !Reaches(FromIdx(idx), v[i]);
    if v[p - 1].Msg? {
      var all := v + [Msg(idx, ts, line, true)];
      assert all[p - 1] == v[p - 1] && all[|v|] == Msg(idx, ts, line, true);
      assert !Reaches(FromIdx(idx), v[p - 1]);
    }
    DatesAbove(v, p, ts);
  }

  /** A message above the sought row stays above the insertion point. */
  lemma MessagesAbovePos(v: View, b: Bound, ts: Time, i: nat)
    requires i < Seek(v, b) && v[i].Msg?
    ensures i < AdjustBack(v, Seek(v, b), ts)
  {
  }

  /** insertChatMessage keeps the chronological order exactly when the first message
      of the view at or past the new index is an indexed one. */
  lemma InsertMsgKeepsOrder(v: View, idx: Idx, ts: Time, line: Line)
    requires Sorted(v) && !HasIdx(v, idx)
    requires Timely(v + [Msg(idx, ts, line, true)])
    ensures Sorted(InsertMsg(v, idx, ts, line)) <==> SeekIsExact(v, FromIdx(idx))
  {
    hide Sorted, Timely, HasIdx;
    var r := Msg(idx, ts, line, true);
    var p := MsgPos(v, idx, ts);
    SortedInsert(v, p, r);
    forall i | p <= i < |v|
      ensures Before(r, v[i])
    {
      MsgFitsAbove(v, idx, ts, line, i);
    }
    if SeekIsExact(v, FromIdx(idx)) {
      forall i | 0 <= i < p
        ensures Before(v[i], r)
      {
        MsgFitsBelow(v, idx, ts, line, i);
      }
    } else {
      var i :| 0 <= i < Seek(v, FromIdx(idx)) && Reaches(FromIdx(idx), v[i]);
      MessagesAbovePos(v, FromIdx(idx), ts, i);
      assert !Before(v[i], r);
    }
  }

  lemma DateFitsAbove(v: View, ts: Time, line: Line, i: nat)
    requires Sorted(v) && Timely(v)
    requires DatePos(v, ts) <= i < |v|
    ensures Before(Date(ts, line), v[i])
  {
  }

  lemma DateFitsBelow(v: View, ts: Time, line: Line, i: nat)
    requires Sorted(v) && !HasDate(v, ts) && SeekIsExact(v, FromTime(ts))
    requires i < DatePos(v, ts)
    ensures Before(v[i], Date(ts, line))
  {
  }

  /** insertDateLine keeps the chronological order exactly when the first message of
      the view at or past the date is an indexed one. */
  lemma InsertDateKeepsOrder(v: View, ts: Time, line: Line)
    requires Sorted(v) && !HasDate(v, ts) && Timely(v)
    ensures Sorted(InsertDate(v, ts, line)) <==> SeekIsExact(v, FromTime(ts))
  {
    hide Sorted, Timely, HasDate;
    var r := Date(ts, line);
    var p := DatePos(v, ts);
    SortedInsert(v, p, r);
    forall i | p <= i < |v|
      ensures Before(r, v[i])
    {
      DateFitsAbove(v, ts, line, i);
    }
    if SeekIsExact(v, FromTime(ts)) {
      forall i | 0 <= i < p
        ensures Before(v[i], r)
      {
        DateFitsBelow(v, ts, line, i);
      }
    } else {
      var i :| 0 <= i < Seek(v, FromTime(ts)) && Reaches(FromTime(ts), v[i]);
      MessagesAbovePos(v, FromTime(ts), ts, i);
      assert !Before(v[i], r);
    }
  }

  lemma CoveredSeekIsExact(v: View, b: Bound)
    requires Covered(v)
    ensures SeekIsExact(v, b)
  {
  }

  // ---------- runs of insertions ----------

  /** What the chat widget does for one row: an index already shown is left alone
      by the storage, and a date already shown is left alone by the caller. */
  ghost function Insert(v: View, r: Row): View {
    match r
    case Msg(idx, ts, line, _) => InsertMsg(v, idx, ts, line)
    case Date(ts, line) => if HasDate(v, ts) then v else InsertDate(v, ts, line)
  }

  ghost function Build(rows: seq<Row>): View {
    if rows == [] then [] else Insert(Build(rows[..|rows| - 1]), rows[|rows| - 1])
  }

  ghost predicate SameRows(a: seq<Row>, b: seq<Row>) {
    forall r :: r in a <==> r in b
  }

  lemma InAt(v: View, p: nat, r: Row)
    requires p <= |v|
    ensures forall x :: x in InsertAt(v, p, r) <==> x in v || x == r
  {
  }

  lemma CompatibleIsTimely(v: View)
    requires AllCompatible(v)
    ensures Timely(v)
  {
    forall i, j | 0 <= i < |v| && 0 <= j < |v| && v[i].Msg? && v[j].Msg? && v[i].idx < v[j].idx
      ensures v[i].ts <= v[j].ts
    {
      assert Compatible(v[i], v[j]);
    }
  }

  lemma CoveredInsert(v: View, p: nat, r: Row)
    requires Covered(v) && p <= |v| && (r.Msg? ==> r.indexed)
    ensures Covered(InsertAt(v, p, r))
  {
  }

  /** A compatible message is inserted in its place, or is there already. */
  lemma InsertMsgKeepsAll(v: View, r: Row)
    requires Sorted(v) && Covered(v) && AllCompatible(v + [r]) && Indexed(r)
    ensures Sorted(Insert(v, r)) && Covered(Insert(v, r))
    ensures forall x :: x in Insert(v, r) <==> x in v || x == r
  {
    var all := v + [r];
    if HasIdx(v, r.idx) {
      var i :| 0 <= i < |v| && Indexed(v[i]) && v[i].idx == r.idx;
      assert v[i] in all && r in all && Compatible(v[i], r);
    } else {
      CoveredSeekIsExact(v, FromIdx(r.idx));
      CompatibleIsTimely(all);
      InsertMsgKeepsOrder(v, r.idx, r.ts, r.line);
      InAt(v, MsgPos(v, r.idx, r.ts), r);
      CoveredInsert(v, MsgPos(v, r.idx, r.ts), r);
    }
  }

  lemma InsertDateKeepsAll(v: View, r: Row)
    requires Sorted(v) && Covered(v) && AllCompatible(v + [r]) && r.Date?
    ensures Sorted(Insert(v, r)) && Covered(Insert(v, r))
    ensures forall x :: x in Insert(v, r) <==> x in v || x == r
  {
    var all := v + [r];
    if HasDate(v, r.ts) {
      var i :| 0 <= i < |v| && v[i].Date? && v[i].ts == r.ts;
      assert v[i] in all && r in all && Compatible(v[i], r);
    } else {
      CoveredSeekIsExact(v, FromTime(r.ts));
      assert AllCompatible(v) by {
        assert forall x :: x in v ==> x in all;
      }
      CompatibleIsTimely(v);
      InsertDateKeepsOrder(v, r.ts, r.line);
      InAt(v, DatePos(v, r.ts), r);
      CoveredInsert(v, DatePos(v, r.ts), r);
    }
  }

  lemma InsertKeepsAll(v: View, r: Row)
    requires Sorted(v) && Covered(v) && AllCompatible(v + [r])
    requires r.Msg? ==> r.indexed
    ensures Sorted(Insert(v, r)) && Covered(Insert(v, r))
    ensures forall x :: x in Insert(v, r) <==> x in v || x == r
  {
    if r.Msg? {
      InsertMsgKeepsAll(v, r);
    } else {
      InsertDateKeepsAll(v, r);
    }
  }

  ghost predicate Insertable(rows: seq<Row>) {
    && AllCompatible(rows)
    && forall r :: r in rows && r.Msg? ==> r.indexed
  }

  lemma {:induction false} BuildStep(rows: seq<Row>)
    requires rows != [] && Insertable(rows)
    requires var v := Build(rows[..|rows| - 1]);
             Sorted(v) && Covered(v) && SameRows(v, rows[..|rows| - 1])
    ensures Sorted(Build(rows)) && Covered(Build(rows)) && SameRows(Build(rows), rows)
  {
    hide Sorted, Covered, Insert, Compatible;
    var n := |rows| - 1;
    var v := Build(rows[..n]);
    assert rows == rows[..n] + [rows[n]];
    assert forall x :: x in v + [rows[n]] ==> x in rows;
    InsertKeepsAll(v, rows[n]);
  }

  /** Any run of insertions ends in a sorted, fully indexed view of exactly the rows
      that were inserted. */
  lemma {:induction false} BuildSorted(rows: seq<Row>)
    requires Insertable(rows)
    ensures Sorted(Build(rows)) && Covered(Build(rows)) && SameRows(Build(rows), rows)
    decreases |rows|
  {
    if rows != [] {
      assert forall x :: x in rows[..|rows| - 1] ==> x in rows;
      BuildSorted(rows[..|rows| - 1]);
      BuildStep(rows);
    }
  }

  lemma BeforeTheLast(u: View, r: Row)
    requires Sorted(u) && r in u
    ensures r == u[|u| - 1] || Before(r, u[|u| - 1])
  {
  }

  lemma InitOfSorted(u: View)
    requires Sorted(u) && u != []
    ensures Sorted(u[..|u| - 1])
    ensures forall r :: r in u[..|u| - 1] <==> r in u && r != u[|u| - 1]
  {
  }

  /** A set of rows has only one chronological order. */
  lemma {:induction false} SortedIsUnique(u: View, v: View)
    requires Sorted(u) && Sorted(v) && SameRows(u, v)
    ensures u == v
    decreases |u|
  {
    if u != [] { assert u[0] in v; }
    if v != [] { assert v[0] in u; }
    if u != [] {
      var m, n := |u| - 1, |v| - 1;
      BeforeTheLast(u, v[n]);
      BeforeTheLast(v, u[m]);
      assert u[m] == v[n];
      InitOfSorted(u);
      InitOfSorted(v);
      forall r
        ensures r in u[..m] <==> r in v[..n]
      {
        assert r in u <==> r in v;
      }
      SortedIsUnique(u[..m], v[..n]);
      assert u == u[..m] + [u[m]] && v == v[..n] + [v[n]];
    }
  }

  /** The final view does not depend on the order of the insertions, nor on
      repetitions. */
  lemma HistoryIndependence(one: seq<Row>, other: seq<Row>)
    requires Insertable(one) && SameRows(one, other)
    ensures Build(one) == Build(other)
  {
    BuildSorted(one);
    assert Insertable(other);
    BuildSorted(other);
    assert SameRows(Build(one), Build(other));
    SortedIsUnique(Build(one), Build(other));
  }

  /** In a sorted view a message stands above a date line exactly when it is earlier. */
  lemma DayBoundary(v: View, i: nat, j: nat)
    requires Sorted(v) && i < |v| && j < |v| && v[i].Msg? && v[j].Date?
    ensures i < j <==> v[i].ts < v[j].ts
  {
    if i < j {
      assert Before(v[i], v[j]);
    } else {
      assert Before(v[j], v[i]);
    }
  }

  // ---------- messages with their date lines ----------

  /** No two adjacent date lines and none at the end. */
  ghost predicate Tidy(v: View) {
    forall i :: 0 <= i < |v| && v[i].Date? ==> i + 1 < |v| && v[i + 1].Msg?
  }

  datatype Message = Message(idx: Idx, ts: Time, line: Line)

  /** What a start-of-day function does. */
  ghost predicate StartOfDay(day: Time -> Time) {
    && (forall t :: day(t) <= t && day(day(t)) == day(t))
    && (forall t, u :: t <= u ==> day(t) <= day(u))
  }

  /** A time before the next day's start, told by the days alone. */
  lemma DayEnds(day: Time -> Time, t: Time, later: Time)
    requires StartOfDay(day) && day(t) < day(later)
    ensures t < day(later)
  {
    assert day(day(later)) == day(later);
  }

  lemma DatesInOrder(v: View, i: nat, j: nat)
    requires Sorted(v) && i < j < |v| && v[i].Date? && v[j].Date?
    ensures v[i].ts < v[j].ts
  {
  }

  /** The row after a date line is a message if some message belongs to that day. */
  lemma DayNotEmpty(v: View, i: nat, j: nat, day: Time -> Time, later: Time)
    requires Sorted(v) && i < |v| && j < |v| && StartOfDay(day)
    requires v[i].Date? && v[j].Msg? && day(v[j].ts) == v[i].ts
    requires i + 1 < |v| && v[i + 1].Date? ==> v[i + 1].ts == day(later)
    ensures i + 1 < |v| && v[i + 1].Msg?
  {
    assert i < j by { DayBoundary(v, j, i); }
    if v[i + 1].Date? {
      DatesInOrder(v, i, i + 1);
      DayEnds(day, v[j].ts, later);
    }
  }
}
