/** Removing a range of messages from the view, as the chat widget does when its window
    slides: it erases line after line, starting at the first message of the range, until
    it stands at the line that the index gives for the end of the range. */
module ChatLineRemoval {
  import opened ChatLineView
  import opened ChatLineOrder
  import opened ChatLineErase
  import opened ChatLineStorage

  /** The position of the loop is never beyond the line it is heading for. */
  ghost predicate OnTheWay(v: View, it: nat, end: Idx) {
    it <= |v| && forall i :: 0 <= i < it && Indexed(v[i]) ==> v[i].idx < end
  }

  lemma OnTheWayStays(v: View, it: nat, end: Idx)
    requires OnTheWay(v, it, end) && it < |v|
    ensures OnTheWay(EraseAt(v, it), it - Cascade(v, it), end)
    ensures |EraseAt(v, it)| < |v|
  {
  }

  lemma NotBeyond(v: View, it: nat, end: Idx)
    requires OnTheWay(v, it, end)
    ensures it <= Seek(v, FromIdx(end))
  {
  }

  /** The view after the removal loop. */
  ghost function RemoveFrom(v: View, it: nat, end: Idx): View
    requires OnTheWay(v, it, end)
    decreases |v|
  {
    NotBeyond(v, it, end);
    if it == Seek(v, FromIdx(end)) then v
    else
      OnTheWayStays(v, it, end);
      RemoveFrom(EraseAt(v, it), it - Cascade(v, it), end)
  }

  /** The range does not begin below the line that ends it. */
  predicate IsRange(v: View, begin: Idx, end: Idx) {
    Seek(v, FromIdx(begin)) <= Seek(v, FromIdx(end))
  }

  lemma SeekGrows(v: View, begin: Idx, end: Idx)
    requires begin <= end
    ensures IsRange(v, begin, end)
  {
  }

  lemma StartsOnTheWay(v: View, begin: Idx, end: Idx)
    requires IsRange(v, begin, end)
    ensures OnTheWay(v, Seek(v, FromIdx(begin)), end)
  {
  }

  /** The loop goes on to the end of the lines without ever standing at the line that
      ends the range, and then past them. */
  ghost predicate RunsOff(v: View, it: nat, end: Idx)
    requires it <= |v|
    decreases |v|
  {
    it != Seek(v, FromIdx(end)) && (it < |v| ==> RunsOff(EraseAt(v, it), it - Cascade(v, it), end))
  }

  lemma SeekStays(v: View, it: nat, end: Idx)
    requires it < |v| && Seek(v, FromIdx(end)) < it
    ensures Seek(EraseAt(v, it), FromIdx(end)) < it - Cascade(v, it)
  {
    var e, w := Seek(v, FromIdx(end)), EraseAt(v, it);
    assert Indexed(v[e]) && w[e] == v[e];
  }

  lemma EraseShortens(v: View, it: nat)
    requires it < |v|
    ensures it - Cascade(v, it) <= |EraseAt(v, it)| < |v|
  {
  }

  lemma {:induction false} BelowRunsOff(v: View, it: nat, end: Idx)
    requires it <= |v| && Seek(v, FromIdx(end)) < it
    ensures RunsOff(v, it, end)
    decreases |v|
  {
    hide Seek, EraseAt;
    if it < |v| {
      SeekStays(v, it, end);
      EraseShortens(v, it);
      BelowRunsOff(EraseAt(v, it), it - Cascade(v, it), end);
    }
  }

  lemma {:induction false} OnTheWayStops(v: View, it: nat, end: Idx)
    requires OnTheWay(v, it, end)
    ensures !RunsOff(v, it, end)
    decreases |v|
  {
    hide Seek, EraseAt, OnTheWay;
    NotBeyond(v, it, end);
    if it < |v| {
      OnTheWayStays(v, it, end);
      OnTheWayStops(EraseAt(v, it), it - Cascade(v, it), end);
    }
  }

  /** The loop has a defined end exactly when the range does not begin below it. */
  lemma EndsIffRange(v: View, begin: Idx, end: Idx)
    ensures !RunsOff(v, Seek(v, FromIdx(begin)), end) <==> IsRange(v, begin, end)
  {
    hide RunsOff, OnTheWay;
    if IsRange(v, begin, end) {
      StartsOnTheWay(v, begin, end);
      OnTheWayStops(v, Seek(v, FromIdx(begin)), end);
    } else {
      BelowRunsOff(v, Seek(v, FromIdx(begin)), end);
    }
  }

  ghost function RemoveRange(v: View, begin: Idx, end: Idx): View
    requires IsRange(v, begin, end)
  {
    StartsOnTheWay(v, begin, end);
    RemoveFrom(v, Seek(v, FromIdx(begin)), end)
  }

  function Clamp(x: Idx, low: Idx, high: Idx): Idx {
    if x < low then low else if high < x then high else x
  }

  lemma FirstBelowLast(v: View)
    requires IdxIncreasing(v) && IndexOf(v) != []
    ensures IndexOf(v)[0].idx <= IndexOf(v)[|IndexOf(v)| - 1].idx
  {
    if |IndexOf(v)| > 1 {
      IndexSorted(v, 0, |IndexOf(v)| - 1);
    }
  }

  /** The range, clamped to the indexes that are shown. */
  function ClampedBegin(v: View, begin: Idx): Idx
    requires IndexOf(v) != []
  {
    Clamp(begin, IndexOf(v)[0].idx, IndexOf(v)[|IndexOf(v)| - 1].idx)
  }

  function ClampedEnd(v: View, end: Idx): Idx
    requires IndexOf(v) != []
  {
    Clamp(end, IndexOf(v)[0].idx, IndexOf(v)[|IndexOf(v)| - 1].idx + 1)
  }

  predicate IsClampedRange(v: View, begin: Idx, end: Idx) {
    IndexOf(v) != [] ==> IsRange(v, ClampedBegin(v, begin), ClampedEnd(v, end))
  }

  lemma ClampKeepsRange(v: View, begin: Idx, end: Idx)
    requires IdxIncreasing(v) && begin <= end
    ensures IsClampedRange(v, begin, end)
  {
    hide IndexOf;
    if IndexOf(v) != [] {
      FirstBelowLast(v);
      SeekGrows(v, ClampedBegin(v, begin), ClampedEnd(v, end));
    }
  }

  ghost function RemoveClamped(v: View, begin: Idx, end: Idx): View
    requires IsClampedRange(v, begin, end)
  {
    if IndexOf(v) == [] then v
    else RemoveRange(v, ClampedBegin(v, begin), ClampedEnd(v, end))
  }

  lemma WellFormedView(storage: Storage)
    requires storage.Valid()
    ensures WellFormed(storage.view) && storage.idxInfoMap == IndexOf(storage.view)
  {
  }

  method RemoveLoop(storage: Storage, begin: Idx, end: Idx)
    requires storage.Valid() && IsRange(storage.view, begin, end)
    modifies storage
    ensures storage.Valid()
    ensures storage.view == RemoveRange(old(storage.view), begin, end)
  {
    hide EraseAt, Cascade, Seek, Represents;
    StartsOnTheWay(storage.view, begin, end);
    ghost var v := storage.view;
    var it := storage.FindIdx(begin);
    var stop := storage.FindIdx(end);
    while it != stop
      invariant storage.Valid() && stop == Seek(storage.view, FromIdx(end))
      invariant OnTheWay(storage.view, it, end)
      invariant RemoveFrom(storage.view, it, end) == RemoveRange(v, begin, end)
      decreases |storage.view|
    {
      NotBeyond(storage.view, it, end);
      OnTheWayStays(storage.view, it, end);
      it := storage.Erase(it);
      stop := storage.FindIdx(end);
    }
  }

  method RemoveLines(storage: Storage, begin: Idx, end: Idx)
    requires storage.Valid() && IsClampedRange(storage.view, begin, end)
    modifies storage
    ensures storage.Valid()
    ensures storage.view == RemoveClamped(old(storage.view), begin, end)
  {
    hide RemoveRange, IndexOf, Represents, WellFormed;
    WellFormedView(storage);
    var any := storage.HasIndexedMessage();
    if !any {
      return;
    }
    var first := storage.FirstIdx();
    var last := storage.LastIdx();
    RemoveLoop(storage, Clamp(begin, first, last), Clamp(end, first, last + 1));
  }

  // ---------- the closed form ----------

  /** Some row of the range has no index entry: a date line, or a message that lost it. */
  ghost predicate HasUnindexed(v: View, b: nat, e: nat)
    requires b <= e <= |v|
  {
    exists i :: b <= i < e && !Indexed(v[i])
  }

  lemma {:induction false} UnindexSum(v: View, m: nat, n: nat)
    ensures Unindex(Unindex(v, m), n) == Unindex(v, m + n)
    decreases n
  {
    hide Unindex;
    if n == 0 {
      UnindexNothing(Unindex(v, m), 0);
    } else {
      UnindexSum(v, m, n - 1);
      UnindexStep(Unindex(v, m), n - 1);
      UnindexStep(v, m + n - 1);
    }
  }

  /** What is left while the loop runs: everything above the gap, and everything below
      it, where the first d indexed messages have lost their entries. */
  function Gap(v: View, a: nat, b: nat, d: nat): (w: View)
    requires a <= b <= |v|
    ensures |w| == a + |v| - b
    ensures forall i :: 0 <= i < a ==> w[i] == v[i]
  {
    v[..a] + Unindex(v[b..], d)
  }

  lemma GapRow(v: View, a: nat, b: nat, d: nat)
    requires a <= b < |v|
    ensures var r := Gap(v, a, b, d)[a];
            && r.Date? == v[b].Date? && r.ts == v[b].ts
            && (Indexed(r) <==> Indexed(v[b]) && d == 0)
            && (r.Msg? ==> r.idx == v[b].idx)
    ensures b + 1 < |v| ==> Gap(v, a, b, d)[a + 1].Date? == v[b + 1].Date?
  {
  }

  /** The date rows that go with the row below the gap. */
  function GapCascade(v: View, a: nat, b: nat): (k: nat)
    requires a <= b < |v|
    ensures k <= a
  {
    if b + 1 == |v| || v[b + 1].Date? then DateRun(v, a) else 0
  }

  lemma GapCascadeIs(v: View, a: nat, b: nat, d: nat)
    requires a <= b < |v|
    ensures Cascade(Gap(v, a, b, d), a) == GapCascade(v, a, b)
  {
  }

  lemma GapTail(v: View, a: nat, b: nat, d: nat)
    requires a <= b < |v|
    ensures Gap(v, a, b, d)[a + 1..] == Unindex(v[b + 1..], if Indexed(v[b]) && d > 0 then d - 1 else d)
  {
  }

  /** One round of the loop: the gap grows by a row below, and by the cascade above; the
      number of lost entries grows by the rows without an entry that went. */
  lemma GapStep(v: View, a: nat, b: nat, d: nat)
    requires a <= b < |v|
    ensures var k := GapCascade(v, a, b);
            && Cascade(Gap(v, a, b, d), a) == k
            && EraseAt(Gap(v, a, b, d), a) == Gap(v, a - k, b + 1, d + k + if Indexed(v[b]) then 0 else 1)
  {
    hide GapCascade, Cascade, DateRun, Unindex;
    var w := Gap(v, a, b, d);
    GapRow(v, a, b, d);
    GapCascadeIs(v, a, b, d);
    var k := Cascade(w, a);
    var lost := if Indexed(v[b]) && d > 0 then d - 1 else d;
    GapTail(v, a, b, d);
    UnindexSum(v[b + 1..], lost, Overdrop(w, a));
    assert w[..a - k] == v[..a - k];
  }

  /** While the loop is below the range's end and loses nothing, or has lost an entry,
      it does not stop at a message row. */
  lemma KeepsGoing(v: View, a: nat, b: nat, d: nat, end: Idx)
    requires a <= b < |v| && IdxIncreasing(v)
    requires d > 0 || b < Seek(v, FromIdx(end))
    ensures Seek(Gap(v, a, b, d), FromIdx(end)) != a
  {
  }

  /** So does the whole loop, as long as it does not stop here. */
  lemma {:induction false} GapNext(v: View, a: nat, b: nat, d: nat, end: Idx)
    requires a <= b < |v| && IdxIncreasing(v)
    requires OnTheWay(Gap(v, a, b, d), a, end)
    requires d > 0 || b < Seek(v, FromIdx(end))
    ensures var k := GapCascade(v, a, b);
            var next := Gap(v, a - k, b + 1, d + k + if Indexed(v[b]) then 0 else 1);
            && OnTheWay(next, a - k, end)
            && RemoveFrom(Gap(v, a, b, d), a, end) == RemoveFrom(next, a - k, end)
  {
    hide GapCascade, Cascade, DateRun, Unindex, Gap, Seek, EraseAt, OnTheWay;
    KeepsGoing(v, a, b, d, end);
    GapStep(v, a, b, d);
    OnTheWayStays(Gap(v, a, b, d), a, end);
  }

  /** Above a maximal run of date lines there is no further run. */
  lemma RunBeforeRun(v: View, a: nat)
    requires a <= |v|
    ensures DateRun(v, a) <= a && DateRun(v, a - DateRun(v, a)) == 0
  {
  }

  lemma GapAtEnd(v: View, a: nat, d: nat, end: Idx)
    requires a <= |v| && OnTheWay(Gap(v, a, |v|, d), a, end)
    ensures RemoveFrom(Gap(v, a, |v|, d), a, end) == v[..a]
  {
  }

  /** The loop runs to the end of the view once an entry is lost, or a row without an
      entry will be met, or nothing follows the range. */
  lemma {:induction false} RemovesRest(v: View, a: nat, b: nat, d: nat, end: Idx)
    requires a <= b < |v| && IdxIncreasing(v)
    requires OnTheWay(Gap(v, a, b, d), a, end)
    requires var e := Seek(v, FromIdx(end)); d > 0 || e == |v| || (b <= e && HasUnindexed(v, b, e))
    ensures RemoveFrom(Gap(v, a, b, d), a, end) == v[..a - DateRun(v, a)]
    decreases |v| - b
  {
    hide Seek, Gap, DateRun, RemoveFrom, OnTheWay, IdxIncreasing;
    GapNext(v, a, b, d, end);
    var k := GapCascade(v, a, b);
    var d2 := d + k + if Indexed(v[b]) then 0 else 1;
    RunBeforeRun(v, a);
    if b + 1 == |v| {
      GapAtEnd(v, a - k, d2, end);
    } else {
      RemovesRest(v, a - k, b + 1, d2, end);
    }
  }

  lemma StopsHere(v: View, a: nat, end: Idx)
    requires var e := Seek(v, FromIdx(end)); a <= e < |v|
    requires OnTheWay(Gap(v, a, Seek(v, FromIdx(end)), 0), a, end)
    ensures var e := Seek(v, FromIdx(end)); RemoveFrom(Gap(v, a, e, 0), a, end) == v[..a] + v[e..]
  {
  }

  /** Without such a row on the way, the loop removes exactly the rows up to the first
      message at or past the end. */
  lemma {:induction false} RemovesExactly(v: View, a: nat, b: nat, end: Idx)
    requires a <= b <= |v| && IdxIncreasing(v)
    requires OnTheWay(Gap(v, a, b, 0), a, end)
    requires var e := Seek(v, FromIdx(end)); b <= e < |v| && !HasUnindexed(v, b, e)
    ensures RemoveFrom(Gap(v, a, b, 0), a, end) == v[..a] + v[Seek(v, FromIdx(end))..]
    decreases |v| - b
  {
    hide Seek, Gap, RemoveFrom, OnTheWay, IdxIncreasing, DateRun;
    var e := Seek(v, FromIdx(end));
    if b == e {
      StopsHere(v, a, end);
    } else {
      assert v[b].Msg? && v[b + 1].Msg?;
      GapNext(v, a, b, 0, end);
      RemovesExactly(v, a, b + 1, end);
    }
  }

  lemma GapStart(v: View, s: nat)
    requires s <= |v|
    ensures Gap(v, s, s, 0) == v
  {
  }

  /** Removing a range.  If an indexed message at or past the end follows and every row
      of the range has its entry, the range goes and nothing else; otherwise everything
      from the start of the range to the end of the view goes, with the date lines just
      above. */
  lemma {:induction false} RemoveRangeClosedForm(v: View, begin: Idx, end: Idx)
    requires IdxIncreasing(v) && IsRange(v, begin, end)
    ensures var s, e := Seek(v, FromIdx(begin)), Seek(v, FromIdx(end));
            && s <= e
            && RemoveRange(v, begin, end) ==
               if s == e then v
               else if e < |v| && !HasUnindexed(v, s, e) then v[..s] + v[e..]
               else v[..s - DateRun(v, s)]
  {
    var s, e := Seek(v, FromIdx(begin)), Seek(v, FromIdx(end));
    StartsOnTheWay(v, begin, end);
    NotBeyond(v, s, end);
    GapStart(v, s);
    if s < e {
      if e < |v| && !HasUnindexed(v, s, e) {
        RemovesExactly(v, s, s, end);
      } else {
        RemovesRest(v, s, s, 0, end);
      }
    }
  }

  lemma NotInPrefix(v: View, n: nat, e: nat)
    requires DistinctLines(v) && n <= e < |v|
    ensures v[e] !in v[..n]
  {
  }

  lemma TailIsIn(v: View, s: nat, e: nat)
    requires s <= e <= |v|
    ensures forall i :: e <= i < |v| ==> v[i] in v[..s] + v[e..]
  {
  }

  /** The rows behind the range survive exactly when there are none, or no date line (and
      no message that lost its entry) lies inside the range. */
  lemma {:induction false} KeepsWhatFollows(v: View, begin: Idx, end: Idx)
    requires WellFormed(v)
    requires Seek(v, FromIdx(begin)) < Seek(v, FromIdx(end))
    ensures var s, e := Seek(v, FromIdx(begin)), Seek(v, FromIdx(end));
            (forall i :: e <= i < |v| ==> v[i] in RemoveRange(v, begin, end)) <==> e == |v| || !HasUnindexed(v, s, e)
  {
    hide RemoveRange, Seek, DateRun;
    var s, e := Seek(v, FromIdx(begin)), Seek(v, FromIdx(end));
    RemoveRangeClosedForm(v, begin, end);
    if e < |v| {
      if HasUnindexed(v, s, e) {
        NotInPrefix(v, s - DateRun(v, s), e);
      } else {
        TailIsIn(v, s, e);
      }
    }
  }

  /** Removing the only message of the first day from a reachable view of two days empties
      the whole view. */
  lemma RemovalEmptiesView()
    ensures Covered(TwoDays()) && WellFormed(TwoDays())
    ensures RemoveRange(TwoDays(), 1, 2) == []
  {
    hide RemoveRange;
    var v := TwoDays();
    assert Seek(v, FromIdx(1)) == 1 && Seek(v, FromIdx(2)) == 3;
    assert !Indexed(v[2]);
    RemoveRangeClosedForm(v, 1, 2);
    assert DateRun(v, 0) == 0 && DateRun(v, 1) == 1;
    assert v[..0] == [];
  }
}
