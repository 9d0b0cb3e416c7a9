/** What the removal of a range of messages leaves, told by the two indexes of the range
    alone. */
module ChatLineRange {
  import opened ChatLineView
  import opened ChatLineOrder
  import opened ChatLineStorage
  import opened ChatLineRemoval

  // ---------- the clamped range ----------

  /** Some indexed message is at or past the index. */
  ghost predicate Reached(v: View, idx: Idx) {
    exists i :: 0 <= i < |v| && Indexed(v[i]) && idx <= v[i].idx
  }

  /** The first row that reaches a bound is known by what stands before it. */
  lemma SeekIs(v: View, b: Bound, p: nat)
    requires p <= |v| && (p < |v| ==> Indexed(v[p]) && Reaches(b, v[p]))
    requires forall q :: 0 <= q < p && Indexed(v[q]) ==> !Reaches(b, v[q])
    ensures Seek(v, b) == p
  {
  }

  lemma SeekByReach(v: View, one: Idx, other: Idx)
    requires forall i :: 0 <= i < |v| && Indexed(v[i]) ==> (one <= v[i].idx <==> other <= v[i].idx)
    ensures Seek(v, FromIdx(one)) == Seek(v, FromIdx(other))
  {
    SeekIs(v, FromIdx(one), Seek(v, FromIdx(other)));
  }

  lemma SomeIndexed(v: View)
    ensures IndexOf(v) != [] <==> exists i :: 0 <= i < |v| && Indexed(v[i])
  {
    if IndexOf(v) != [] {
      EntrySound(v, 0);
    } else if i :| 0 <= i < |v| && Indexed(v[i]) {
      EntryAt(v, i);
    }
  }

  /** The end of the range finds the same line with or without the clamp, and so does its
      begin, unless it lies past everything shown. */
  lemma ClampedBounds(v: View, begin: Idx, end: Idx)
    requires IdxIncreasing(v) && begin <= end && IndexOf(v) != []
    ensures Seek(v, FromIdx(ClampedEnd(v, end))) == Seek(v, FromIdx(end))
    ensures Reached(v, begin) ==> Seek(v, FromIdx(ClampedBegin(v, begin))) == Seek(v, FromIdx(begin))
    ensures !Reached(v, begin) ==>
              var s := Seek(v, FromIdx(ClampedBegin(v, begin)));
              s < |v| && Indexed(v[s]) && forall i :: 0 <= i < |v| && Indexed(v[i]) ==> v[i].idx <= v[s].idx
  {
    hide IndexOf, Seek;
    FirstEntryLeast(v);
    LastEntryGreatest(v);
    var first, last := IndexOf(v)[0].idx, IndexOf(v)[|IndexOf(v)| - 1].idx;
    SeekByReach(v, ClampedEnd(v, end), end);
    if Reached(v, begin) {
      SeekByReach(v, ClampedBegin(v, begin), begin);
    } else {
      var i :| 0 <= i < |v| && Indexed(v[i]) && v[i].idx == last;
      SeekIs(v, FromIdx(last), i);
    }
  }

  // ---------- before, inside and behind the range ----------

  /** What is left is a part of the view: the rows above the range, and either none or all
      of those from its end on. */
  lemma RemovedParts(v: View, begin: Idx, end: Idx)
    requires IdxIncreasing(v) && begin <= end && IndexOf(v) != []
    ensures IsClampedRange(v, begin, end)
    ensures var s, e := Seek(v, FromIdx(ClampedBegin(v, begin))), Seek(v, FromIdx(end));
            && s <= e
            && RemoveClamped(v, begin, end) ==
               if s == e then v
               else if e < |v| && !HasUnindexed(v, s, e) then v[..s] + v[e..]
               else v[..s - DateRun(v, s)]
  {
    hide Seek, RemoveRange, IndexOf, DateRun;
    ClampKeepsRange(v, begin, end);
    ClampedBounds(v, begin, end);
    RemoveRangeClosedForm(v, ClampedBegin(v, begin), ClampedEnd(v, end));
  }

  lemma NothingToRemove(v: View, begin: Idx, end: Idx)
    requires IndexOf(v) == []
    ensures IsClampedRange(v, begin, end) && RemoveClamped(v, begin, end) == v
  {
  }

  /** The end is at or below every row that has at least its index, and past all others. */
  lemma SeekSplits(v: View, idx: Idx)
    requires IdxIncreasing(v)
    ensures forall i :: 0 <= i < |v| && Indexed(v[i]) ==> (Seek(v, FromIdx(idx)) <= i <==> idx <= v[i].idx)
  {
    var p := Seek(v, FromIdx(idx));
    assert p < |v| ==> Indexed(v[p]) && idx <= v[p].idx;
  }

  lemma MessageAboveRun(v: View, k: nat, s: nat)
    requires k < s <= |v| && v[k].Msg?
    ensures k < s - DateRun(v, s)
  {
  }

  lemma OnlyOnce(v: View, k: nat, n: nat)
    requires IdxIncreasing(v) && n <= k < |v| && Indexed(v[k])
    ensures v[k] !in v[..n]
  {
  }

  /** What is left was there before, with the same marks. */
  lemma NothingNew(v: View, begin: Idx, end: Idx)
    requires IdxIncreasing(v) && begin <= end
    ensures IsClampedRange(v, begin, end)
    ensures forall r :: r in RemoveClamped(v, begin, end) ==> r in v
  {
    hide Seek, RemoveClamped, IsClampedRange, IndexOf, DateRun;
    if IndexOf(v) == [] {
      NothingToRemove(v, begin, end);
    } else {
      RemovedParts(v, begin, end);
    }
  }

  lemma EndsPast(v: View, s: nat, end: Idx)
    requires s < |v| && Indexed(v[s]) && forall i :: 0 <= i < |v| && Indexed(v[i]) ==> v[i].idx < end
    ensures s < Seek(v, FromIdx(end))
  {
  }

  /** Every message before the range stays, with its entry, unless the range begins past
      everything shown: then the last message goes. */
  lemma RowsBefore(v: View, begin: Idx, end: Idx, k: nat)
    requires IdxIncreasing(v) && begin <= end
    requires k < |v| && Indexed(v[k]) && v[k].idx < begin
    ensures IsClampedRange(v, begin, end)
    ensures v[k] in RemoveClamped(v, begin, end) <==>
              exists i :: 0 <= i < |v| && Indexed(v[i]) && (begin <= v[i].idx || v[k].idx < v[i].idx)
  {
    hide Seek, RemoveClamped, IsClampedRange, IndexOf, DateRun, HasUnindexed;
    SomeIndexed(v);
    RemovedParts(v, begin, end);
    ClampedBounds(v, begin, end);
    SeekSplits(v, begin);
    SeekSplits(v, end);
    var s, e := Seek(v, FromIdx(ClampedBegin(v, begin))), Seek(v, FromIdx(end));
    if Reached(v, begin) {
      assert k < s;
      MessageAboveRun(v, k, s);
      assert v[k] == v[..s][k];
    } else {
      assert s < e by { EndsPast(v, s, end); }
      if k < s {
        MessageAboveRun(v, k, s);
      } else {
        OnlyOnce(v, k, s - DateRun(v, s));
      }
    }
  }

  lemma PartRows(v: View, w: View, s: nat, e: nat, i: nat)
    requires s <= e <= |v| && i < |w|
    requires (s == e && w == v) || w == v[..s] + v[e..] || exists n :: 0 <= n <= s && w == v[..n]
    ensures exists k :: 0 <= k < |v| && v[k] == w[i] && (k < s || e <= k)
  {
    if s == e && w == v {
      assert v[i] == w[i];
    } else if w == v[..s] + v[e..] {
      assert w[i] == v[if i < s then i else i - s + e];
    } else {
      assert w[i] == v[i];
    }
  }

  /** No message of the range keeps an entry. */
  lemma RowsInside(v: View, begin: Idx, end: Idx, idx: Idx)
    requires IdxIncreasing(v) && begin <= idx < end
    ensures IsClampedRange(v, begin, end) && !HasIdx(RemoveClamped(v, begin, end), idx)
  {
    hide Seek, RemoveClamped, IsClampedRange, IndexOf, DateRun, HasUnindexed;
    SomeIndexed(v);
    if IndexOf(v) == [] {
      NothingToRemove(v, begin, end);
    } else {
      RemovedParts(v, begin, end);
      ClampedBounds(v, begin, end);
      SeekSplits(v, begin);
      SeekSplits(v, end);
      var w := RemoveClamped(v, begin, end);
      var s, e := Seek(v, FromIdx(ClampedBegin(v, begin))), Seek(v, FromIdx(end));
      forall i | 0 <= i < |w| && Indexed(w[i])
        ensures w[i].idx != idx
      {
        PartRows(v, w, s, e, i);
        var k :| 0 <= k < |v| && v[k] == w[i] && (k < s || e <= k);
      }
    }
  }

  // ---------- a fully indexed view ----------

  /** A date line stands below a message of the range and above every message behind it. */
  ghost predicate DayStartsInside(v: View, begin: Idx, end: Idx) {
    exists i, j :: 0 <= i < j < |v| && v[i].Msg? && begin <= v[i].idx < end && v[j].Date?
                   && forall m :: 0 <= m < j && v[m].Msg? ==> v[m].idx < end
  }

  lemma AtSeek(v: View, idx: Idx)
    ensures var p := Seek(v, FromIdx(idx)); p <= |v| && (p < |v| ==> Indexed(v[p]) && idx <= v[p].idx)
  {
  }

  lemma StartsInside(v: View, begin: Idx, end: Idx, s: nat, e: nat)
    requires Covered(v) && IdxIncreasing(v) && s <= e < |v| && v[e].Msg? && end <= v[e].idx
    requires forall i :: 0 <= i < |v| && v[i].Msg? ==> (s <= i <==> begin <= v[i].idx) && (e <= i <==> end <= v[i].idx)
    requires v[s].Msg?
    ensures DayStartsInside(v, begin, end) <==> s < e && HasUnindexed(v, s, e)
  {
    if DayStartsInside(v, begin, end) {
      var i, j :| 0 <= i < j < |v| && v[i].Msg? && begin <= v[i].idx < end && v[j].Date?
                  && forall m :: 0 <= m < j && v[m].Msg? ==> v[m].idx < end;
      assert j != e && s <= i < j && !(e < j);
      assert !Indexed(v[j]);
    }
    if s < e && HasUnindexed(v, s, e) {
      var j :| s <= j < e && !Indexed(v[j]);
      assert v[j].Date? && s < j;
      assert begin <= v[s].idx < end;
    }
  }

  lemma InsideIsUnindexed(v: View, begin: Idx, end: Idx, k: nat)
    requires Covered(v) && IdxIncreasing(v) && begin <= end && k < |v| && v[k].Msg? && end <= v[k].idx
    ensures var s, e := Seek(v, FromIdx(begin)), Seek(v, FromIdx(end));
            s <= e <= k && (DayStartsInside(v, begin, end) <==> s < e && HasUnindexed(v, s, e))
  {
    hide Seek, DayStartsInside, HasUnindexed, IdxIncreasing;
    SeekSplits(v, begin);
    SeekSplits(v, end);
    SeekGrows(v, begin, end);
    AtSeek(v, begin);
    AtSeek(v, end);
    assert forall i :: 0 <= i < |v| && v[i].Msg? ==> Indexed(v[i]);
    StartsInside(v, begin, end, Seek(v, FromIdx(begin)), Seek(v, FromIdx(end)));
  }

  /** Of a fully indexed view, the messages behind the range stay, all of them, unless a day
      starts inside the range; then they all go. */
  lemma RowsBehind(v: View, begin: Idx, end: Idx, k: nat)
    requires Covered(v) && IdxIncreasing(v) && begin <= end
    requires k < |v| && v[k].Msg? && end <= v[k].idx
    ensures IsClampedRange(v, begin, end)
    ensures v[k] in RemoveClamped(v, begin, end) <==> !DayStartsInside(v, begin, end)
  {
    InsideIsUnindexed(v, begin, end, k);
    hide Seek, RemoveClamped, IsClampedRange, IndexOf, DateRun, HasUnindexed, DayStartsInside;
    assert Indexed(v[k]);
    SomeIndexed(v);
    assert Reached(v, begin);
    RemovedParts(v, begin, end);
    ClampedBounds(v, begin, end);
    var s, e := Seek(v, FromIdx(begin)), Seek(v, FromIdx(end));
    if s < e && HasUnindexed(v, s, e) {
      OnlyOnce(v, k, s - DateRun(v, s));
    } else if s < e {
      TailIsIn(v, s, e);
    }
  }

  lemma IndexAt(v: View, idx: Idx)
    requires Covered(v)
    ensures HasIdx(v, idx) <==> exists r :: r in v && r.Msg? && r.idx == idx
  {
    if r :| r in v && r.Msg? && r.idx == idx {
      var i :| 0 <= i < |v| && v[i] == r;
    }
  }

  lemma PartIsCovered(v: View, w: View)
    requires Covered(v) && forall r :: r in w ==> r in v
    ensures Covered(w)
  {
    forall i | 0 <= i < |w| && w[i].Msg?
      ensures w[i].indexed
    {
      assert w[i] in v;
    }
  }

  /** In a part of the view, an index is shown by its own row. */
  lemma IndexIsRow(v: View, w: View, k: nat)
    requires IdxIncreasing(v) && k < |v| && Indexed(v[k]) && forall r :: r in w ==> r in v
    ensures HasIdx(w, v[k].idx) <==> v[k] in w
  {
    if HasIdx(w, v[k].idx) {
      var i :| 0 <= i < |w| && Indexed(w[i]) && w[i].idx == v[k].idx;
      assert w[i] in v;
      var j :| 0 <= j < |v| && v[j] == w[i];
      assert j == k;
    }
  }

  /** The indexes left of a fully indexed view: those before the range, but for the last one
      when the range begins past everything, and those behind it, unless a day starts
      inside. */
  lemma RemovedIndexes(v: View, begin: Idx, end: Idx, idx: Idx)
    requires Covered(v) && IdxIncreasing(v) && begin <= end
    ensures IsClampedRange(v, begin, end)
    ensures HasIdx(RemoveClamped(v, begin, end), idx) <==>
              && HasIdx(v, idx)
              && if idx < begin then Reached(v, begin) || Reached(v, idx + 1)
                 else end <= idx && !DayStartsInside(v, begin, end)
  {
    hide RemoveClamped, IsClampedRange, DayStartsInside, IdxIncreasing;
    NothingNew(v, begin, end);
    var w := RemoveClamped(v, begin, end);
    PartIsCovered(v, w);
    IndexAt(v, idx);
    IndexAt(w, idx);
    if begin <= idx < end {
      RowsInside(v, begin, end, idx);
    } else if HasIdx(v, idx) {
      var k :| 0 <= k < |v| && Indexed(v[k]) && v[k].idx == idx;
      IndexIsRow(v, w, k);
      if idx < begin {
        RowsBefore(v, begin, end, k);
      } else {
        RowsBehind(v, begin, end, k);
      }
    }
  }

  // ---------- a range past everything shown ----------

  /** One day with two messages. */
  function OneDay(): View {
    [Date(0, 100), Msg(1, 1, 101, true), Msg(2, 2, 201, true)]
  }

  /** Removing the empty range behind the last message removes the last message. */
  lemma LastIsLost()
    ensures Covered(OneDay()) && IdxIncreasing(OneDay()) && IsClampedRange(OneDay(), 3, 3)
    ensures OneDay()[1] in RemoveClamped(OneDay(), 3, 3) && OneDay()[2] !in RemoveClamped(OneDay(), 3, 3)
  {
    hide RemoveClamped, IsClampedRange;
    RowsBefore(OneDay(), 3, 3, 1);
    RowsBefore(OneDay(), 3, 3, 2);
    assert OneDay()[1].idx < OneDay()[2].idx;
  }
}
