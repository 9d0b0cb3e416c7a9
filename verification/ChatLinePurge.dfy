/** The two loops of the chat widget that erase without looking at the index: a hidden
    widget drops its oldest lines, and a cleared one drops everything but the active file
    transfers. */
module ChatLinePurge {
  import opened ChatLineView
  import opened ChatLineOrder
  import opened ChatLineErase
  import opened ChatLineDays
  import opened ChatLineStorage
  import opened ChatLineRemoval

  /** How many rows have no index entry. */
  function Missing(v: View): nat {
    if v == [] then 0 else Missing(v[..|v| - 1]) + if Indexed(v[|v| - 1]) then 0 else 1
  }

  lemma {:induction false} NoneMissing(v: View)
    ensures Missing(v) == 0 <==> forall i :: 0 <= i < |v| ==> Indexed(v[i])
    decreases |v|
  {
    if v != [] {
      NoneMissing(v[..|v| - 1]);
    }
  }

  lemma MissingSnoc(v: View, n: nat)
    requires n < |v|
    ensures Missing(v[..n + 1]) == Missing(v[..n]) + if Indexed(v[n]) then 0 else 1
  {
    assert v[..n + 1][..n] == v[..n];
  }

  // ---------- dropping the oldest lines ----------

  /** The view after the first n rows were erased one by one: each row without an entry
      has taken one of the entries that follow. */
  function DropFirst(v: View, n: nat): View
    requires n <= |v|
  {
    Unindex(v[n..], Missing(v[..n]))
  }

  lemma NoCascadeAtTop(v: View)
    requires v != []
    ensures Cascade(v, 0) == 0
  {
  }

  lemma DropIsGap(v: View, n: nat)
    requires n <= |v|
    ensures DropFirst(v, n) == Gap(v, 0, n, Missing(v[..n]))
  {
    hide Unindex, Missing;
    assert v[..0] == [];
  }

  /** One more row goes. */
  lemma DropNext(v: View, n: nat)
    requires n < |v|
    ensures EraseAt(DropFirst(v, n), 0) == DropFirst(v, n + 1)
  {
    hide Missing, EraseAt, Cascade, Gap, DropFirst;
    DropIsGap(v, n);
    DropIsGap(v, n + 1);
    GapStep(v, 0, n, Missing(v[..n]));
    NoCascadeAtTop(Gap(v, 0, n, Missing(v[..n])));
    MissingSnoc(v, n);
  }

  lemma DropNothing(v: View)
    ensures DropFirst(v, 0) == v
  {
  }

  lemma DropShortens(v: View, n: nat)
    requires n <= |v|
    ensures |DropFirst(v, n)| == |v| - n
  {
  }

  /** Erases from the top while there are more lines than the window may have. */
  method DropOldest(storage: Storage, maxWindowSize: nat)
    requires storage.Valid()
    modifies storage
    ensures storage.Valid()
    ensures var v := old(storage.view);
            storage.view == if |v| <= maxWindowSize then v else DropFirst(v, |v| - maxWindowSize)
  {
    hide EraseAt, Cascade, Represents, DropFirst;
    ghost var v := storage.view;
    ghost var n: nat := 0;
    DropNothing(v);
    var size := storage.Size();
    while size > maxWindowSize
      invariant storage.Valid() && size == |storage.view|
      invariant n <= |v| && size == |v| - n && (n > 0 ==> size >= maxWindowSize)
      invariant storage.view == DropFirst(v, n)
      decreases size
    {
      var it := storage.Erase(0);
      DropNext(v, n);
      DropShortens(v, n + 1);
      n := n + 1;
      size := storage.Size();
    }
  }

  /** The rows left keep their order. */
  lemma DropKeepsOrder(v: View, n: nat)
    requires Sorted(v) && n <= |v|
    ensures Sorted(DropFirst(v, n))
  {
    var w := DropFirst(v, n);
    forall i, j | 0 <= i < j < |w|
      ensures Before(w[i], w[j])
    {
      BeforeAt(v, n + i, n + j);
    }
  }

  lemma CoveredParts(v: View, n: nat)
    requires Covered(v) && n <= |v|
    ensures Covered(v[..n]) && Covered(v[n..])
  {
  }

  /** From a fully indexed view, every message left keeps its entry exactly when no date
      line was dropped or no message is left. */
  lemma DropKeepsCoverage(v: View, n: nat)
    requires Covered(v) && n <= |v|
    ensures Covered(DropFirst(v, n)) <==>
              (forall i :: 0 <= i < n ==> v[i].Msg?) || (forall i :: n <= i < |v| ==> v[i].Date?)
  {
    hide Unindex;
    CoveredParts(v, n);
    UnindexCovered(v[n..], Missing(v[..n]));
    NoneMissing(v[..n]);
    assert forall i :: n <= i < |v| ==> v[i] == v[n..][i - n];
  }

  /** The exact number of entries left: each row dropped without an entry costs a later
      message its own. */
  lemma DropIndexCount(v: View, n: nat)
    requires n <= |v|
    ensures var later, d := |IndexOf(v[n..])|, Missing(v[..n]);
            |IndexOf(DropFirst(v, n))| == if d < later then later - d else 0
  {
    UnindexCount(v[n..], Missing(v[..n]));
  }

  lemma FirstIsDate(v: View, day: Time -> Time)
    requires StartOfDay(day) && DayView(v, day) && v != []
    ensures v[0].Date?
  {
    if v[0].Msg? {
      BelowItsDay(v, day, 0);
    }
  }

  lemma LastIsMessage(v: View, day: Time -> Time)
    requires DayView(v, day) && v != []
    ensures v[|v| - 1].Msg?
  {
    hide Sorted, Timely;
  }

  /** As the widget uses the storage, the first line is a date line: whenever something is
      dropped and something is left, a message that stays loses its entry. */
  lemma DropLosesEntry(v: View, day: Time -> Time, n: nat)
    requires StartOfDay(day) && DayView(v, day) && Covered(v) && 0 < n < |v|
    ensures !Covered(DropFirst(v, n))
  {
    hide Sorted, Timely, Covered;
    FirstIsDate(v, day);
    LastIsMessage(v, day);
    DropKeepsCoverage(v, n);
  }

  // ---------- clearing ----------

  /** A row that stays, when d rows without an entry have been erased whose erasure has
      not yet cost a message its entry. */
  function Marked(r: Row, d: nat): Row {
    if Indexed(r) && d > 0 then r.(indexed := false) else r
  }

  function Owed(r: Row, stays: bool, d: nat): nat {
    if stays then (if Indexed(r) && d > 0 then d - 1 else d)
    else if Indexed(r) then d else d + 1
  }

  /** All rows that stay. */
  function KeptRows(v: View, keep: Line -> bool, d: nat): View {
    if v == [] then []
    else
      var stays := keep(v[0].line);
      (if stays then [Marked(v[0], d)] else []) + KeptRows(v[1..], keep, Owed(v[0], stays, d))
  }

  /** Date lines are not kept. */
  ghost predicate KeepsMessages(v: View, keep: Line -> bool) {
    forall i :: 0 <= i < |v| && v[i].Date? ==> !keep(v[i].line)
  }

  /** The view in the middle of the loop: the rows kept, and the rest, where the next d
      messages have lost their entries. */
  function Midway(kept: View, rest: View, d: nat): View {
    kept + Unindex(rest, d)
  }

  lemma ClearCascade(kept: View, rest: View, d: nat)
    requires rest != [] && forall i :: 0 <= i < |kept| ==> kept[i].Msg?
    ensures Cascade(Midway(kept, rest, d), |kept|) == 0
  {
    var w := Midway(kept, rest, d);
    assert |kept| > 0 ==> w[|kept| - 1] == kept[|kept| - 1];
    assert DateRun(w, |kept|) == 0;
  }

  lemma MidwayRow(kept: View, rest: View, d: nat)
    requires rest != []
    ensures var w := Midway(kept, rest, d);
            && w[|kept|].line == rest[0].line && (Indexed(w[|kept|]) <==> Indexed(rest[0]) && d == 0)
            && w[..|kept|] == kept
            && w[|kept| + 1..] == Unindex(rest[1..], if Indexed(rest[0]) && d > 0 then d - 1 else d)
  {
  }

  lemma ClearKeeps(kept: View, rest: View, d: nat)
    requires rest != []
    ensures Midway(kept, rest, d) == Midway(kept + [Marked(rest[0], d)], rest[1..], Owed(rest[0], true, d))
  {
  }

  /** The rows found so far and those that will still be found. */
  ghost predicate Clearing(v: View, keep: Line -> bool, kept: View, rest: View, d: nat) {
    && kept + KeptRows(rest, keep, d) == KeptRows(v, keep, 0)
    && KeepsMessages(rest, keep) && (forall i :: 0 <= i < |kept| ==> kept[i].Msg?)
  }

  lemma ClearingStarts(v: View, keep: Line -> bool)
    requires KeepsMessages(v, keep)
    ensures Clearing(v, keep, [], v, 0) && Midway([], v, 0) == v
  {
    UnindexNothing(v, 0);
    assert [] + KeptRows(v, keep, 0) == KeptRows(v, keep, 0);
  }

  lemma KeptNext(rest: View, keep: Line -> bool, d: nat)
    requires rest != []
    ensures var stays := keep(rest[0].line);
            KeptRows(rest, keep, d)
            == (if stays then [Marked(rest[0], d)] else []) + KeptRows(rest[1..], keep, Owed(rest[0], stays, d))
  {
  }

  lemma ClearingNext(v: View, keep: Line -> bool, kept: View, rest: View, d: nat)
    requires Clearing(v, keep, kept, rest, d) && rest != []
    ensures var stays := keep(rest[0].line);
            Clearing(v, keep, if stays then kept + [Marked(rest[0], d)] else kept, rest[1..], Owed(rest[0], stays, d))
  {
    hide Owed, KeptRows;
    var stays := keep(rest[0].line);
    var d2 := Owed(rest[0], stays, d);
    KeptNext(rest, keep, d);
    if stays {
      assert rest[0].Msg?;
      assert kept + ([Marked(rest[0], d)] + KeptRows(rest[1..], keep, d2))
             == (kept + [Marked(rest[0], d)]) + KeptRows(rest[1..], keep, d2);
    } else {
      assert [] + KeptRows(rest[1..], keep, d2) == KeptRows(rest[1..], keep, d2);
    }
  }

  lemma ClearingEnds(v: View, keep: Line -> bool, kept: View, rest: View, d: nat)
    requires Clearing(v, keep, kept, rest, d) && |Midway(kept, rest, d)| == |kept|
    ensures kept == KeptRows(v, keep, 0) == Midway(kept, rest, d)
  {
    assert rest == [] && KeptRows(rest, keep, d) == [];
  }

  lemma MidwayLength(kept: View, rest: View, d: nat)
    ensures |Midway(kept, rest, d)| == |kept| + |rest|
  {
  }

  lemma ClearErases(v: View, keep: Line -> bool, kept: View, rest: View, d: nat)
    requires rest != [] && Clearing(v, keep, kept, rest, d)
    ensures var w := Midway(kept, rest, d);
            && |kept| < |w| && Cascade(w, |kept|) == 0
            && EraseAt(w, |kept|) == Midway(kept, rest[1..], Owed(rest[0], false, d))
  {
    hide Unindex, Cascade;
    var w := Midway(kept, rest, d);
    ClearCascade(kept, rest, d);
    MidwayRow(kept, rest, d);
    hide KeptRows;
    UnindexSum(rest[1..], if Indexed(rest[0]) && d > 0 then d - 1 else d, Overdrop(w, |kept|));
  }

  /** Erases every line but those to be kept. */
  method Clear(storage: Storage, keep: Line -> bool)
    requires storage.Valid() && KeepsMessages(storage.view, keep)
    modifies storage
    ensures storage.Valid()
    ensures storage.view == KeptRows(old(storage.view), keep, 0)
  {
    hide EraseAt, Cascade, Represents, Clearing, Midway, KeptRows, Owed;
    ghost var v := storage.view;
    ghost var rest, kept, d: nat := v, [], 0;
    ClearingStarts(v, keep);
    var it := 0;
    var size := storage.Size();
    while it != size
      invariant storage.Valid() && size == |storage.view|
      invariant storage.view == Midway(kept, rest, d) && it == |kept| && Clearing(v, keep, kept, rest, d)
      decreases |rest|
    {
      MidwayLength(kept, rest, d);
      MidwayRow(kept, rest, d);
      ClearingNext(v, keep, kept, rest, d);
      var line := storage.At(it);
      if !keep(line) {
        ClearErases(v, keep, kept, rest, d);
        it := storage.Erase(it);
      } else {
        ClearKeeps(kept, rest, d);
        kept := kept + [Marked(rest[0], d)];
        it := it + 1;
      }
      d := Owed(rest[0], keep(line), d);
      rest := rest[1..];
      size := storage.Size();
    }
    ClearingEnds(v, keep, kept, rest, d);
  }

  function KeptLines(v: View, keep: Line -> bool): seq<Line> {
    if v == [] then [] else (if keep(v[0].line) then [v[0].line] else []) + KeptLines(v[1..], keep)
  }

  lemma NoLines()
    ensures LinesOf([]) == []
  {
  }

  lemma LinesCons(r: Row, v: View)
    ensures LinesOf([r] + v) == [r.line] + LinesOf(v)
  {
  }

  /** What stays are the lines to be kept, in order. */
  lemma {:induction false} ClearKeepsLines(v: View, keep: Line -> bool, d: nat)
    ensures LinesOf(KeptRows(v, keep, d)) == KeptLines(v, keep)
    decreases |v|
  {
    hide Owed, LinesOf;
    if v != [] {
      var stays := keep(v[0].line);
      var d2 := Owed(v[0], stays, d);
      ClearKeepsLines(v[1..], keep, d2);
      if stays {
        LinesCons(Marked(v[0], d), KeptRows(v[1..], keep, d2));
      }
      assert [] + KeptRows(v[1..], keep, d2) == KeptRows(v[1..], keep, d2);
    } else {
      NoLines();
    }
  }

  /** A line to be kept stands behind a row whose erasure has not yet cost an entry. */
  ghost predicate KeepsBehind(v: View, keep: Line -> bool, d: nat) {
    exists j :: 0 <= j < |v| && keep(v[j].line) && (d > 0 || exists i :: 0 <= i < j && v[i].Date?)
  }

  lemma KeepsBehindNext(v: View, keep: Line -> bool, d: nat)
    requires v != [] && !keep(v[0].line)
    ensures KeepsBehind(v, keep, d) <==> KeepsBehind(v[1..], keep, d + if v[0].Date? then 1 else 0)
  {
    var w := v[1..];
    if KeepsBehind(v, keep, d) {
      var j :| 0 <= j < |v| && keep(v[j].line) && (d > 0 || exists i :: 0 <= i < j && v[i].Date?);
      assert keep(w[j - 1].line);
      if d == 0 && v[0].Msg? {
        var i :| 0 <= i < j && v[i].Date?;
        assert w[i - 1].Date?;
      }
    }
    if KeepsBehind(w, keep, d + if v[0].Date? then 1 else 0) {
      var j :| 0 <= j < |w| && keep(w[j].line)
               && (d + (if v[0].Date? then 1 else 0) > 0 || exists i :: 0 <= i < j && w[i].Date?);
      assert keep(v[j + 1].line);
      if d == 0 && v[0].Msg? {
        var i :| 0 <= i < j && w[i].Date?;
        assert v[i + 1].Date?;
      }
    }
  }

  lemma KeepsBehindKept(v: View, keep: Line -> bool)
    requires v != [] && v[0].Msg?
    ensures KeepsBehind(v, keep, 0) <==> KeepsBehind(v[1..], keep, 0)
  {
    var w := v[1..];
    if KeepsBehind(v, keep, 0) {
      var j, i :| 0 <= j < |v| && keep(v[j].line) && 0 <= i < j && v[i].Date?;
      assert keep(w[j - 1].line) && w[i - 1].Date?;
    }
    if KeepsBehind(w, keep, 0) {
      var j, i :| 0 <= j < |w| && keep(w[j].line) && 0 <= i < j && w[i].Date?;
      assert keep(v[j + 1].line) && v[i + 1].Date?;
    }
  }

  lemma CoveredCons(r: Row, v: View)
    ensures Covered([r] + v) <==> (r.Msg? ==> r.indexed) && Covered(v)
  {
    CoveredConcat([r], v);
    assert [r][0] == r;
  }

  lemma ClearLosesHere(v: View, keep: Line -> bool, d: nat)
    requires v != [] && Covered(v) && keep(v[0].line) && v[0].Msg? && d > 0
    ensures KeepsBehind(v, keep, d) && !Covered(KeptRows(v, keep, d))
  {
    assert !KeptRows(v, keep, d)[0].indexed;
  }

  /** From a fully indexed view, clearing leaves every line kept with its entry exactly
      when no date line stood above any of them. */
  lemma {:induction false} ClearKeepsCoverage(v: View, keep: Line -> bool, d: nat)
    requires Covered(v) && KeepsMessages(v, keep)
    ensures Covered(KeptRows(v, keep, d)) <==> !KeepsBehind(v, keep, d)
    decreases |v|
  {
    if v != [] {
      assert v == [v[0]] + v[1..];
      CoveredCons(v[0], v[1..]);
      hide Covered, KeepsBehind;
      if !keep(v[0].line) {
        KeepsBehindNext(v, keep, d);
        assert v[0].Msg? ==> v[0].indexed;
        var d2 := Owed(v[0], false, d);
        ClearKeepsCoverage(v[1..], keep, d2);
        assert KeptRows(v, keep, d) == [] + KeptRows(v[1..], keep, d2) == KeptRows(v[1..], keep, d2);
      } else if d > 0 {
        ClearLosesHere(v, keep, d);
      } else {
        KeepsBehindKept(v, keep);
        CoveredCons(v[0], KeptRows(v[1..], keep, 0));
        ClearKeepsCoverage(v[1..], keep, 0);
      }
    }
  }

  lemma {:induction false} KeptLineStands(v: View, keep: Line -> bool)
    requires KeptLines(v, keep) != []
    ensures exists j :: 0 <= j < |v| && keep(v[j].line)
    decreases |v|
  {
    if !keep(v[0].line) {
      KeptLineStands(v[1..], keep);
      var j :| 0 <= j < |v[1..]| && keep(v[1..][j].line);
      assert keep(v[j + 1].line);
    }
  }

  /** As the widget uses the storage, the first line is a date line: clearing a view with an
      active transfer costs one of the transfers its entry. */
  lemma ClearLosesEntry(v: View, day: Time -> Time, keep: Line -> bool)
    requires StartOfDay(day) && DayView(v, day) && Covered(v) && KeepsMessages(v, keep)
    requires KeptLines(v, keep) != []
    ensures !Covered(KeptRows(v, keep, 0))
  {
    KeptLineStands(v, keep);
    var j :| 0 <= j < |v| && keep(v[j].line);
    hide DayView, Covered, KeptRows;
    FirstIsDate(v, day);
    ClearKeepsCoverage(v, keep, 0);
  }

  // ---------- witnesses ----------

  /** Hiding a widget that shows one line too many takes the first message's entry. */
  lemma DropInTwoDays()
    ensures DropFirst(TwoDays(), 1) == [Msg(1, 1, 101, false), Date(10, 200), Msg(2, 11, 201, true)]
  {
    var v := TwoDays();
    assert v[1..] == [Msg(1, 1, 101, true), Date(10, 200), Msg(2, 11, 201, true)];
    assert v[..1] == [v[0]] && Missing(v[..1]) == Missing([]) + 1;
  }

  /** Clearing a view whose second message is an active transfer takes its entry. */
  lemma ClearInTwoDays()
    ensures KeptRows(TwoDays(), line => line == 201, 0) == [Msg(2, 11, 201, false)]
  {
    var v, keep := TwoDays(), line => line == 201;
    assert v[1..] == [v[1], v[2], v[3]] && v[1..][1..] == [v[2], v[3]] && v[1..][1..][1..] == [v[3]];
    assert KeptRows(v[1..][1..][1..], keep, 2) == [Marked(v[3], 2)] + KeptRows([], keep, 1);
  }
}
