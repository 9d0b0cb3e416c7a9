/** What erasing a line does to the view, the date lines and the index, and which
    properties of the view survive it. */
module ChatLineErase {
  import opened ChatLineView
  import opened ChatLineOrder

  // ---------- the closed form ----------

  /** Apart from the row itself only date rows go, they stood right above it, and
      the run is maximal: what is left above the gap is a message, or nothing, or the
      row below the gap is a message. */
  lemma EraseRemovesDatesOnly(v: View, p: nat)
    requires p < |v|
    ensures var k := Cascade(v, p);
            && LinesOf(EraseAt(v, p)) == LinesOf(v)[..p - k] + LinesOf(v)[p + 1..]
            && (forall i :: p - k <= i < p ==> v[i].Date?)
            && (k > 0 ==> EndsDay(v, p))
            && (EndsDay(v, p) && k < p ==> v[p - k - 1].Msg?)
  {
    var k := Cascade(v, p);
    assert LinesOf(v)[..p - k] + LinesOf(v)[p + 1..] == LinesOf(EraseAt(v, p));
  }

  /** No other row changes, except that later messages may lose their index entry. */
  lemma EraseKeepsRows(v: View, p: nat, i: nat)
    requires p < |v| && i < |v| - 1 - Cascade(v, p)
    ensures var k := Cascade(v, p);
            var r := EraseAt(v, p)[i];
            if i < p - k then r == v[i]
            else r == v[i + k + 1] || (Indexed(v[i + k + 1]) && r == v[i + k + 1].(indexed := false))
  {
    var k := Cascade(v, p);
    if i >= p - k {
      assert EraseAt(v, p)[i] == Unindex(v[p + 1..], Overdrop(v, p))[i - (p - k)];
    }
  }

  // ---------- counting the index ----------

  lemma {:induction false} UnindexNothing(v: View, n: nat)
    requires n == 0 || IndexOf(v) == []
    ensures Unindex(v, n) == v
    decreases |v|
  {
    if v != [] && n > 0 {
      EntryAt(v, 0);
      UnindexNothing(v[1..], n);
    }
  }

  lemma {:induction false} UnindexCount(v: View, n: nat)
    ensures |IndexOf(Unindex(v, n))| == if n < |IndexOf(v)| then |IndexOf(v)| - n else 0
    decreases n
  {
    hide Unindex, IndexOf;
    if n == 0 {
      UnindexNothing(v, 0);
    } else {
      UnindexStep(v, n - 1);
      UnindexCount(v, n - 1);
      IndexUnindexOne(Unindex(v, n - 1));
    }
  }

  /** How many entries one erase drops: the row's own, if it had one, and one more
      for every other row that is removed, as long as there are later entries. */
  lemma EraseIndexCount(v: View, p: nat)
    requires p < |v|
    ensures var later := |IndexOf(v[p + 1..])|;
            var own := if Indexed(v[p]) then 1 else 0;
            var over := Overdrop(v, p);
            |IndexOf(EraseAt(v, p))| == |IndexOf(v)| - own - if over < later then over else later
  {
    var k, over := Cascade(v, p), Overdrop(v, p);
    EntryAt(v, p);
    UnindexCount(v[p + 1..], over);
    IndexConcat(v[..p - k], Unindex(v[p + 1..], over));
    RankOverDates(v, p - k, p);
  }

  /** Message rows without an index entry. */
  function Orphans(v: View): nat {
    if v == [] then 0
    else Orphans(v[..|v| - 1]) + if v[|v| - 1].Msg? && !v[|v| - 1].indexed then 1 else 0
  }

  lemma {:induction false} NoOrphans(v: View)
    ensures Orphans(v) == 0 <==> Covered(v)
    decreases |v|
  {
    if v != [] {
      var n := |v| - 1;
      NoOrphans(v[..n]);
      if Covered(v[..n]) && (v[n].Msg? ==> v[n].indexed) {
        forall i | 0 <= i < |v| && v[i].Msg?
          ensures v[i].indexed
        {
          if i < n { assert v[..n][i] == v[i]; }
        }
      }
    }
  }

  lemma DatesInit(v: View, dm: map<Line, Time>)
    requires v != [] && DatesOf(v, dm) && DistinctLines(v)
    ensures DatesOf(v[..|v| - 1], dm - {v[|v| - 1].line})
  {
  }

  lemma MinusOne(dm: map<Line, Time>, l: Line)
    ensures |dm| == |dm - {l}| + if l in dm then 1 else 0
  {
  }

  /** The three containers account for every line, up to the orphans. */
  lemma {:induction false} SizeEquation(v: View, dm: map<Line, Time>)
    requires DatesOf(v, dm) && DistinctLines(v)
    ensures |v| == |IndexOf(v)| + |dm| + Orphans(v)
    decreases |v|
  {
    if v == [] {
      assert forall l :: l !in dm;
      assert dm == map[];
    } else {
      var n := |v| - 1;
      DatesInit(v, dm);
      assert DistinctLines(v[..n]);
      SizeEquation(v[..n], dm - {v[n].line});
      MinusOne(dm, v[n].line);
      hide DatesOf, DistinctLines, LinesOf;
    }
  }

  /** Every line is a date line or an indexed message exactly when the sizes add up. */
  lemma CoverageBySize(v: View, dm: map<Line, Time>)
    requires DatesOf(v, dm) && DistinctLines(v)
    ensures Covered(v) <==> |v| == |IndexOf(v)| + |dm|
  {
    SizeEquation(v, dm);
    NoOrphans(v);
  }

  lemma CoveredTail(w: View)
    requires w != [] && w[0].Date?
    ensures Covered(w) <==> Covered(w[1..])
  {
  }

  lemma {:induction false} UnindexCovered(v: View, n: nat)
    requires Covered(v)
    ensures Covered(Unindex(v, n)) <==> n == 0 || forall i :: 0 <= i < |v| ==> v[i].Date?
    decreases |v|
  {
    if v != [] && n > 0 {
      var w := Unindex(v, n);
      if v[0].Msg? {
        assert w[0].Msg? && !w[0].indexed;
      } else {
        UnindexCovered(v[1..], n);
        assert w[1..] == Unindex(v[1..], n);
        assert Covered(w) <==> Covered(w[1..]) by { CoveredTail(w); }
        assert (forall i :: 0 <= i < |v| ==> v[i].Date?) <==> forall i :: 0 <= i < |v[1..]| ==> v[1..][i].Date? by {
          assert forall i :: 1 <= i < |v| ==> v[i] == v[1..][i - 1];
        }
      }
    }
  }

  /** Can the row be erased without costing another message its index entry? */
  predicate CleanErase(v: View, p: nat)
    requires p < |v|
  {
    Overdrop(v, p) == 0 || forall i :: p < i < |v| ==> v[i].Date?
  }

  lemma CoveredConcat(a: View, b: View)
    ensures Covered(a + b) <==> Covered(a) && Covered(b)
  {
    if Covered(a + b) {
      forall i | 0 <= i < |b| && b[i].Msg?
        ensures b[i].indexed
      {
        assert (a + b)[|a| + i] == b[i];
      }
      forall i | 0 <= i < |a| && a[i].Msg?
        ensures a[i].indexed
      {
        assert (a + b)[i] == a[i];
      }
    }
  }

  /** From a fully indexed view, an erase leaves every message indexed exactly when
      the row is a message whose date lines stay, or no message follows it. */
  lemma EraseKeepsCoverage(v: View, p: nat)
    requires p < |v| && Covered(v)
    ensures Covered(EraseAt(v, p)) <==> CleanErase(v, p)
  {
    var k, over := Cascade(v, p), Overdrop(v, p);
    var head, tail := v[..p - k], v[p + 1..];
    assert forall i :: p < i < |v| ==> v[i] == tail[i - p - 1];
    UnindexCovered(tail, over);
    CoveredConcat(head, Unindex(tail, over));
  }

  // ---------- order, tidiness, round trip ----------

  lemma EraseKeepsOrder(v: View, p: nat)
    requires p < |v| && Sorted(v)
    ensures Sorted(EraseAt(v, p))
  {
    var w, k := EraseAt(v, p), Cascade(v, p);
    forall i, j | 0 <= i < j < |w|
      ensures Before(w[i], w[j])
    {
      EraseKeepsRows(v, p, i);
      EraseKeepsRows(v, p, j);
      var a := if i < p - k then i else i + k + 1;
      var b := if j < p - k then j else j + k + 1;
      assert Before(v[a], v[b]);
    }
  }

  lemma TidyRun(v: View, p: nat)
    requires p < |v| && Tidy(v)
    ensures DateRun(v, p) <= 1
  {
  }

  lemma TidyRow(v: View, p: nat, i: nat)
    requires p < |v| && Tidy(v) && v[p].Msg?
    requires i < |EraseAt(v, p)| && EraseAt(v, p)[i].Date?
    ensures i + 1 < |EraseAt(v, p)| && EraseAt(v, p)[i + 1].Msg?
  {
  }

  /** Erasing a message from a tidy view removes at most one date line and leaves it
      tidy. */
  lemma EraseKeepsTidy(v: View, p: nat)
    requires p < |v| && Tidy(v) && v[p].Msg?
    ensures Cascade(v, p) <= 1 && Tidy(EraseAt(v, p))
  {
    var w, k := EraseAt(v, p), Cascade(v, p);
    assert k <= 1 by { TidyRun(v, p); }
    forall i | 0 <= i < |w| && w[i].Date?
      ensures i + 1 < |w| && w[i + 1].Msg?
    {
      TidyRow(v, p, i);
    }
  }

  /** Erasing a freshly inserted row restores the view exactly when the row is not the
      only one of its day and, for a date line, no message behind it is indexed. */
  lemma InsertEraseIff(v: View, p: nat, r: Row)
    requires p <= |v| && (r.Msg? ==> r.indexed)
    ensures EraseAt(InsertAt(v, p, r), p) == v <==>
              && !(p > 0 && v[p - 1].Date? && (p == |v| || v[p].Date?))
              && (r.Date? ==> IndexOf(v[p..]) == [])
  {
    var w := InsertAt(v, p, r);
    var k, over := Cascade(w, p), Overdrop(w, p);
    assert w[p + 1..] == v[p..] && w[..p] == v[..p];
    assert EndsDay(w, p) <==> p == |v| || v[p].Date? by {
      if p < |v| { assert w[p + 1] == v[p]; }
    }
    assert p > 0 ==> w[p - 1] == v[p - 1];
    assert k > 0 <==> p > 0 && v[p - 1].Date? && (p == |v| || v[p].Date?);
    if k == 0 {
      assert v == v[..p] + v[p..];
      UnindexCount(v[p..], over);
      if r.Msg? || IndexOf(v[p..]) == [] {
        UnindexNothing(v[p..], over);
      }
    } else {
      assert |EraseAt(w, p)| < |v|;
    }
  }

  lemma SeekInserted(v: View, p: nat, r: Row)
    requires WellFormed(v) && Indexed(r) && p == MsgPos(v, r.idx, r.ts)
    ensures Seek(InsertAt(v, p, r), FromIdx(r.idx)) == p
  {
  }

  /** In a tidy view, erasing a message that was just inserted under a new index
      restores the view, index entries and all. */
  lemma RoundTrip(v: View, idx: Idx, ts: Time, line: Line)
    requires WellFormed(v) && Tidy(v) && !HasIdx(v, idx)
    ensures var w := InsertMsg(v, idx, ts, line);
            && Seek(w, FromIdx(idx)) == MsgPos(v, idx, ts) < |w|
            && EraseAt(w, Seek(w, FromIdx(idx))) == v
  {
    var r := Msg(idx, ts, line, true);
    var p := MsgPos(v, idx, ts);
    var w := InsertAt(v, p, r);
    var s := Seek(v, FromIdx(idx));
    SeekInserted(v, p, r);
    if p > 0 && v[p - 1].Date? {
      assert p < |v| && v[p].Msg?;
    }
    InsertEraseIff(v, p, r);
  }

  // ---------- runs of insertions and erasures ----------

  datatype Command = Show(row: Row) | Remove(pos: nat)

  ghost function Perform(v: View, c: Command): View {
    match c
    case Show(r) => Insert(v, r)
    case Remove(p) => if p < |v| then EraseAt(v, p) else v
  }

  ghost function RunOf(cs: seq<Command>): View {
    if cs == [] then [] else Perform(RunOf(cs[..|cs| - 1]), cs[|cs| - 1])
  }

  lemma RunPrefix(cs: seq<Command>, n: nat)
    requires n < |cs|
    ensures RunOf(cs[..n + 1]) == Perform(RunOf(cs[..n]), cs[n])
  {
    assert cs[..n + 1][..n] == cs[..n];
  }

  /** Messages keep their time order: a message that gets inserted fits those shown. */
  ghost predicate ShowsInTime(v: View, c: Command) {
    c.Show? && c.row.Msg? ==> c.row.indexed && (HasIdx(v, c.row.idx) || Timely(v + [c.row]))
  }

  /** The search for the place of an insertion passes no message that lost its entry. */
  ghost predicate SeeksExactly(v: View, c: Command) {
    match c
    case Remove(_) => true
    case Show(Msg(idx, _, _, _)) => HasIdx(v, idx) || SeekIsExact(v, FromIdx(idx))
    case Show(Date(ts, _)) => HasDate(v, ts) || SeekIsExact(v, FromTime(ts))
  }

  lemma TimelyPart(v: View, w: View)
    requires Timely(v)
    requires forall i :: 0 <= i < |w| && w[i].Msg? ==>
                           exists j :: 0 <= j < |v| && v[j].Msg? && v[j].idx == w[i].idx && v[j].ts == w[i].ts
    ensures Timely(w)
  {
  }

  lemma InsertIsTimely(v: View, p: nat, r: Row)
    requires p <= |v| && Timely(v + [r])
    ensures Timely(InsertAt(v, p, r))
  {
    var all, w := v + [r], InsertAt(v, p, r);
    forall i | 0 <= i < |w| && w[i].Msg?
      ensures exists j :: 0 <= j < |all| && all[j].Msg? && all[j].idx == w[i].idx && all[j].ts == w[i].ts
    {
      var j := if i < p then i else if i == p then |v| else i - 1;
      assert all[j] == w[i];
    }
    TimelyPart(all, w);
  }

  lemma EraseIsTimely(v: View, p: nat)
    requires p < |v| && Timely(v)
    ensures Timely(EraseAt(v, p))
  {
    var w, k := EraseAt(v, p), Cascade(v, p);
    forall i | 0 <= i < |w| && w[i].Msg?
      ensures exists j :: 0 <= j < |v| && v[j].Msg? && v[j].idx == w[i].idx && v[j].ts == w[i].ts
    {
      EraseKeepsRows(v, p, i);
      var j := if i < p - k then i else i + k + 1;
      assert v[j].Msg?;
    }
    TimelyPart(v, w);
  }

  lemma DateIsTimely(v: View, r: Row)
    requires Timely(v) && r.Date?
    ensures Timely(v + [r])
  {
    TimelyPart(v, v + [r]);
  }

  lemma CommandIsTimely(v: View, c: Command)
    requires Timely(v) && ShowsInTime(v, c)
    ensures Timely(Perform(v, c))
  {
    hide Timely, EraseAt, InsertAt;
    match c
    case Remove(p) =>
      if p < |v| {
        EraseIsTimely(v, p);
      }
    case Show(Msg(idx, ts, line, indexed)) =>
      if !HasIdx(v, idx) {
        InsertIsTimely(v, MsgPos(v, idx, ts), c.row);
      }
    case Show(Date(ts, line)) =>
      DateIsTimely(v, c.row);
      InsertIsTimely(v, DatePos(v, ts), c.row);
  }

  /** Erasures of any kind keep a view chronological; an insertion does exactly when its
      search is exact. */
  lemma CommandKeepsOrderIff(v: View, c: Command)
    requires Sorted(v) && Timely(v) && ShowsInTime(v, c)
    ensures Sorted(Perform(v, c)) <==> SeeksExactly(v, c)
  {
    hide Sorted, Timely, SeekIsExact, EraseAt;
    match c
    case Remove(p) =>
      if p < |v| {
        EraseKeepsOrder(v, p);
      }
    case Show(Msg(idx, ts, line, indexed)) =>
      if !HasIdx(v, idx) {
        InsertMsgKeepsOrder(v, idx, ts, line);
      }
    case Show(Date(ts, line)) =>
      if !HasDate(v, ts) {
        InsertDateKeepsOrder(v, ts, line);
      }
  }

  lemma NothingIsTimely()
    ensures Timely([]) && Sorted([])
  {
  }

  lemma {:induction false} RunIsTimely(cs: seq<Command>)
    requires forall n :: 0 <= n < |cs| ==> ShowsInTime(RunOf(cs[..n]), cs[n])
    ensures Timely(RunOf(cs))
    decreases |cs|
  {
    hide Timely, ShowsInTime, Perform;
    if cs == [] {
      NothingIsTimely();
    } else {
      var m := |cs| - 1;
      forall n | 0 <= n < m
        ensures ShowsInTime(RunOf(cs[..m][..n]), cs[..m][n])
      {
        assert cs[..m][..n] == cs[..n] && cs[..m][n] == cs[n];
      }
      RunIsTimely(cs[..m]);
      CommandIsTimely(RunOf(cs[..m]), cs[m]);
    }
  }

  lemma PrefixIsTimely(cs: seq<Command>, n: nat)
    requires n <= |cs| && forall m :: 0 <= m < |cs| ==> ShowsInTime(RunOf(cs[..m]), cs[m])
    ensures Timely(RunOf(cs[..n]))
  {
    hide Timely, ShowsInTime, RunOf;
    forall m | 0 <= m < n
      ensures ShowsInTime(RunOf(cs[..n][..m]), cs[..n][m])
    {
      assert cs[..n][..m] == cs[..m] && cs[..n][m] == cs[m];
    }
    RunIsTimely(cs[..n]);
  }

  lemma {:induction false} ExactRunIsSorted(cs: seq<Command>, n: nat)
    requires n <= |cs|
    requires forall m :: 0 <= m < |cs| ==> ShowsInTime(RunOf(cs[..m]), cs[m])
    requires forall m :: 0 <= m < |cs| ==> SeeksExactly(RunOf(cs[..m]), cs[m])
    ensures Sorted(RunOf(cs[..n]))
    decreases n
  {
    hide Timely, Sorted, ShowsInTime, SeeksExactly;
    if n == 0 {
      NothingIsTimely();
      assert cs[..0] == [];
    } else {
      ExactRunIsSorted(cs, n - 1);
      PrefixIsTimely(cs, n - 1);
      CommandKeepsOrderIff(RunOf(cs[..n - 1]), cs[n - 1]);
      RunPrefix(cs, n - 1);
    }
  }

  /** Over every run of insertions and of any erasures: all states are chronological
      exactly when no insertion searches past a message that lost its entry. */
  lemma {:induction false} RunIsChronologicalIff(cs: seq<Command>)
    requires forall n :: 0 <= n < |cs| ==> ShowsInTime(RunOf(cs[..n]), cs[n])
    ensures (forall n :: 0 <= n <= |cs| ==> Sorted(RunOf(cs[..n]))) <==>
            (forall n :: 0 <= n < |cs| ==> SeeksExactly(RunOf(cs[..n]), cs[n]))
  {
    hide Timely, Sorted, ShowsInTime, SeeksExactly, RunOf;
    if forall n :: 0 <= n < |cs| ==> SeeksExactly(RunOf(cs[..n]), cs[n]) {
      forall n | 0 <= n <= |cs|
        ensures Sorted(RunOf(cs[..n]))
      {
        ExactRunIsSorted(cs, n);
      }
    } else if forall n :: 0 <= n <= |cs| ==> Sorted(RunOf(cs[..n])) {
      var n :| 0 <= n < |cs| && !SeeksExactly(RunOf(cs[..n]), cs[n]);
      PrefixIsTimely(cs, n);
      CommandKeepsOrderIff(RunOf(cs[..n]), cs[n]);
      RunPrefix(cs, n);
    }
  }

  /** The day boundary in every state such a run reaches: a message stands above a date
      line exactly when it is earlier. */
  lemma DayBoundaryInRun(cs: seq<Command>, i: nat, j: nat)
    requires forall n :: 0 <= n < |cs| ==> ShowsInTime(RunOf(cs[..n]), cs[n]) && SeeksExactly(RunOf(cs[..n]), cs[n])
    requires i < |RunOf(cs)| && j < |RunOf(cs)| && RunOf(cs)[i].Msg? && RunOf(cs)[j].Date?
    ensures i < j <==> RunOf(cs)[i].ts < RunOf(cs)[j].ts
  {
    hide ShowsInTime, SeeksExactly, RunOf;
    ExactRunIsSorted(cs, |cs|);
    assert cs[..|cs|] == cs;
    DayBoundary(RunOf(cs), i, j);
  }

  /** An erasure that costs no other message its entry. */
  ghost predicate ErasesCleanly(v: View, c: Command) {
    c.Remove? && c.pos < |v| ==> CleanErase(v, c.pos)
  }

  lemma NothingIsCovered()
    ensures Covered([])
  {
  }

  lemma CommandKeepsCoverageIff(v: View, c: Command)
    requires Covered(v)
    ensures Covered(Perform(v, c)) <==> ErasesCleanly(v, c)
  {
    hide Covered, EraseAt, InsertAt, CleanErase;
    match c
    case Remove(p) =>
      if p < |v| {
        EraseKeepsCoverage(v, p);
      }
    case Show(Msg(idx, ts, line, indexed)) =>
      CoveredInsert(v, MsgPos(v, idx, ts), Msg(idx, ts, line, true));
    case Show(Date(ts, line)) =>
      CoveredInsert(v, DatePos(v, ts), c.row);
  }

  lemma {:induction false} CleanRunIsCovered(cs: seq<Command>, n: nat)
    requires n <= |cs|
    requires forall m :: 0 <= m < n ==> ErasesCleanly(RunOf(cs[..m]), cs[m])
    ensures Covered(RunOf(cs[..n]))
    ensures forall b :: SeekIsExact(RunOf(cs[..n]), b)
    decreases n
  {
    hide ErasesCleanly, Covered, SeekIsExact, Perform;
    if n == 0 {
      NothingIsCovered();
      assert cs[..0] == [];
    } else {
      CleanRunIsCovered(cs, n - 1);
      CommandKeepsCoverageIff(RunOf(cs[..n - 1]), cs[n - 1]);
      RunPrefix(cs, n - 1);
    }
    forall b
      ensures SeekIsExact(RunOf(cs[..n]), b)
    {
      CoveredSeekIsExact(RunOf(cs[..n]), b);
    }
  }

  /** Over every run: every message is indexed in every state exactly when no erasure
      costs another message its entry. */
  lemma {:induction false} RunIsCoveredIff(cs: seq<Command>)
    ensures (forall n :: 0 <= n <= |cs| ==> Covered(RunOf(cs[..n]))) <==>
            (forall n :: 0 <= n < |cs| ==> ErasesCleanly(RunOf(cs[..n]), cs[n]))
  {
    hide Covered, ErasesCleanly, RunOf, SeekIsExact;
    if forall n :: 0 <= n < |cs| ==> ErasesCleanly(RunOf(cs[..n]), cs[n]) {
      forall n | 0 <= n <= |cs|
        ensures Covered(RunOf(cs[..n]))
      {
        CleanRunIsCovered(cs, n);
      }
    } else if forall n :: 0 <= n <= |cs| ==> Covered(RunOf(cs[..n])) {
      var n :| 0 <= n < |cs| && !ErasesCleanly(RunOf(cs[..n]), cs[n]);
      CommandKeepsCoverageIff(RunOf(cs[..n]), cs[n]);
      RunPrefix(cs, n);
    }
  }

  // ---------- witnesses: what an erase of the code can cost ----------

  /** Two days with one message each. */
  function TwoDays(): View {
    [Date(0, 100), Msg(1, 1, 101, true), Date(10, 200), Msg(2, 11, 201, true)]
  }

  lemma TwoDaysIsReachable()
    ensures Insertable([TwoDays()[1], TwoDays()[0], TwoDays()[3], TwoDays()[2]])
    ensures Build([TwoDays()[1], TwoDays()[0], TwoDays()[3], TwoDays()[2]]) == TwoDays()
  {
    var v := TwoDays();
    var rows := [v[1], v[0], v[3], v[2]];
    assert SameRows(v, rows) by {
      assert forall r :: r in v <==> r == v[0] || r == v[1] || r == v[2] || r == v[3];
      assert forall r :: r in rows <==> r == v[0] || r == v[1] || r == v[2] || r == v[3];
    }
    BuildSorted(rows);
    SortedIsUnique(Build(rows), v);
  }

  lemma TwoDaysIndex()
    ensures IndexOf(TwoDays()) == [IdxInfo(1, 1, 1), IdxInfo(2, 3, 11)]
  {
    hide IndexOf;
    var v := TwoDays();
    NoEntries([v[0]]);
    IndexSnoc([v[0]], v[1]);
    IndexSnoc([v[0]] + [v[1]], v[2]);
    IndexSnoc([v[0]] + [v[1]] + [v[2]], v[3]);
    assert v == [v[0]] + [v[1]] + [v[2]] + [v[3]];
  }

  lemma UnindexTwo()
    ensures Unindex([Date(10, 200), Msg(2, 11, 201, true)], 1) == [Date(10, 200), Msg(2, 11, 201, false)]
  {
  }

  /** Erasing the first message takes its date line along, and the second message
      silently loses its index entry. */
  lemma EraseLosesEntry()
    ensures EraseAt(TwoDays(), 1) == [Date(10, 200), Msg(2, 11, 201, false)]
    ensures |IndexOf(TwoDays())| == 2 && IndexOf(EraseAt(TwoDays(), 1)) == []
  {
    hide IndexOf;
    var v := TwoDays();
    TwoDaysIndex();
    assert DateRun(v, 0) == 0 && DateRun(v, 1) == 1;
    assert Cascade(v, 1) == 1 && Overdrop(v, 1) == 1;
    assert v[2..] == [Date(10, 200), Msg(2, 11, 201, true)];
    UnindexTwo();
    assert EraseAt(v, 1) == v[..0] + Unindex(v[2..], 1);
    NoEntries([Date(10, 200), Msg(2, 11, 201, false)]);
  }

  /** Afterwards the lost message can be shown a second time, and the erased one comes
      back below the wrong date line. */
  lemma LostEntryConsequences()
    ensures var v := EraseAt(TwoDays(), 1);
            && InsertMsg(v, 2, 11, 301) == v + [Msg(2, 11, 301, true)]
            && InsertMsg(v, 1, 1, 301) == v + [Msg(1, 1, 301, true)]
            && !Sorted(InsertMsg(v, 1, 1, 301))
  {
    EraseLosesEntry();
    var v := EraseAt(TwoDays(), 1);
    assert Seek(v, FromIdx(2)) == 2 && Seek(v, FromIdx(1)) == 2;
    var w := InsertMsg(v, 1, 1, 301);
    assert w == v + [Msg(1, 1, 301, true)];
    assert !Before(w[0], w[2]);
  }
}
