/** The sliding window of the chat widget: batches of messages from the chat log are shown
    with their date lines, and ranges of messages are removed. */
module ChatLineWindow {
  import opened ChatLineView
  import opened ChatLineOrder
  import opened ChatLineErase
  import opened ChatLineDays
  import opened ChatLineRemoval

  /** The log gives every message its time; times do not decrease with the index. */
  ghost predicate Chronicle(at: Idx -> Time) {
    forall i, j :: i <= j ==> at(i) <= at(j)
  }

  ghost predicate Logged(v: View, at: Idx -> Time) {
    forall i :: 0 <= i < |v| && v[i].Msg? ==> v[i].ts == at(v[i].idx)
  }

  /** A chronological, fully indexed view of messages of the log, each day with its date
      line and no date line without a message. */
  ghost predicate WindowView(v: View, at: Idx -> Time, day: Time -> Time) {
    DayView(v, day) && Covered(v) && Logged(v, at)
  }

  // ---------- showing a batch ----------

  lemma LoggedFits(v: View, at: Idx -> Time, m: Message)
    requires Chronicle(at) && Logged(v, at) && m.ts == at(m.idx)
    ensures FitsIn(v, m)
  {
  }

  lemma LoggedInsert(v: View, at: Idx -> Time, p: nat, r: Row)
    requires p <= |v| && Logged(v, at) && (r.Msg? ==> r.ts == at(r.idx))
    ensures Logged(InsertAt(v, p, r), at)
  {
    InsertedAt(v, p, r);
  }

  /** One row more, found by a search over a fully indexed view. */
  lemma InsertKeepsMarks(v: View, at: Idx -> Time, r: Row)
    requires Covered(v) && Logged(v, at) && (r.Msg? ==> r.indexed && r.ts == at(r.idx))
    ensures Covered(Insert(v, r)) && Logged(Insert(v, r), at)
  {
    hide InsertAt, Covered, Logged;
    match r
    case Msg(idx, ts, line, indexed) =>
      CoveredInsert(v, MsgPos(v, idx, ts), r);
      LoggedInsert(v, at, MsgPos(v, idx, ts), r);
    case Date(ts, line) =>
      CoveredInsert(v, DatePos(v, ts), r);
      LoggedInsert(v, at, DatePos(v, ts), r);
  }

  lemma ShowKeepsWindow(v: View, at: Idx -> Time, day: Time -> Time, dateLine: Time -> Line, m: Message)
    requires Chronicle(at) && StartOfDay(day) && WindowView(v, at, day) && m.ts == at(m.idx)
    ensures WindowView(ShowWithDay(v, m, day, dateLine), at, day)
  {
    hide DayView, Covered, Logged, Insert, SeekIsExact, FitsIn, HasIdx, HasDate;
    var w, d := ShowMessage(v, m), day(m.ts);
    LoggedFits(v, at, m);
    InsertKeepsMarks(v, at, Msg(m.idx, m.ts, m.line, true));
    assert w == Insert(v, Msg(m.idx, m.ts, m.line, true)) by { ShowIsInsert(v, m); }
    CoveredSeekIsExact(v, FromIdx(m.idx));
    CoveredSeekIsExact(w, FromTime(d));
    DayStep(v, ShowOne(m), day, dateLine);
    InsertKeepsMarks(w, at, Date(d, dateLine(d)));
  }

  lemma ShowIsInsert(v: View, m: Message)
    ensures ShowMessage(v, m) == Insert(v, Msg(m.idx, m.ts, m.line, true))
  {
  }

  ghost function ShowAll(v: View, ms: seq<Message>, day: Time -> Time, dateLine: Time -> Line): View {
    if ms == [] then v
    else ShowWithDay(ShowAll(v, ms[..|ms| - 1], day, dateLine), ms[|ms| - 1], day, dateLine)
  }

  /** A batch shown with its date lines leaves no empty day and no message without its
      day, wherever it lands. */
  lemma {:induction false} BatchIsTidy(v: View, ms: seq<Message>, at: Idx -> Time, day: Time -> Time, dateLine: Time -> Line)
    requires Chronicle(at) && StartOfDay(day) && WindowView(v, at, day)
    requires forall m :: m in ms ==> m.ts == at(m.idx)
    ensures WindowView(ShowAll(v, ms, day, dateLine), at, day)
    decreases |ms|
  {
    hide WindowView, ShowWithDay, Chronicle, StartOfDay;
    if ms != [] {
      BatchIsTidy(v, ms[..|ms| - 1], at, day, dateLine);
      ShowKeepsWindow(ShowAll(v, ms[..|ms| - 1], day, dateLine), at, day, dateLine, ms[|ms| - 1]);
    }
  }

  lemma InsertedIndexes(v: View, r: Row, idx: Idx)
    requires r.Msg? ==> r.indexed
    ensures HasIdx(Insert(v, r), idx) <==> HasIdx(v, idx) || (r.Msg? && r.idx == idx)
    ensures forall x :: x in v ==> x in Insert(v, r)
    ensures forall x :: x in Insert(v, r) ==> x in v || x == r
  {
    var p := match r case Msg(i, ts, _, _) => MsgPos(v, i, ts) case Date(ts, _) => DatePos(v, ts);
    InAt(v, p, r);
    IndexedIn(v, idx);
    IndexedIn(InsertAt(v, p, r), idx);
  }

  lemma IndexedIn(v: View, idx: Idx)
    ensures HasIdx(v, idx) <==> exists r :: r in v && Indexed(r) && r.idx == idx
  {
    if r :| r in v && Indexed(r) && r.idx == idx {
      var i :| 0 <= i < |v| && v[i] == r;
    }
  }

  /** A row of a message of the batch, as it is shown. */
  ghost predicate FromBatch(r: Row, ms: seq<Message>) {
    r.Msg? ==> exists m :: m in ms && r == Msg(m.idx, m.ts, m.line, true)
  }

  /** Exactly the messages of the batch join those shown before; they are shown with their
      own lines and times, and nothing that was shown goes. */
  lemma {:induction false} BatchIsShown(v: View, ms: seq<Message>, day: Time -> Time, dateLine: Time -> Line, idx: Idx)
    ensures HasIdx(ShowAll(v, ms, day, dateLine), idx) <==> HasIdx(v, idx) || exists m :: m in ms && m.idx == idx
    ensures forall r :: r in v ==> r in ShowAll(v, ms, day, dateLine)
    ensures forall r :: r in ShowAll(v, ms, day, dateLine) ==> r in v || FromBatch(r, ms)
    decreases |ms|
  {
    hide HasIdx, Insert, InsertMsg;
    if ms != [] {
      var init, m := ms[..|ms| - 1], ms[|ms| - 1];
      assert ms == init + [m];
      BatchIsShown(v, init, day, dateLine, idx);
      var w := ShowAll(v, init, day, dateLine);
      var r, d := Msg(m.idx, m.ts, m.line, true), Date(day(m.ts), dateLine(day(m.ts)));
      ShowIsInsert(w, m);
      InsertedIndexes(w, r, idx);
      InsertedIndexes(ShowMessage(w, m), d, idx);
    }
  }

  // ---------- removing a range ----------

  /** Where a row that is left stood before the rows s to e were cut out. */
  function CutSource(s: nat, e: nat, i: nat): nat
    requires s <= e
  {
    if i < s then i else i + e - s
  }

  lemma CutRows(v: View, s: nat, e: nat)
    requires s <= e <= |v|
    ensures var w := v[..s] + v[e..];
            |w| == |v| - (e - s) && forall i :: 0 <= i < |w| ==> w[i] == v[CutSource(s, e, i)]
  {
  }

  lemma CutKeepsOrder(v: View, s: nat, e: nat)
    requires s <= e < |v| && Sorted(v) && Timely(v) && Tidy(v) && v[e].Msg?
    ensures var w := v[..s] + v[e..]; Sorted(w) && Timely(w) && Tidy(w)
  {
    CutRows(v, s, e);
    var w := v[..s] + v[e..];
    forall i, j | 0 <= i < j < |w|
      ensures Before(w[i], w[j])
    {
      BeforeAt(v, CutSource(s, e, i), CutSource(s, e, j));
    }
    hide Sorted;
  }

  lemma CutKeepsDates(v: View, s: nat, e: nat, d: Time)
    requires s <= e <= |v| && HasDate(v, d) && !HasUnindexed(v, s, e)
    ensures HasDate(v[..s] + v[e..], d)
  {
    CutRows(v, s, e);
    var b :| 0 <= b < |v| && v[b].Date? && v[b].ts == d;
    var w := v[..s] + v[e..];
    assert w[if b < s then b else b - (e - s)] == v[b];
  }

  /** Rows cut out of the middle of one day. */
  lemma CutKeepsWindow(v: View, at: Idx -> Time, day: Time -> Time, s: nat, e: nat)
    requires StartOfDay(day) && WindowView(v, at, day) && s <= e < |v| && Indexed(v[e]) && !HasUnindexed(v, s, e)
    ensures WindowView(v[..s] + v[e..], at, day)
  {
    hide Sorted, Timely, Tidy, HasDate, HasUnindexed, StartOfDay;
    CutKeepsOrder(v, s, e);
    CutRows(v, s, e);
    var w := v[..s] + v[e..];
    forall i | 0 <= i < |w| && w[i].Msg?
      ensures HasDate(w, day(w[i].ts))
    {
      CutKeepsDates(v, s, e, day(w[i].ts));
    }
  }

  lemma PrefixKeepsOrder(v: View, n: nat)
    requires n <= |v| && Sorted(v) && Timely(v) && Tidy(v) && (n > 0 ==> v[n - 1].Msg?)
    ensures Sorted(v[..n]) && Timely(v[..n]) && Tidy(v[..n])
  {
  }

  lemma PrefixKeepsDay(v: View, day: Time -> Time, n: nat, i: nat)
    requires StartOfDay(day) && DayView(v, day) && i < n <= |v| && v[i].Msg?
    ensures HasDate(v[..n], day(v[i].ts))
  {
    BelowItsDay(v, day, i);
    hide DayView, StartOfDay;
    var j :| 0 <= j < i && v[j].Date? && v[j].ts == day(v[i].ts);
    assert v[..n][j] == v[j];
  }

  /** Rows cut off below a row that is not a date line. */
  lemma PrefixKeepsWindow(v: View, at: Idx -> Time, day: Time -> Time, n: nat)
    requires StartOfDay(day) && WindowView(v, at, day) && n <= |v| && (n > 0 ==> v[n - 1].Msg?)
    ensures WindowView(v[..n], at, day)
  {
    hide Sorted, Timely, Tidy, HasDate, StartOfDay;
    PrefixKeepsOrder(v, n);
    forall i | 0 <= i < n && v[i].Msg?
      ensures HasDate(v[..n], day(v[i].ts))
    {
      PrefixKeepsDay(v, day, n, i);
    }
  }

  lemma AboveTheRun(v: View, s: nat)
    requires s <= |v|
    ensures var n := s - DateRun(v, s); n > 0 ==> v[n - 1].Msg?
  {
  }

  lemma WindowIncreasing(v: View, at: Idx -> Time, day: Time -> Time)
    requires WindowView(v, at, day)
    ensures IdxIncreasing(v)
  {
  }

  lemma SoughtIsIndexed(v: View, end: Idx)
    requires Seek(v, FromIdx(end)) < |v|
    ensures Indexed(v[Seek(v, FromIdx(end))])
  {
  }

  lemma RemoveKeepsWindow(v: View, at: Idx -> Time, day: Time -> Time, begin: Idx, end: Idx)
    requires StartOfDay(day) && WindowView(v, at, day) && IsRange(v, begin, end)
    ensures WindowView(RemoveRange(v, begin, end), at, day)
  {
    hide WindowView, Seek, RemoveRange, DateRun, StartOfDay;
    WindowIncreasing(v, at, day);
    RemoveRangeClosedForm(v, begin, end);
    var s, e := Seek(v, FromIdx(begin)), Seek(v, FromIdx(end));
    if s < e {
      if e < |v| && !HasUnindexed(v, s, e) {
        SoughtIsIndexed(v, end);
        CutKeepsWindow(v, at, day, s, e);
      } else {
        AboveTheRun(v, s);
        PrefixKeepsWindow(v, at, day, s - DateRun(v, s));
      }
    }
  }

  // ---------- runs ----------

  datatype WindowCommand = ShowBatch(ms: seq<Message>) | RemoveBetween(begin: Idx, end: Idx)

  ghost function PerformWindow(v: View, c: WindowCommand, day: Time -> Time, dateLine: Time -> Line): View {
    match c
    case ShowBatch(ms) => ShowAll(v, ms, day, dateLine)
    case RemoveBetween(begin, end) => if IsClampedRange(v, begin, end) then RemoveClamped(v, begin, end) else v
  }

  ghost function WindowRun(cs: seq<WindowCommand>, day: Time -> Time, dateLine: Time -> Line): View {
    if cs == [] then []
    else PerformWindow(WindowRun(cs[..|cs| - 1], day, dateLine), cs[|cs| - 1], day, dateLine)
  }

  /** Messages come from the log, and ranges do not end before they begin. */
  ghost predicate FromLog(c: WindowCommand, at: Idx -> Time) {
    match c
    case ShowBatch(ms) => forall m :: m in ms ==> m.ts == at(m.idx)
    case RemoveBetween(begin, end) => begin <= end
  }

  lemma WindowStep(v: View, c: WindowCommand, at: Idx -> Time, day: Time -> Time, dateLine: Time -> Line)
    requires Chronicle(at) && StartOfDay(day) && WindowView(v, at, day) && FromLog(c, at)
    ensures WindowView(PerformWindow(v, c, day, dateLine), at, day)
  {
    hide WindowView, Chronicle, StartOfDay, IsRange, RemoveRange, IndexOf;
    match c
    case ShowBatch(ms) => BatchIsTidy(v, ms, at, day, dateLine);
    case RemoveBetween(begin, end) =>
      WindowIncreasing(v, at, day);
      ClampKeepsRange(v, begin, end);
      if IndexOf(v) != [] {
        RemoveKeepsWindow(v, at, day, ClampedBegin(v, begin), ClampedEnd(v, end));
      }
  }

  lemma NothingShown(at: Idx -> Time, day: Time -> Time)
    ensures WindowView([], at, day)
  {
  }

  /** Every run of batches and removed ranges keeps the view chronological, fully indexed
      and each message below the date line of its day. */
  lemma {:induction false} WindowAlways(cs: seq<WindowCommand>, at: Idx -> Time, day: Time -> Time, dateLine: Time -> Line)
    requires Chronicle(at) && StartOfDay(day) && forall c :: c in cs ==> FromLog(c, at)
    ensures WindowView(WindowRun(cs, day, dateLine), at, day)
    decreases |cs|
  {
    hide WindowView, PerformWindow, FromLog, Chronicle, StartOfDay;
    if cs == [] {
      NothingShown(at, day);
    } else {
      var m := |cs| - 1;
      WindowAlways(cs[..m], at, day, dateLine);
      WindowStep(WindowRun(cs[..m], day, dateLine), cs[m], at, day, dateLine);
    }
  }

  // ---------- the window is determined by what it shows ----------

  /** What is seen of a row: everything but the identity of the line object. */
  function Face(r: Row): Row {
    match r
    case Msg(idx, ts, line, indexed) => Msg(idx, ts, 0, indexed)
    case Date(ts, line) => Date(ts, 0)
  }

  function Seen(v: View): (w: View)
    ensures |w| == |v| && forall i :: 0 <= i < |v| ==> w[i] == Face(v[i])
  {
    seq(|v|, i requires 0 <= i < |v| => Face(v[i]))
  }

  ghost predicate ShowSame(v: View, w: View) {
    forall idx :: HasIdx(v, idx) <==> HasIdx(w, idx)
  }

  lemma MessageSeen(v: View, w: View, at: Idx -> Time, day: Time -> Time, i: nat)
    requires WindowView(v, at, day) && WindowView(w, at, day) && ShowSame(v, w) && i < |v| && v[i].Msg?
    ensures exists j :: 0 <= j < |w| && w[j].Msg? && Face(w[j]) == Face(v[i])
  {
    hide DayView;
    assert HasIdx(v, v[i].idx);
    var j :| 0 <= j < |w| && Indexed(w[j]) && w[j].idx == v[i].idx;
  }

  lemma DateSeen(v: View, w: View, at: Idx -> Time, day: Time -> Time, i: nat)
    requires StartOfDay(day) && WindowView(v, at, day) && WindowView(w, at, day) && ShowSame(v, w)
    requires i < |v| && v[i].Date?
    ensures exists j :: 0 <= j < |w| && Face(w[j]) == Face(v[i])
  {
    NextIsOfDay(v, day, i);
    MessageSeen(v, w, at, day, i + 1);
    hide Sorted, Timely, Tidy;
    var k :| 0 <= k < |w| && w[k].Msg? && Face(w[k]) == Face(v[i + 1]);
    var j :| 0 <= j < |w| && w[j].Date? && w[j].ts == day(w[k].ts);
    assert Face(w[j]) == Face(v[i]);
  }

  lemma RowsSeen(v: View, w: View, at: Idx -> Time, day: Time -> Time)
    requires StartOfDay(day) && WindowView(v, at, day) && WindowView(w, at, day) && ShowSame(v, w)
    ensures forall r :: r in Seen(v) ==> r in Seen(w)
  {
    hide WindowView, ShowSame, StartOfDay;
    forall r | r in Seen(v)
      ensures r in Seen(w)
    {
      var i :| 0 <= i < |v| && Seen(v)[i] == r;
      if v[i].Msg? {
        MessageSeen(v, w, at, day, i);
      } else {
        DateSeen(v, w, at, day, i);
      }
      var j :| 0 <= j < |w| && Face(w[j]) == Face(v[i]);
      assert Seen(w)[j] == r;
    }
  }

  lemma SeenIsSorted(v: View, at: Idx -> Time, day: Time -> Time)
    requires WindowView(v, at, day)
    ensures Sorted(Seen(v))
  {
  }

  /** What the widget shows depends only on which messages are in its window, not on how
      the window got there: two runs, with any batches and removals, that end with the
      same messages end with the same rows. */
  lemma WindowIsDetermined(one: seq<WindowCommand>, other: seq<WindowCommand>,
                           at: Idx -> Time, day: Time -> Time, dateLine: Time -> Line)
    requires Chronicle(at) && StartOfDay(day)
    requires forall c :: c in one + other ==> FromLog(c, at)
    requires ShowSame(WindowRun(one, day, dateLine), WindowRun(other, day, dateLine))
    ensures Seen(WindowRun(one, day, dateLine)) == Seen(WindowRun(other, day, dateLine))
  {
    hide WindowView, FromLog, Chronicle, StartOfDay, WindowRun, HasIdx;
    var v, w := WindowRun(one, day, dateLine), WindowRun(other, day, dateLine);
    WindowAlways(one, at, day, dateLine);
    WindowAlways(other, at, day, dateLine);
    RowsSeen(v, w, at, day);
    RowsSeen(w, v, at, day);
    SeenIsSorted(v, at, day);
    SeenIsSorted(w, at, day);
    SortedIsUnique(Seen(v), Seen(w));
  }
}
