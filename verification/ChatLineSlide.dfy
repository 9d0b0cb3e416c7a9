/** Moving the chat widget's window to another part of the log: the lines outside are
    removed, and the missing ones are shown. */
module ChatLineSlide {
  import opened ChatLineView
  import opened ChatLineOrder
  import opened ChatLineErase
  import opened ChatLineDays
  import opened ChatLineStorage
  import opened ChatLineRemoval
  import opened ChatLineRange
  import opened ChatLineWindow

  /** The chat log up to an index, the day function, and the line objects made for its
      messages and days. */
  datatype Log = Log(next: Idx, at: Idx -> Time, day: Time -> Time, line: Idx -> Line, dateLine: Time -> Line)

  ghost predicate GoodLog(l: Log) {
    && Chronicle(l.at) && StartOfDay(l.day)
    && (forall i, j :: l.line(i) == l.line(j) ==> i == j)
    && (forall t, u :: l.dateLine(t) == l.dateLine(u) ==> t == u)
    && (forall i, t :: l.line(i) != l.dateLine(t))
  }

  /** Every row shows the object made for it. */
  ghost predicate Labelled(v: View, l: Log) {
    forall i :: 0 <= i < |v| ==> v[i].line == if v[i].Msg? then l.line(v[i].idx) else l.dateLine(v[i].ts)
  }

  ghost predicate LogView(v: View, l: Log) {
    WindowView(v, l.at, l.day) && Labelled(v, l)
  }

  // ---------- showing messages ----------

  function MessageAt(l: Log, idx: Idx): Message {
    Message(idx, l.at(idx), l.line(idx))
  }

  /** The messages from begin up to end that are not shown. */
  ghost function NewOnes(v: View, l: Log, begin: Idx, end: Idx): seq<Message> {
    if end <= begin then []
    else NewOnes(v, l, begin, end - 1) + if HasIdx(v, end - 1) then [] else [MessageAt(l, end - 1)]
  }

  ghost function Rendered(v: View, l: Log, begin: Idx, end: Idx): View {
    if begin >= l.next then v
    else ShowAll(v, NewOnes(v, l, begin, if end > l.next then l.next else end), l.day, l.dateLine)
  }

  ghost predicate AllFromLog(ms: seq<Message>, l: Log) {
    forall m :: m in ms ==> m == MessageAt(l, m.idx)
  }

  lemma {:induction false} NewOnesAre(v: View, l: Log, begin: Idx, end: Idx)
    ensures forall m :: m in NewOnes(v, l, begin, end) ==>
                          m == MessageAt(l, m.idx) && begin <= m.idx < end && !HasIdx(v, m.idx)
    ensures forall idx :: begin <= idx < end && !HasIdx(v, idx) ==> MessageAt(l, idx) in NewOnes(v, l, begin, end)
    decreases end
  {
    if begin < end {
      NewOnesAre(v, l, begin, end - 1);
    }
  }

  lemma LabelledInsert(v: View, l: Log, r: Row)
    requires Labelled(v, l) && r.line == if r.Msg? then l.line(r.idx) else l.dateLine(r.ts)
    requires r.Msg? ==> r.indexed
    ensures Labelled(Insert(v, r), l)
  {
    hide Insert;
    InsertedIndexes(v, r, 0);
    var w := Insert(v, r);
    forall i | 0 <= i < |w|
      ensures w[i].line == if w[i].Msg? then l.line(w[i].idx) else l.dateLine(w[i].ts)
    {
      assert w[i] in w;
    }
  }

  /** The objects for a message and for a day that are not shown are new to the view. */
  lemma NewIsFresh(v: View, l: Log, idx: Idx, d: Time)
    requires GoodLog(l) && Labelled(v, l) && Covered(v)
    ensures HasIdx(v, idx) || Fresh(v, l.line(idx))
    ensures HasDate(v, d) || Fresh(v, l.dateLine(d))
  {
  }

  lemma ShownDate(v: View, l: Log, m: Message)
    requires GoodLog(l) && Labelled(v, l) && Covered(v) && m == MessageAt(l, m.idx)
    ensures var w := ShowMessage(v, m); Labelled(w, l) && Covered(w)
    ensures var w := ShowWithDay(v, m, l.day, l.dateLine); Labelled(w, l) && Covered(w)
  {
    hide Insert, Covered, Labelled, GoodLog, Logged;
    var r, d := Msg(m.idx, m.ts, m.line, true), l.day(m.ts);
    ShowIsInsert(v, m);
    LabelledInsert(v, l, r);
    InsertCovers(v, r);
    var w := ShowMessage(v, m);
    LabelledInsert(w, l, Date(d, l.dateLine(d)));
    InsertCovers(w, Date(d, l.dateLine(d)));
  }

  lemma InsertCovers(v: View, r: Row)
    requires Covered(v) && (r.Msg? ==> r.indexed)
    ensures Covered(Insert(v, r))
  {
    hide InsertAt, Covered;
    match r
    case Msg(idx, ts, line, indexed) => CoveredInsert(v, MsgPos(v, idx, ts), r);
    case Date(ts, line) => CoveredInsert(v, DatePos(v, ts), r);
  }

  lemma {:induction false} BatchIsLabelled(v: View, l: Log, ms: seq<Message>)
    requires GoodLog(l) && Labelled(v, l) && Covered(v) && AllFromLog(ms, l)
    ensures var w := ShowAll(v, ms, l.day, l.dateLine); Labelled(w, l) && Covered(w)
    decreases |ms|
  {
    hide Labelled, Covered, GoodLog, ShowWithDay;
    if ms != [] {
      BatchIsLabelled(v, l, ms[..|ms| - 1]);
      ShownDate(ShowAll(v, ms[..|ms| - 1], l.day, l.dateLine), l, ms[|ms| - 1]);
    }
  }

  /** Shows the messages of a batch one by one, each with its date line if that is missing. */
  method InsertChatlines(storage: Storage, l: Log, ms: seq<Message>)
    requires storage.Valid() && GoodLog(l) && Labelled(storage.view, l) && Covered(storage.view) && AllFromLog(ms, l)
    modifies storage
    ensures storage.Valid()
    ensures storage.view == ShowAll(old(storage.view), ms, l.day, l.dateLine)
  {
    hide GoodLog, Labelled, Covered, HasIdx, HasDate, Fresh, InsertMsg, InsertDate;
    ghost var v := storage.view;
    var k := 0;
    while k < |ms|
      invariant k <= |ms| && storage.Valid() && storage.view == ShowAll(v, ms[..k], l.day, l.dateLine)
    {
      ghost var w := storage.view;
      var m := ms[k];
      BatchIsLabelled(v, l, ms[..k]);
      assert m in ms;
      NewIsFresh(w, l, m.idx, 0);
      var it := storage.InsertChatMessage(m.idx, l.at(m.idx), l.line(m.idx));
      var date := l.day(l.at(m.idx));
      ShownDate(w, l, m);
      NewIsFresh(storage.view, l, 0, date);
      var shown := storage.ContainsTime(date);
      if !shown {
        it := storage.InsertDateLine(date, l.dateLine(date));
      }
      assert storage.view == ShowWithDay(w, m, l.day, l.dateLine);
      assert ms[..k + 1][..k] == ms[..k] && ms[..k + 1][k] == m;
      k := k + 1;
    }
    assert ms[..k] == ms;
  }

  method RenderMessages(storage: Storage, l: Log, begin: Idx, end: Idx)
    requires storage.Valid() && GoodLog(l) && Labelled(storage.view, l) && Covered(storage.view)
    modifies storage
    ensures storage.Valid()
    ensures storage.view == Rendered(old(storage.view), l, begin, end)
  {
    hide GoodLog, Labelled, Covered, HasIdx, ShowAll;
    if begin >= l.next {
      return;
    }
    var stop := if end > l.next then l.next else end;
    var lines: seq<Message> := [];
    var i := begin;
    while i < stop
      invariant begin <= i && (i <= stop || i == begin)
      invariant lines == NewOnes(storage.view, l, begin, i)
      invariant storage.Valid() && storage.view == old(storage.view)
    {
      var shown := storage.ContainsIdx(i);
      if !shown {
        lines := lines + [MessageAt(l, i)];
      }
      i := i + 1;
    }
    NewOnesAre(storage.view, l, begin, stop);
    assert stop <= begin ==> NewOnes(storage.view, l, begin, stop) == [] == NewOnes(storage.view, l, begin, i);
    InsertChatlines(storage, l, lines);
  }

  // ---------- moving the window ----------

  /** The index some way down the log, or its end. */
  function ClampedAdd(l: Log, idx: Idx, val: nat): Idx {
    if idx + val > l.next then l.next else idx + val
  }

  /** The view after the start of the window has been set. */
  ghost function Slid(v: View, l: Log, begin: Idx, maxWindowSize: nat): View
    requires IdxIncreasing(v)
  {
    var end := ClampedAdd(l, begin, maxWindowSize);
    if IndexOf(v) == [] then Rendered(v, l, begin, end)
    else
      FirstBelowLast(v);
      var currentStart, currentEnd := IndexOf(v)[0].idx, IndexOf(v)[|IndexOf(v)| - 1].idx + 1;
      if currentStart == begin then v
      else if currentStart < begin < currentEnd then
        ClampKeepsRange(v, currentStart, begin);
        Rendered(RemoveClamped(v, currentStart, begin), l, currentEnd, end)
      else if currentStart < end <= currentEnd then
        ClampKeepsRange(v, end, currentEnd);
        Rendered(RemoveClamped(v, end, currentEnd), l, begin, currentStart)
      else
        ClampKeepsRange(v, currentStart, currentEnd);
        Rendered(RemoveClamped(v, currentStart, currentEnd), l, begin, end)
  }

  lemma RemovedIsLabelled(v: View, l: Log, begin: Idx, end: Idx)
    requires LogView(v, l) && GoodLog(l) && begin <= end
    ensures IsClampedRange(v, begin, end)
    ensures LogView(RemoveClamped(v, begin, end), l)
  {
    hide WindowView, IsClampedRange, RemoveClamped, GoodLog, IndexOf, IsRange;
    WindowIncreasing(v, l.at, l.day);
    NothingNew(v, begin, end);
    var w := RemoveClamped(v, begin, end);
    forall i | 0 <= i < |w|
      ensures w[i].line == if w[i].Msg? then l.line(w[i].idx) else l.dateLine(w[i].ts)
    {
      assert w[i] in v;
    }
    ClampedKeepsWindow(v, l, begin, end);
  }

  lemma ClampedKeepsWindow(v: View, l: Log, begin: Idx, end: Idx)
    requires WindowView(v, l.at, l.day) && GoodLog(l) && IsClampedRange(v, begin, end)
    ensures WindowView(RemoveClamped(v, begin, end), l.at, l.day)
  {
    hide WindowView, IndexOf, IsRange, RemoveRange, Chronicle, StartOfDay;
    if IndexOf(v) != [] {
      RemoveKeepsWindow(v, l.at, l.day, ClampedBegin(v, begin), ClampedEnd(v, end));
    }
  }

  lemma ViewMarks(v: View, l: Log)
    requires LogView(v, l)
    ensures Covered(v) && Labelled(v, l) && IdxIncreasing(v)
  {
    WindowIncreasing(v, l.at, l.day);
  }

  /** Moves the window so that it starts at this index: what falls outside is removed, and
      what is missing is shown. */
  method SetRenderedWindowStart(storage: Storage, l: Log, begin: Idx, maxWindowSize: nat)
    requires storage.Valid() && GoodLog(l) && LogView(storage.view, l) && begin <= l.next
    modifies storage
    ensures storage.Valid() && IdxIncreasing(old(storage.view))
    ensures storage.view == Slid(old(storage.view), l, begin, maxWindowSize)
  {
    hide GoodLog, LogView, Labelled, Covered, HasIdx, RemoveClamped, IsClampedRange, Rendered, IndexOf, Represents;
    ghost var v := storage.view;
    ViewMarks(v, l);
    var end := ClampedAdd(l, begin, maxWindowSize);
    var any := storage.HasIndexedMessage();
    SomeIndexed(v);
    if !any {
      RenderMessages(storage, l, begin, end);
      return;
    }
    var first := storage.FirstIdx();
    var last := storage.LastIdx();
    FirstBelowLast(v);
    var currentStart, currentEnd := first, last + 1;
    if currentStart == begin {
      return;
    }
    if currentStart < begin < currentEnd {
      RemovedIsLabelled(v, l, currentStart, begin);
      RemoveLines(storage, currentStart, begin);
      ViewMarks(storage.view, l);
      RenderMessages(storage, l, currentEnd, end);
    } else if currentStart < end <= currentEnd {
      RemovedIsLabelled(v, l, end, currentEnd);
      RemoveLines(storage, end, currentEnd);
      ViewMarks(storage.view, l);
      RenderMessages(storage, l, begin, currentStart);
    } else {
      RemovedIsLabelled(v, l, currentStart, currentEnd);
      RemoveLines(storage, currentStart, currentEnd);
      ViewMarks(storage.view, l);
      RenderMessages(storage, l, begin, end);
    }
  }

  // ---------- what the window shows afterwards ----------

  /** Exactly the messages from one index up to another are shown. */
  ghost predicate ShownAre(v: View, begin: Idx, end: Idx) {
    forall idx: Idx :: HasIdx(v, idx) <==> begin <= idx < end
  }

  lemma RenderedIndexes(v: View, l: Log, begin: Idx, end: Idx, idx: Idx)
    ensures HasIdx(Rendered(v, l, begin, end), idx) <==> HasIdx(v, idx) || (begin <= idx < end && idx < l.next)
  {
    hide HasIdx, NewOnes;
    if begin < l.next {
      var stop := if end > l.next then l.next else end;
      NewOnesAre(v, l, begin, stop);
      BatchIsShown(v, NewOnes(v, l, begin, stop), l.day, l.dateLine, idx);
      if begin <= idx < stop && !HasIdx(v, idx) {
        assert MessageAt(l, idx).idx == idx;
      }
    }
  }

  lemma RenderedIsLogView(v: View, l: Log, begin: Idx, end: Idx)
    requires LogView(v, l) && GoodLog(l)
    ensures LogView(Rendered(v, l, begin, end), l)
  {
    hide WindowView, Labelled, Chronicle, StartOfDay, NewOnes;
    if begin < l.next {
      var stop := if end > l.next then l.next else end;
      var ms := NewOnes(v, l, begin, stop);
      NewOnesAre(v, l, begin, stop);
      ViewMarks(v, l);
      BatchIsLabelled(v, l, ms);
      BatchIsTidy(v, ms, l.at, l.day, l.dateLine);
    }
  }

  /** Moving the window keeps the view chronological, fully indexed, and each message below
      the date line of its day. */
  lemma SlideKeepsWindow(v: View, l: Log, begin: Idx, maxWindowSize: nat)
    requires LogView(v, l) && GoodLog(l)
    ensures IdxIncreasing(v) && LogView(Slid(v, l, begin, maxWindowSize), l)
  {
    hide LogView, GoodLog, IndexOf, Rendered, RemoveClamped, IsClampedRange;
    ViewMarks(v, l);
    var end := ClampedAdd(l, begin, maxWindowSize);
    if IndexOf(v) == [] {
      RenderedIsLogView(v, l, begin, end);
    } else {
      FirstBelowLast(v);
      var currentStart, currentEnd := IndexOf(v)[0].idx, IndexOf(v)[|IndexOf(v)| - 1].idx + 1;
      if currentStart < begin < currentEnd {
        RemovedIsLabelled(v, l, currentStart, begin);
        RenderedIsLogView(RemoveClamped(v, currentStart, begin), l, currentEnd, end);
      } else if currentStart < end <= currentEnd {
        RemovedIsLabelled(v, l, end, currentEnd);
        RenderedIsLogView(RemoveClamped(v, end, currentEnd), l, begin, currentStart);
      } else {
        RemovedIsLabelled(v, l, currentStart, currentEnd);
        RenderedIsLogView(RemoveClamped(v, currentStart, currentEnd), l, begin, end);
      }
    }
  }

  lemma ShownBounds(v: View, start: Idx, stop: Idx)
    requires IdxIncreasing(v) && ShownAre(v, start, stop) && start < stop
    ensures IndexOf(v) != [] && IndexOf(v)[0].idx == start && IndexOf(v)[|IndexOf(v)| - 1].idx == stop - 1
  {
    hide IndexOf;
    assert HasIdx(v, start) && HasIdx(v, stop - 1);
    SomeIndexed(v);
    FirstEntryLeast(v);
    LastEntryGreatest(v);
  }

  lemma ReachedIf(v: View, start: Idx, stop: Idx, idx: Idx)
    requires ShownAre(v, start, stop) && start < stop
    ensures Reached(v, idx) <==> idx < stop
  {
    if idx < stop {
      assert HasIdx(v, stop - 1);
    }
    if i :| 0 <= i < |v| && Indexed(v[i]) && idx <= v[i].idx {
      assert HasIdx(v, v[i].idx);
    }
  }

  /** A day starts between two shown messages exactly when they are of different days. */
  lemma DayStartsIff(v: View, l: Log, start: Idx, stop: Idx, begin: Idx)
    requires LogView(v, l) && GoodLog(l) && ShownAre(v, start, stop) && start < begin < stop
    ensures DayStartsInside(v, start, begin) <==> l.day(l.at(start)) != l.day(l.at(begin))
  {
    assert HasIdx(v, start) && HasIdx(v, begin);
    var a :| 0 <= a < |v| && Indexed(v[a]) && v[a].idx == start;
    var b :| 0 <= b < |v| && Indexed(v[b]) && v[b].idx == begin;
    hide ShownAre, HasIdx, Sorted, Timely, Tidy, Labelled, Covered;
    if l.day(l.at(start)) != l.day(l.at(begin)) {
      MidnightIsInside(v, l, a, b);
    }
    if DayStartsInside(v, start, begin) {
      InsideIsMidnight(v, l, a, b);
    }
  }

  lemma MidnightIsInside(v: View, l: Log, a: nat, b: nat)
    requires WindowView(v, l.at, l.day) && Chronicle(l.at) && StartOfDay(l.day)
    requires a < |v| && b < |v| && v[a].Msg? && v[b].Msg? && v[a].idx < v[b].idx
    requires l.day(l.at(v[a].idx)) != l.day(l.at(v[b].idx))
    ensures DayStartsInside(v, v[a].idx, v[b].idx)
  {
    hide Timely, Tidy, Covered;
    var d := l.day(v[b].ts);
    var j :| 0 <= j < |v| && v[j].Date? && v[j].ts == d;
    assert l.at(v[a].idx) <= l.at(v[b].idx);
    assert l.day(v[a].ts) < d;
    DayEnds(l.day, v[a].ts, v[b].ts);
    DayBoundary(v, a, j);
    forall m | 0 <= m < j && v[m].Msg?
      ensures v[m].idx < v[b].idx
    {
      DayBoundary(v, m, j);
      assert l.at(v[m].idx) < d <= l.at(v[b].idx);
    }
  }

  lemma InsideIsMidnight(v: View, l: Log, a: nat, b: nat)
    requires WindowView(v, l.at, l.day) && Chronicle(l.at) && StartOfDay(l.day)
    requires a < |v| && b < |v| && v[a].Msg? && v[b].Msg? && v[a].idx < v[b].idx
    requires DayStartsInside(v, v[a].idx, v[b].idx)
    ensures l.day(l.at(v[a].idx)) != l.day(l.at(v[b].idx))
  {
    hide Timely, Tidy, Covered;
    var i, j :| 0 <= i < j < |v| && v[i].Msg? && v[a].idx <= v[i].idx < v[b].idx && v[j].Date?
                && forall m :: 0 <= m < j && v[m].Msg? ==> v[m].idx < v[b].idx;
    var d := v[j].ts;
    DayBoundary(v, i, j);
    DayBoundary(v, b, j);
    assert l.at(v[a].idx) <= l.at(v[i].idx) < d <= l.at(v[b].idx);
    assert l.day(d) == d && l.day(d) <= l.day(v[b].ts);
  }

  lemma SlideDown(v: View, l: Log, start: Idx, stop: Idx, begin: Idx, end: Idx)
    requires LogView(v, l) && GoodLog(l) && ShownAre(v, start, stop) && start < begin < stop <= l.next
    requires begin < end <= l.next
    ensures IsClampedRange(v, start, begin)
    ensures ShownAre(Rendered(RemoveClamped(v, start, begin), l, stop, end), begin, end) <==>
              stop <= end && l.day(l.at(start)) == l.day(l.at(begin))
  {
    hide RemoveClamped, IsClampedRange, HasIdx, Rendered, DayStartsInside, Labelled, WindowView;
    ViewMarks(v, l);
    DayStartsIff(v, l, start, stop, begin);
    RemovedIndexes(v, start, begin, 0);
    var w := RemoveClamped(v, start, begin);
    var u, last: Idx := Rendered(w, l, stop, end), stop - 1;
    forall idx: Idx
      ensures HasIdx(u, idx) <==> (begin <= idx < stop && !DayStartsInside(v, start, begin)) || stop <= idx < end
    {
      RemovedIndexes(v, start, begin, idx);
      RenderedIndexes(w, l, stop, end, idx);
    }
    if ShownAre(u, begin, end) {
      assert HasIdx(u, begin) && (end < stop ==> HasIdx(u, last));
    }
  }

  lemma SlideUp(v: View, l: Log, start: Idx, stop: Idx, begin: Idx, end: Idx)
    requires LogView(v, l) && GoodLog(l) && ShownAre(v, start, stop) && start < end <= stop <= l.next && begin < start
    ensures IsClampedRange(v, end, stop)
    ensures ShownAre(Rendered(RemoveClamped(v, end, stop), l, begin, start), begin, end) <==> end != stop
  {
    hide RemoveClamped, IsClampedRange, HasIdx, Rendered, DayStartsInside, Labelled, WindowView, Reached;
    ViewMarks(v, l);
    RemovedIndexes(v, end, stop, 0);
    var w := RemoveClamped(v, end, stop);
    var u := Rendered(w, l, begin, start);
    forall idx: Idx
      ensures HasIdx(u, idx) <==> (start <= idx < end && (end < stop || idx + 1 < stop)) || begin <= idx < start
    {
      RemovedIndexes(v, end, stop, idx);
      RenderedIndexes(w, l, begin, start, idx);
      ReachedIf(v, start, stop, end);
      ReachedIf(v, start, stop, idx + 1);
    }
    if ShownAre(u, begin, end) {
      assert HasIdx(u, end - 1);
    }
  }

  lemma SlideAway(v: View, l: Log, start: Idx, stop: Idx, begin: Idx, end: Idx)
    requires LogView(v, l) && GoodLog(l) && ShownAre(v, start, stop) && start < stop && end <= l.next
    ensures IsClampedRange(v, start, stop)
    ensures ShownAre(Rendered(RemoveClamped(v, start, stop), l, begin, end), begin, end)
  {
    hide RemoveClamped, IsClampedRange, HasIdx, Rendered, DayStartsInside, Labelled, WindowView, Reached;
    ViewMarks(v, l);
    RemovedIndexes(v, start, stop, 0);
    var w := RemoveClamped(v, start, stop);
    forall idx: Idx
      ensures HasIdx(Rendered(w, l, begin, end), idx) <==> begin <= idx < end
    {
      RemovedIndexes(v, start, stop, idx);
      RenderedIndexes(w, l, begin, end, idx);
    }
  }

  lemma SameBounds(v: View, start: Idx, one: Idx, other: Idx)
    requires ShownAre(v, start, one) && start < one && start < other
    ensures ShownAre(v, start, other) <==> one == other
  {
    if ShownAre(v, start, other) {
      assert HasIdx(v, one - 1) && HasIdx(v, other - 1);
    }
  }

  /** When does the widget show what it set out to show?  A window of consecutive messages
      is moved to a new start.  Afterwards exactly the messages from there up to the window
      size are shown, except that
      - moving down fails when the new first message is of another day than the old one
        (everything behind the removed lines goes with them), or the window was too long;
      - moving up, or away, fails when the window still ends where it did (the last message
        goes, although nothing had to be removed);
      - nothing is done when the start is the same. */
  lemma SlideShowsIff(v: View, l: Log, start: Idx, stop: Idx, begin: Idx, maxWindowSize: nat)
    requires LogView(v, l) && GoodLog(l) && ShownAre(v, start, stop) && start < stop <= l.next
    requires begin < l.next && maxWindowSize > 0
    ensures IdxIncreasing(v)
    ensures var end := if begin + maxWindowSize > l.next then l.next else begin + maxWindowSize;
            ShownAre(Slid(v, l, begin, maxWindowSize), begin, end) <==>
              if begin == start then end == stop
              else if start < begin < stop then stop <= end && l.day(l.at(start)) == l.day(l.at(begin))
              else end != stop
  {
    hide LogView, GoodLog, IndexOf, Rendered, RemoveClamped, IsClampedRange, HasIdx;
    ViewMarks(v, l);
    ShownBounds(v, start, stop);
    var end := ClampedAdd(l, begin, maxWindowSize);
    if begin == start {
      SameBounds(v, begin, stop, end);
    } else if start < begin < stop {
      SlideDown(v, l, start, stop, begin, end);
    } else if start < end <= stop {
      SlideUp(v, l, start, stop, begin, end);
    } else {
      SlideAway(v, l, start, stop, begin, end);
    }
  }

  // ---------- witnesses ----------

  /** A log of three messages; days begin at 0 and at 10. */
  function SmallLog(at: Idx -> Time): Log {
    Log(3, at, t => if t >= 10 then 10 else if t >= 0 then 0 else t,
        i => 100 * i + 1, t => if t >= 0 then 100 + 10 * t else 5 - 10 * t)
  }

  lemma SmallLogIsGood(at: Idx -> Time)
    requires Chronicle(at)
    ensures GoodLog(SmallLog(at))
  {
  }

  lemma TwoDaysInOrder()
    ensures Sorted(TwoDays()) && Timely(TwoDays()) && Tidy(TwoDays()) && Covered(TwoDays()) && IdxIncreasing(TwoDays())
  {
  }

  lemma TwoDaysShown()
    ensures ShownAre(TwoDays(), 1, 3) && HasDate(TwoDays(), 0) && HasDate(TwoDays(), 10)
  {
    var v := TwoDays();
    assert Indexed(v[1]) && Indexed(v[3]) && v[0].Date? && v[2].Date?;
    assert HasIdx(v, 1) && HasIdx(v, 2);
  }

  lemma TwoDaysView(l: Log)
    requires l == SmallLog(i => if i <= 1 then 1 else 11)
    ensures LogView(TwoDays(), l)
  {
    hide Sorted, Timely, Tidy, Covered, HasDate;
    TwoDaysInOrder();
    TwoDaysShown();
  }

  /** The window shows the last message of one day and the first of the next.  Scrolled
      down by one, it should show the latter, and is empty. */
  lemma SlideOverMidnight()
    ensures var l := SmallLog(i => if i <= 1 then 1 else 11);
            && GoodLog(l) && LogView(TwoDays(), l) && IdxIncreasing(TwoDays()) && ShownAre(TwoDays(), 1, 3)
            && Slid(TwoDays(), l, 2, 5) == []
  {
    hide RemoveRange, IndexOf, GoodLog;
    var v, l := TwoDays(), SmallLog(i => if i <= 1 then 1 else 11);
    SmallLogIsGood(l.at);
    TwoDaysView(l);
    TwoDaysInOrder();
    TwoDaysShown();
    TwoDaysIndex();
    ClampKeepsRange(v, 1, 2);
    RemovalEmptiesView();
    assert RemoveClamped(v, 1, 2) == RemoveRange(v, 1, 2);
  }

  lemma OneDayInOrder()
    ensures Sorted(OneDay()) && Timely(OneDay()) && Tidy(OneDay()) && Covered(OneDay())
  {
  }

  lemma OneDayShown()
    ensures ShownAre(OneDay(), 1, 3) && HasDate(OneDay(), 0)
  {
    var v := OneDay();
    assert Indexed(v[1]) && Indexed(v[2]) && v[0].Date?;
    assert HasIdx(v, 1) && HasIdx(v, 2);
  }

  lemma OneDayView(l: Log)
    requires l == SmallLog(i => i)
    ensures LogView(OneDay(), l)
  {
    hide Sorted, Timely, Tidy, Covered, HasDate;
    OneDayInOrder();
    OneDayShown();
  }

  /** The window shows the last two of three messages.  Scrolled up to the first one, it
      should show all three, and loses the last. */
  lemma SlideUpLosesLast()
    ensures var l := SmallLog(i => i);
            && GoodLog(l) && LogView(OneDay(), l) && IdxIncreasing(OneDay()) && ShownAre(OneDay(), 1, 3)
            && !ShownAre(Slid(OneDay(), l, 0, 5), 0, 3)
  {
    hide GoodLog, LogView, Slid;
    var v, l := OneDay(), SmallLog(i => i);
    SmallLogIsGood(l.at);
    OneDayView(l);
    OneDayShown();
    SlideShowsIff(v, l, 1, 3, 0, 5);
  }
}
