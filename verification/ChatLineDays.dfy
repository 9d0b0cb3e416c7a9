/** Days over whole runs: every message is shown with the date line of its day, and single
    rows are erased in between. */
module ChatLineDays {
  import opened ChatLineView
  import opened ChatLineOrder
  import opened ChatLineErase

  /** A chronological view in which every message has its day's date line, and every date
      line has a message right below it. */
  ghost predicate DayView(v: View, day: Time -> Time) {
    && Sorted(v) && Timely(v) && Tidy(v)
    && (forall i :: 0 <= i < |v| && v[i].Date? ==> day(v[i].ts) == v[i].ts)
    && (forall i :: 0 <= i < |v| && v[i].Msg? ==> HasDate(v, day(v[i].ts)))
  }

  // ---------- date lines and the messages of their day ----------

  lemma BeforeAt(v: View, i: nat, j: nat)
    requires Sorted(v) && i < j < |v|
    ensures Before(v[i], v[j])
  {
  }

  /** The message right below a date line belongs to its day. */
  lemma NextIsOfDay(v: View, day: Time -> Time, i: nat)
    requires StartOfDay(day) && DayView(v, day) && i < |v| && v[i].Date?
    ensures i + 1 < |v| && v[i + 1].Msg? && day(v[i + 1].ts) == v[i].ts
  {
    hide Sorted, Timely;
    var t := v[i + 1].ts;
    BeforeAt(v, i, i + 1);
    var j :| 0 <= j < |v| && v[j].Date? && v[j].ts == day(t);
    DayBoundary(v, i + 1, j);
    if j < i {
      BeforeAt(v, j, i);
    }
  }

  /** A date line that goes with an erased message was the day of no other message. */
  lemma DayGoesLast(v: View, day: Time -> Time, p: nat, a: nat)
    requires StartOfDay(day) && DayView(v, day)
    requires 0 < p < |v| && v[p].Msg? && v[p - 1].Date? && EndsDay(v, p)
    requires a < |v| && a != p && v[a].Msg?
    ensures day(v[a].ts) != v[p - 1].ts
  {
    hide Sorted, Timely, Tidy;
    if day(v[a].ts) == v[p - 1].ts {
      DayBoundary(v, a, p - 1);
      BeforeAt(v, p - 1, p + 1);
      BeforeAt(v, p + 1, a);
    }
  }

  // ---------- erasing a message ----------

  /** Where a row that survives stood before. */
  function Source(v: View, p: nat, i: nat): nat
    requires p < |v|
  {
    if i < p - Cascade(v, p) then i else i + Cascade(v, p) + 1
  }

  lemma RowSource(v: View, p: nat, i: nat)
    requires p < |v| && i < |EraseAt(v, p)|
    ensures var a := Source(v, p, i);
            && a < |v| && a != p
            && EraseAt(v, p)[i].Date? == v[a].Date? && EraseAt(v, p)[i].ts == v[a].ts
  {
    EraseKeepsRows(v, p, i);
  }

  /** A date row that is not part of the cascade survives. */
  lemma DateSurvives(v: View, p: nat, b: nat)
    requires p < |v| && b < |v| && v[b].Date? && b != p && !(p - Cascade(v, p) <= b < p)
    ensures HasDate(EraseAt(v, p), v[b].ts)
  {
    var i := if b < p then b else b - Cascade(v, p) - 1;
    RowSource(v, p, i);
  }

  lemma MessageKeepsDay(v: View, day: Time -> Time, p: nat, a: nat)
    requires StartOfDay(day) && DayView(v, day) && p < |v| && v[p].Msg?
    requires a < |v| && a != p && v[a].Msg?
    ensures HasDate(EraseAt(v, p), day(v[a].ts))
  {
    hide EraseAt, Sorted, Timely;
    var b :| 0 <= b < |v| && v[b].Date? && v[b].ts == day(v[a].ts);
    EraseKeepsTidy(v, p);
    if p - Cascade(v, p) <= b < p {
      DayGoesLast(v, day, p, a);
    } else {
      DateSurvives(v, p, b);
    }
  }

  lemma EraseKeepsDays(v: View, day: Time -> Time, p: nat)
    requires StartOfDay(day) && DayView(v, day) && p < |v| && v[p].Msg?
    ensures DayView(EraseAt(v, p), day)
  {
    hide EraseAt, Cascade, Sorted, Timely, Tidy;
    var w := EraseAt(v, p);
    EraseKeepsOrder(v, p);
    EraseIsTimely(v, p);
    EraseKeepsTidy(v, p);
    forall i | 0 <= i < |w| && w[i].Date?
      ensures day(w[i].ts) == w[i].ts
    {
      RowSource(v, p, i);
    }
    forall i | 0 <= i < |w| && w[i].Msg?
      ensures HasDate(w, day(w[i].ts))
    {
      RowSource(v, p, i);
      MessageKeepsDay(v, day, p, Source(v, p, i));
    }
  }

  // ---------- showing a message with its date line ----------

  /** The message is shown already, or fits in time with those shown. */
  ghost predicate FitsIn(v: View, m: Message) {
    if HasIdx(v, m.idx) then exists i :: 0 <= i < |v| && v[i].Msg? && v[i].ts == m.ts
    else Timely(v + [Msg(m.idx, m.ts, m.line, true)])
  }

  /** The searches for the places of new rows pass no message that lost its entry. */
  ghost predicate FindsPlace(v: View, idx: Idx) {
    HasIdx(v, idx) || SeekIsExact(v, FromIdx(idx))
  }

  ghost predicate FindsDay(v: View, d: Time) {
    HasDate(v, d) || SeekIsExact(v, FromTime(d))
  }

  ghost function ShowMessage(v: View, m: Message): View {
    InsertMsg(v, m.idx, m.ts, m.line)
  }

  ghost function ShowWithDay(v: View, m: Message, day: Time -> Time, dateLine: Time -> Line): View {
    Insert(ShowMessage(v, m), Date(day(m.ts), dateLine(day(m.ts))))
  }

  /** Some message of this day is shown. */
  ghost predicate HasMessageOf(v: View, day: Time -> Time, d: Time) {
    exists j :: 0 <= j < |v| && v[j].Msg? && day(v[j].ts) == d
  }

  /** After the message, before its date line. */
  ghost predicate DayMissing(v: View, day: Time -> Time, d: Time) {
    && Sorted(v) && Timely(v)
    && (forall i :: 0 <= i < |v| && v[i].Date? ==>
                      day(v[i].ts) == v[i].ts && HasMessageOf(v, day, v[i].ts))
    && (forall i :: 0 <= i < |v| && v[i].Msg? ==> HasDate(v, day(v[i].ts)) || day(v[i].ts) == d)
    && HasMessageOf(v, day, d)
  }

  lemma InsertedAt(v: View, p: nat, r: Row)
    requires p <= |v|
    ensures var w := InsertAt(v, p, r);
            && |w| == |v| + 1 && w[p] == r
            && (forall i :: 0 <= i < p ==> w[i] == v[i])
            && (forall i :: p < i < |w| ==> w[i] == v[i - 1])
            && (forall i :: p <= i < |v| ==> w[i + 1] == v[i])
  {
  }

  lemma HasDateInserted(v: View, p: nat, r: Row, d: Time)
    requires p <= |v| && HasDate(v, d)
    ensures HasDate(InsertAt(v, p, r), d)
  {
    var i :| 0 <= i < |v| && v[i].Date? && v[i].ts == d;
    assert InsertAt(v, p, r)[if i < p then i else i + 1] == v[i];
  }

  lemma InsertedMessageDays(v: View, day: Time -> Time, p: nat, r: Row)
    requires StartOfDay(day) && DayView(v, day) && p <= |v| && r.Msg?
    requires Sorted(InsertAt(v, p, r)) && Timely(InsertAt(v, p, r))
    ensures DayMissing(InsertAt(v, p, r), day, day(r.ts))
  {
    hide Sorted, Timely, InsertAt, Tidy;
    var w := InsertAt(v, p, r);
    InsertedAt(v, p, r);
    assert w[p].Msg? && day(w[p].ts) == day(r.ts);
    forall i | 0 <= i < |w| && w[i].Date?
      ensures day(w[i].ts) == w[i].ts && HasMessageOf(w, day, w[i].ts)
    {
      var a := if i < p then i else i - 1;
      NextIsOfDay(v, day, a);
      assert w[if a + 1 < p then a + 1 else a + 2] == v[a + 1];
    }
    forall i | 0 <= i < |w| && w[i].Msg? && i != p
      ensures HasDate(w, day(w[i].ts))
    {
      var a := if i < p then i else i - 1;
      assert HasDate(v, day(v[a].ts));
      HasDateInserted(v, p, r, day(v[a].ts));
    }
  }

  lemma ShowMessageStep(v: View, day: Time -> Time, m: Message)
    requires StartOfDay(day) && DayView(v, day) && FitsIn(v, m) && FindsPlace(v, m.idx)
    ensures DayMissing(ShowMessage(v, m), day, day(m.ts))
  {
    hide Sorted, Timely, SeekIsExact, InsertAt, HasIdx;
    if HasIdx(v, m.idx) {
      forall i | 0 <= i < |v| && v[i].Date?
        ensures HasMessageOf(v, day, v[i].ts)
      {
        NextIsOfDay(v, day, i);
      }
    } else {
      var r, p := Msg(m.idx, m.ts, m.line, true), MsgPos(v, m.idx, m.ts);
      InsertMsgKeepsOrder(v, m.idx, m.ts, m.line);
      InsertIsTimely(v, p, r);
      InsertedMessageDays(v, day, p, r);
    }
  }

  /** Once every date line has a message of its day, no date line is last or adjacent to
      another. */
  lemma UsedIsTidy(v: View, day: Time -> Time, d: Time)
    requires StartOfDay(day) && DayMissing(v, day, d)
    ensures Tidy(v)
  {
    hide Sorted, Timely;
    forall i | 0 <= i < |v| && v[i].Date?
      ensures i + 1 < |v| && v[i + 1].Msg?
    {
      var j :| 0 <= j < |v| && v[j].Msg? && day(v[j].ts) == v[i].ts;
      DayNotEmpty(v, i, j, day, if i + 1 < |v| then v[i + 1].ts else 0);
    }
  }

  lemma DateIsThere(v: View, p: nat, r: Row)
    requires p <= |v| && r.Date?
    ensures HasDate(InsertAt(v, p, r), r.ts)
  {
    assert InsertAt(v, p, r)[p] == r;
  }

  lemma HasMessageInserted(v: View, day: Time -> Time, p: nat, r: Row, d: Time)
    requires p <= |v| && HasMessageOf(v, day, d)
    ensures HasMessageOf(InsertAt(v, p, r), day, d)
  {
    var j :| 0 <= j < |v| && v[j].Msg? && day(v[j].ts) == d;
    assert InsertAt(v, p, r)[if j < p then j else j + 1] == v[j];
  }

  lemma InsertedDateDays(v: View, day: Time -> Time, p: nat, r: Row)
    requires StartOfDay(day) && r.Date? && day(r.ts) == r.ts && DayMissing(v, day, r.ts) && p <= |v|
    requires Sorted(InsertAt(v, p, r)) && Timely(InsertAt(v, p, r))
    ensures var w := InsertAt(v, p, r);
            DayMissing(w, day, r.ts) && forall i :: 0 <= i < |w| && w[i].Msg? ==> HasDate(w, day(w[i].ts))
  {
    hide Sorted, Timely, InsertAt;
    hide HasDate, HasMessageOf;
    var w := InsertAt(v, p, r);
    InsertedAt(v, p, r);
    DateIsThere(v, p, r);
    HasMessageInserted(v, day, p, r, r.ts);
    forall i | 0 <= i < |w| && w[i].Date?
      ensures day(w[i].ts) == w[i].ts && HasMessageOf(w, day, w[i].ts)
    {
      assert w[i] == if i < p then v[i] else if i == p then r else v[i - 1];
      HasMessageInserted(v, day, p, r, w[i].ts);
    }
    forall i | 0 <= i < |w| && w[i].Msg?
      ensures HasDate(w, day(w[i].ts))
    {
      var a := if i < p then i else i - 1;
      if HasDate(v, day(v[a].ts)) {
        HasDateInserted(v, p, r, day(v[a].ts));
      }
    }
  }

  lemma ShowDayStep(v: View, day: Time -> Time, d: Time, line: Line)
    requires StartOfDay(day) && day(d) == d && DayMissing(v, day, d) && FindsDay(v, d)
    ensures DayView(Insert(v, Date(d, line)), day)
  {
    hide Sorted, Timely, SeekIsExact, InsertAt, HasDate, Tidy;
    if HasDate(v, d) {
      UsedIsTidy(v, day, d);
    } else {
      var r, p := Date(d, line), DatePos(v, d);
      InsertDateKeepsOrder(v, d, line);
      DateIsTimely(v, r);
      InsertIsTimely(v, p, r);
      InsertedDateDays(v, day, p, r);
      UsedIsTidy(InsertAt(v, p, r), day, d);
    }
  }

  // ---------- runs ----------

  datatype DayCommand = ShowOne(m: Message) | EraseOne(pos: nat)

  ghost function PerformDay(v: View, c: DayCommand, day: Time -> Time, dateLine: Time -> Line): View {
    match c
    case ShowOne(m) => ShowWithDay(v, m, day, dateLine)
    case EraseOne(p) => if p < |v| then EraseAt(v, p) else v
  }

  ghost function DayRun(cs: seq<DayCommand>, day: Time -> Time, dateLine: Time -> Line): View {
    if cs == [] then []
    else PerformDay(DayRun(cs[..|cs| - 1], day, dateLine), cs[|cs| - 1], day, dateLine)
  }

  ghost predicate ShowsFitting(v: View, c: DayCommand) {
    c.ShowOne? ==> FitsIn(v, c.m)
  }

  /** What is erased is a message, and the searches of insertions are exact. */
  ghost predicate KeepsToDays(v: View, c: DayCommand, day: Time -> Time) {
    match c
    case ShowOne(m) => FindsPlace(v, m.idx) && FindsDay(ShowMessage(v, m), day(m.ts))
    case EraseOne(p) => p < |v| ==> v[p].Msg?
  }

  lemma NoDays(day: Time -> Time)
    ensures DayView([], day)
  {
  }

  lemma DayStep(v: View, c: DayCommand, day: Time -> Time, dateLine: Time -> Line)
    requires StartOfDay(day) && DayView(v, day) && ShowsFitting(v, c) && KeepsToDays(v, c, day)
    ensures DayView(PerformDay(v, c, day, dateLine), day)
  {
    hide DayView, DayMissing, EraseAt, ShowMessage, FitsIn, FindsPlace, FindsDay;
    match c
    case ShowOne(m) =>
      ShowMessageStep(v, day, m);
      ShowDayStep(ShowMessage(v, m), day, day(m.ts), dateLine(day(m.ts)));
    case EraseOne(p) =>
      if p < |v| {
        EraseKeepsDays(v, day, p);
      }
  }

  lemma SortedBefore(v: View, p: nat, r: Row)
    requires p <= |v| && Sorted(InsertAt(v, p, r))
    ensures Sorted(v)
  {
    InsertedAt(v, p, r);
    forall i, j | 0 <= i < j < |v|
      ensures Before(v[i], v[j])
    {
      BeforeAt(InsertAt(v, p, r), if i < p then i else i + 1, if j < p then j else j + 1);
    }
  }

  /** A message or a date line out of place stays so. */
  lemma ShowMisplaces(v: View, day: Time -> Time, m: Message, dateLine: Time -> Line)
    requires StartOfDay(day) && DayView(v, day) && FitsIn(v, m)
    requires !FindsPlace(v, m.idx) || !FindsDay(ShowMessage(v, m), day(m.ts))
    ensures !Sorted(ShowWithDay(v, m, day, dateLine))
  {
    hide Sorted, Timely, SeekIsExact, InsertAt, HasIdx, HasDate, Tidy;
    var w, d := ShowMessage(v, m), day(m.ts);
    if !FindsPlace(v, m.idx) {
      InsertMsgKeepsOrder(v, m.idx, m.ts, m.line);
      if !HasDate(w, d) && Sorted(ShowWithDay(v, m, day, dateLine)) {
        SortedBefore(w, DatePos(w, d), Date(d, dateLine(d)));
      }
    } else {
      ShowMessageStep(v, day, m);
      InsertDateKeepsOrder(w, d, dateLine(d));
    }
  }

  lemma MessageBelow(v: View, p: nat)
    requires p + 1 < |v| && v[p + 1].Msg?
    ensures Cascade(v, p) == 0 && |EraseAt(v, p)| == |v| - 1
  {
  }

  /** Erasing a date line itself leaves its messages without one. */
  lemma EraseDateLosesDay(v: View, day: Time -> Time, p: nat)
    requires StartOfDay(day) && DayView(v, day) && p < |v| && v[p].Date?
    ensures !DayView(EraseAt(v, p), day)
  {
    hide Sorted, Timely, Tidy, EraseAt;
    var w := EraseAt(v, p);
    NextIsOfDay(v, day, p);
    MessageBelow(v, p);
    RowSource(v, p, p);
    if HasDate(w, v[p].ts) {
      var i :| 0 <= i < |w| && w[i].Date? && w[i].ts == v[p].ts;
      RowSource(v, p, i);
      var a := Source(v, p, i);
      BeforeAt(v, if a < p then a else p, if a < p then p else a);
    }
  }

  lemma DayStepIff(v: View, c: DayCommand, day: Time -> Time, dateLine: Time -> Line)
    requires StartOfDay(day) && DayView(v, day) && ShowsFitting(v, c)
    ensures DayView(PerformDay(v, c, day, dateLine), day) <==> KeepsToDays(v, c, day)
  {
    hide Sorted, Timely, Tidy, StartOfDay, EraseAt, ShowMessage, ShowWithDay, FitsIn, FindsPlace, FindsDay;
    if KeepsToDays(v, c, day) {
      DayStep(v, c, day, dateLine);
    } else if c.ShowOne? {
      ShowMisplaces(v, day, c.m, dateLine);
    } else {
      EraseDateLosesDay(v, day, c.pos);
    }
  }

  lemma DayRunPrefix(cs: seq<DayCommand>, n: nat, day: Time -> Time, dateLine: Time -> Line)
    requires n < |cs|
    ensures DayRun(cs[..n + 1], day, dateLine) == PerformDay(DayRun(cs[..n], day, dateLine), cs[n], day, dateLine)
  {
    assert cs[..n + 1][..n] == cs[..n];
  }

  lemma {:induction false} DaysUpTo(cs: seq<DayCommand>, n: nat, day: Time -> Time, dateLine: Time -> Line)
    requires StartOfDay(day) && n <= |cs|
    requires forall m :: 0 <= m < |cs| ==> ShowsFitting(DayRun(cs[..m], day, dateLine), cs[m])
    requires forall m :: 0 <= m < n ==> KeepsToDays(DayRun(cs[..m], day, dateLine), cs[m], day)
    ensures DayView(DayRun(cs[..n], day, dateLine), day)
  {
    hide DayView, ShowsFitting, KeepsToDays, PerformDay;
    if n == 0 {
      NoDays(day);
    } else {
      DaysUpTo(cs, n - 1, day, dateLine);
      DayStepIff(DayRun(cs[..n - 1], day, dateLine), cs[n - 1], day, dateLine);
      DayRunPrefix(cs, n - 1, day, dateLine);
    }
  }

  /** Over every run that shows messages with their date lines and erases rows, in any
      order: every state is chronological and tidy with each message's day shown, exactly
      when only messages are erased and every search for a place is exact. */
  lemma {:induction false} DaysAlwaysIff(cs: seq<DayCommand>, day: Time -> Time, dateLine: Time -> Line)
    requires StartOfDay(day)
    requires forall n :: 0 <= n < |cs| ==> ShowsFitting(DayRun(cs[..n], day, dateLine), cs[n])
    ensures (forall n :: 0 <= n <= |cs| ==> DayView(DayRun(cs[..n], day, dateLine), day)) <==>
            (forall n :: 0 <= n < |cs| ==> KeepsToDays(DayRun(cs[..n], day, dateLine), cs[n], day))
  {
    hide DayView, ShowsFitting, KeepsToDays, PerformDay, DayRun;
    if forall n :: 0 <= n < |cs| ==> KeepsToDays(DayRun(cs[..n], day, dateLine), cs[n], day) {
      forall n | 0 <= n <= |cs|
        ensures DayView(DayRun(cs[..n], day, dateLine), day)
      {
        DaysUpTo(cs, n, day, dateLine);
      }
    } else if forall n :: 0 <= n <= |cs| ==> DayView(DayRun(cs[..n], day, dateLine), day) {
      var n :| 0 <= n < |cs| && !KeepsToDays(DayRun(cs[..n], day, dateLine), cs[n], day);
      DayStepIff(DayRun(cs[..n], day, dateLine), cs[n], day, dateLine);
      DayRunPrefix(cs, n, day, dateLine);
    }
  }

  /** In such a state each message stands below the date line of its day. */
  lemma BelowItsDay(v: View, day: Time -> Time, i: nat)
    requires StartOfDay(day) && DayView(v, day) && i < |v| && v[i].Msg?
    ensures exists j :: 0 <= j < i && v[j].Date? && v[j].ts == day(v[i].ts)
  {
    hide Sorted, Timely, Tidy;
    var j :| 0 <= j < |v| && v[j].Date? && v[j].ts == day(v[i].ts);
    DayBoundary(v, i, j);
  }
}
