/** The storage of rendered chat lines: a vector of lines, a map of date lines and
    a sorted index of messages, updated in place.  An iterator is a position; the
    end iterator is the length.  `idxInfoMap` is the sorted map as the sequence of
    its entries in key order. */
module ChatLineStorage {
  import opened ChatLineView

  datatype Option<+T> = None | Some(value: T)

  // ---------- what one step does to the containers ----------

  ghost predicate Fresh(v: View, line: Line) {
    forall i :: 0 <= i < |v| ==> v[i].line != line
  }

  ghost predicate ShowsLatest(v: View, latest: map<Idx, Line>) {
    forall i :: 0 <= i < |v| && Indexed(v[i]) ==> v[i].idx in latest && latest[v[i].idx] == v[i].line
  }

  /** The containers hold exactly this view, and every indexed row shows the line
      of the latest insertion of its index. */
  ghost predicate Represents(v: View, ls: seq<Line>, dm: map<Line, Time>, ix: seq<IdxInfo>, latest: map<Idx, Line>) {
    && ls == LinesOf(v)
    && DatesOf(v, dm)
    && ix == IndexOf(v)
    && WellFormed(v)
    && ShowsLatest(v, latest)
  }

  lemma WellFormedInsert(v: View, p: nat, r: Row)
    requires WellFormed(v) && p <= |v| && Fresh(v, r.line)
    requires Indexed(r) ==>
               && (forall i :: 0 <= i < p && Indexed(v[i]) ==> v[i].idx < r.idx)
               && (forall i :: p <= i < |v| && Indexed(v[i]) ==> r.idx < v[i].idx)
    ensures WellFormed(InsertAt(v, p, r))
  {
  }

  /** Where a new message goes: between the indexed messages below and above it. */
  lemma MsgPosSplits(v: View, idx: Idx, ts: Time)
    requires WellFormed(v) && !HasIdx(v, idx)
    ensures forall i :: 0 <= i < MsgPos(v, idx, ts) && Indexed(v[i]) ==> v[i].idx < idx
    ensures forall i :: MsgPos(v, idx, ts) <= i < |v| && Indexed(v[i]) ==> idx < v[i].idx
  {
  }

  lemma DatesInsert(v: View, dm: map<Line, Time>, p: nat, r: Row)
    requires DatesOf(v, dm) && p <= |v| && Fresh(v, r.line)
    ensures DatesOf(InsertAt(v, p, r), if r.Date? then dm[r.line := r.ts] else dm)
  {
    var w := InsertAt(v, p, r);
    assert forall i :: p < i < |w| ==> w[i] == v[i - 1];
    assert forall i :: 0 <= i < p ==> w[i] == v[i];
    var e := if r.Date? then dm[r.line := r.ts] else dm;
    assert r.line !in LinesOf(v);
    forall l | l in e
      ensures l in LinesOf(w)
    {
      if l == r.line {
        assert LinesOf(w)[p] == l;
      } else {
        var i :| 0 <= i < |v| && LinesOf(v)[i] == l;
        assert LinesOf(w)[if i < p then i else i + 1] == l;
      }
    }
  }

  /** The effect of one pass of the erase loop. */
  function EraseStep(v: View, p: nat): (w: View)
    requires p < |v|
    ensures |w| == |v| - 1
    ensures forall i :: 0 <= i < p ==> w[i] == v[i]
    ensures forall i :: p <= i < |w| ==>
                          && w[i].line == v[i + 1].line && w[i].ts == v[i + 1].ts && w[i].Date? == v[i + 1].Date?
                          && (w[i].Msg? ==> w[i].idx == v[i + 1].idx)
                          && (Indexed(w[i]) ==> Indexed(v[i + 1]))
  {
    v[..p] + if Indexed(v[p]) then v[p + 1..] else Unindex(v[p + 1..], 1)
  }

  lemma InsertShowsLatest(v: View, latest: map<Idx, Line>, p: nat, r: Row)
    requires p <= |v| && ShowsLatest(v, latest)
    requires Indexed(r) ==> forall i :: 0 <= i < |v| && Indexed(v[i]) ==> v[i].idx != r.idx
    ensures ShowsLatest(InsertAt(v, p, r), if Indexed(r) then latest[r.idx := r.line] else latest)
  {
  }

  lemma InsertedRows(v: View, p: nat, r: Row)
    requires p <= |v|
    ensures var w := InsertAt(v, p, r);
            && (forall i :: 0 <= i < p ==> w[i] == v[i])
            && (forall i :: p < i < |w| ==> w[i] == v[i - 1])
            && LinesOf(w) == LinesOf(v)[..p] + [r.line] + LinesOf(v)[p..]
  {
  }

  /** Inserting a row keeps the containers in step. */
  lemma InsertRepresents(v: View, ls: seq<Line>, dm: map<Line, Time>, ix: seq<IdxInfo>, latest: map<Idx, Line>,
                         p: nat, r: Row, j: nat)
    requires Represents(v, ls, dm, ix, latest)
    requires p <= |v| && Fresh(v, r.line)
    requires j == |IndexOf(v[..p])|
    requires Indexed(r) ==>
               && (forall i :: 0 <= i < p && Indexed(v[i]) ==> v[i].idx < r.idx)
               && (forall i :: p <= i < |v| && Indexed(v[i]) ==> r.idx < v[i].idx)
    ensures j <= |ix|
    ensures Represents(InsertAt(v, p, r), ls[..p] + [r.line] + ls[p..],
                       if r.Date? then dm[r.line := r.ts] else dm,
                       ix[..j] + EntryOf(r, p) + Shift(ix[j..], 1),
                       if Indexed(r) then latest[r.idx := r.line] else latest)
  {
    hide IndexOf, InsertAt, WellFormed, DatesOf;
    IndexInsert(v, p, r);
    WellFormedInsert(v, p, r);
    DatesInsert(v, dm, p, r);
    InsertedRows(v, p, r);
    InsertShowsLatest(v, latest, p, r);
  }

  /** The containers of a represented view have matching sizes. */
  lemma Lengths(v: View, ls: seq<Line>, dm: map<Line, Time>, ix: seq<IdxInfo>, latest: map<Idx, Line>)
    requires Represents(v, ls, dm, ix, latest)
    ensures ls == LinesOf(v) && ix == IndexOf(v)
    ensures forall i :: 0 <= i < |v| ==> (ls[i] in dm <==> v[i].Date?)
  {
  }

  lemma EraseStepInvariants(v: View, dm: map<Line, Time>, p: nat)
    requires p < |v| && WellFormed(v) && DatesOf(v, dm)
    ensures WellFormed(EraseStep(v, p))
    ensures DatesOf(EraseStep(v, p), dm - {v[p].line})
    ensures LinesOf(EraseStep(v, p)) == LinesOf(v)[..p] + LinesOf(v)[p + 1..]
  {
    var w := EraseStep(v, p);
    forall l | l in dm - {v[p].line}
      ensures l in LinesOf(w)
    {
      var i :| 0 <= i < |v| && LinesOf(v)[i] == l;
      assert LinesOf(w)[if i < p then i else i - 1] == l;
    }
  }

  /** One pass of the erase loop keeps the containers in step. */
  lemma {:induction false} EraseStepRepresents(v: View, ls: seq<Line>, dm: map<Line, Time>, ix: seq<IdxInfo>, latest: map<Idx, Line>,
                            p: nat, j: nat)
    requires Represents(v, ls, dm, ix, latest)
    requires p < |v| && j == |IndexOf(v[..p])|
    ensures j <= |ix|
    ensures Represents(EraseStep(v, p), ls[..p] + ls[p + 1..], dm - {ls[p]},
                       if j == |ix| then ix else ix[..j] + Shift(ix[j + 1..], -1), latest)
    ensures forall k :: j < k < |ix| ==> ix[k].linePos >= 1
  {
    hide IndexOf;
    IndexEraseStep(v, p);
    EraseStepInvariants(v, dm, p);
    forall k | j < k < |ix|
      ensures ix[k].linePos >= 1
    {
      EntriesIncreasing(v, j, k);
      EntrySound(v, j);
    }
  }

  /** A further pass, on the date row just before the hole. */
  lemma EraseStepAgain(v: View, p: nat, q: nat, d: nat)
    requires q < p < |v| && v[q].Date?
    ensures EraseStep(v[..q + 1] + Unindex(v[p + 1..], d), q) == v[..q] + Unindex(v[p + 1..], d + 1)
  {
    var w := v[..q + 1] + Unindex(v[p + 1..], d);
    assert w[q] == v[q];
    assert w[..q] == v[..q];
    assert w[q + 1..] == Unindex(v[p + 1..], d);
    UnindexStep(v[p + 1..], d);
  }

  lemma IndexSorted(v: View, j: nat, k: nat)
    requires IdxIncreasing(v) && j < k < |IndexOf(v)|
    ensures IndexOf(v)[j].idx < IndexOf(v)[k].idx
  {
    hide IndexOf;
    EntrySound(v, j);
    EntrySound(v, k);
    EntriesIncreasing(v, j, k);
  }

  /** A key of the index is exactly the index of an indexed row. */
  lemma HasIdxByEntry(v: View, idx: Idx)
    ensures HasIdx(v, idx) <==> exists k :: 0 <= k < |IndexOf(v)| && IndexOf(v)[k].idx == idx
  {
    hide IndexOf;
    if HasIdx(v, idx) {
      var i :| 0 <= i < |v| && Indexed(v[i]) && v[i].idx == idx;
      EntryAt(v, i);
      assert IndexOf(v)[|IndexOf(v[..i])|].idx == idx;
    }
    if k :| 0 <= k < |IndexOf(v)| && IndexOf(v)[k].idx == idx {
      EntrySound(v, k);
      assert HasIdx(v, IndexOf(v)[k].idx);
    }
  }

  lemma AlreadyShown(v: View, ls: seq<Line>, dm: map<Line, Time>, ix: seq<IdxInfo>, latest: map<Idx, Line>,
                     idx: Idx, ts: Time, line: Line)
    requires Represents(v, ls, dm, ix, latest) && HasIdx(v, idx)
    ensures InsertMsg(v, idx, ts, line) == v && |ls| == |v|
  {
  }

  /** Everything insertChatMessage relies on, given where the index search ended. */
  lemma InsertMsgRepresents(v: View, ls: seq<Line>, dm: map<Line, Time>, ix: seq<IdxInfo>, latest: map<Idx, Line>,
                            idx: Idx, ts: Time, line: Line, j: nat)
    requires Represents(v, ls, dm, ix, latest)
    requires !HasIdx(v, idx) && Fresh(v, line)
    requires j <= |ix|
    requires forall k :: 0 <= k < j ==> ix[k].idx < idx
    requires forall k :: j <= k < |ix| ==> idx <= ix[k].idx
    ensures |ls| == |v|
    ensures Seek(v, FromIdx(idx)) == if j < |ix| then ix[j].linePos else |ls|
    ensures var p := MsgPos(v, idx, ts);
            && p == AdjustBack(v, Seek(v, FromIdx(idx)), ts)
            && Represents(InsertMsg(v, idx, ts, line), ls[..p] + [line] + ls[p..], dm,
                          ix[..j] + [IdxInfo(idx, p, ts)] + Shift(ix[j..], 1), latest[idx := line])
            && p < |InsertMsg(v, idx, ts, line)| && InsertMsg(v, idx, ts, line)[p] == Msg(idx, ts, line, true)
  {
    SeekThroughIndex(v, FromIdx(idx), j);
    var p := MsgPos(v, idx, ts);
    RankOverDates(v, p, Seek(v, FromIdx(idx)));
    MsgPosSplits(v, idx, ts);
    InsertRepresents(v, ls, dm, ix, latest, p, Msg(idx, ts, line, true), j);
    hide IndexOf, WellFormed, DatesOf, ShowsLatest;
  }

  lemma InsertDateRepresents(v: View, ls: seq<Line>, dm: map<Line, Time>, ix: seq<IdxInfo>, latest: map<Idx, Line>,
                             ts: Time, line: Line, j: nat)
    requires Represents(v, ls, dm, ix, latest)
    requires Fresh(v, line)
    requires j <= |ix|
    requires forall k :: 0 <= k < j ==> ix[k].timestamp < ts
    requires j < |ix| ==> ts <= ix[j].timestamp
    ensures |ls| == |v|
    ensures Seek(v, FromTime(ts)) == if j < |ix| then ix[j].linePos else |ls|
    ensures var p := DatePos(v, ts);
            && p == AdjustBack(v, Seek(v, FromTime(ts)), ts)
            && Represents(InsertDate(v, ts, line), ls[..p] + [line] + ls[p..], dm[line := ts],
                          ix[..j] + Shift(ix[j..], 1), latest)
            && p < |InsertDate(v, ts, line)| && InsertDate(v, ts, line)[p] == Date(ts, line)
  {
    SeekThroughIndex(v, FromTime(ts), j);
    var p := DatePos(v, ts);
    RankOverDates(v, p, Seek(v, FromTime(ts)));
    InsertRepresents(v, ls, dm, ix, latest, p, Date(ts, line), j);
    assert ix[..j] + EntryOf(Date(ts, line), p) == ix[..j];
    hide IndexOf, WellFormed, DatesOf, ShowsLatest;
  }

  /** The state of the erase loop after n passes that started at position `at`. */
  ghost predicate AfterPasses(v: View, at: nat, n: nat, w: View, it: nat)
    requires at < |v|
  {
    && 0 < n <= at + 1 && it == at + 1 - n
    && w == v[..it] + Unindex(v[at + 1..], n - 1 + if Indexed(v[at]) then 0 else 1)
    && (forall i :: it <= i < at ==> v[i].Date?)
    && (n > 1 ==> EndsDay(v, at))
  }

  predicate GoesOn(v: View, at: nat, it: nat)
    requires it <= at < |v|
  {
    it > 0 && v[it - 1].Date? && EndsDay(v, at)
  }

  lemma FirstPass(v: View, at: nat)
    requires at < |v|
    ensures AfterPasses(v, at, 1, EraseStep(v, at), at)
  {
  }

  lemma NextPass(v: View, at: nat, n: nat, w: View, it: nat)
    requires at < |v| && AfterPasses(v, at, n, w, it) && GoesOn(v, at, it)
    ensures it - 1 < |w| && AfterPasses(v, at, n + 1, EraseStep(w, it - 1), it - 1)
  {
    EraseStepAgain(v, at, it - 1, n - 1 + if Indexed(v[at]) then 0 else 1);
  }

  /** The test the loop makes on what is left answers for the original view. */
  lemma LoopTest(v: View, at: nat, n: nat, w: View, it: nat)
    requires at < |v| && AfterPasses(v, at, n, w, it)
    ensures it <= |w|
    ensures var prev := if it > 0 then it - 1 else |w|;
            (prev != |w| && w[prev].Date? && (it == |w| || w[it].Date?)) <==> GoesOn(v, at, it)
  {
  }

  lemma LastPass(v: View, at: nat, n: nat, w: View, it: nat)
    requires at < |v| && AfterPasses(v, at, n, w, it) && !GoesOn(v, at, it)
    ensures w == EraseAt(v, at) && it == at - Cascade(v, at)
  {
  }

  lemma {:induction false} FirstEntryLeast(v: View)
    requires IdxIncreasing(v) && IndexOf(v) != []
    ensures HasIdx(v, IndexOf(v)[0].idx)
    ensures forall i :: 0 <= i < |v| && Indexed(v[i]) ==> IndexOf(v)[0].idx <= v[i].idx
  {
    hide IndexOf;
    EntrySound(v, 0);
    forall i | 0 <= i < |v| && Indexed(v[i])
      ensures IndexOf(v)[0].idx <= v[i].idx
    {
      EntryAt(v, i);
      var k := |IndexOf(v[..i])|;
      assert IndexOf(v)[k] == IdxInfo(v[i].idx, i, v[i].ts);
      if 0 < k {
        IndexSorted(v, 0, k);
      }
    }
  }

  lemma LastEntryGreatest(v: View)
    requires IdxIncreasing(v) && IndexOf(v) != []
    ensures HasIdx(v, IndexOf(v)[|IndexOf(v)| - 1].idx)
    ensures forall i :: 0 <= i < |v| && Indexed(v[i]) ==> v[i].idx <= IndexOf(v)[|IndexOf(v)| - 1].idx
  {
  }

  /** Seeking a shown index finds the row of that very index. */
  lemma SeekFindsIdx(v: View, idx: Idx)
    requires WellFormed(v) && HasIdx(v, idx)
    ensures Seek(v, FromIdx(idx)) < |v|
    ensures v[Seek(v, FromIdx(idx))].idx == idx
  {
    var i :| 0 <= i < |v| && Indexed(v[i]) && v[i].idx == idx;
    assert Reaches(FromIdx(idx), v[i]);
    var p := Seek(v, FromIdx(idx));
    assert p <= i;
  }

  /** Looking a message up by its index and searching for its line agree. */
  lemma FindsAgree(v: View, i: nat, j: nat)
    requires WellFormed(v) && i < |v| && Indexed(v[i])
    requires j < |v| && v[j].line == v[i].line
    ensures Seek(v, FromIdx(v[i].idx)) == i == j
  {
    SeekFindsIdx(v, v[i].idx);
  }

  /** Scanning the index for the first entry at or after a position counts the
      indexed rows before that position. */
  lemma RankOfPosition(v: View, p: nat, j: nat)
    requires p <= |v| && j <= |IndexOf(v)|
    requires forall k :: 0 <= k < j ==> IndexOf(v)[k].linePos < p
    requires j < |IndexOf(v)| ==> p <= IndexOf(v)[j].linePos
    ensures j == |IndexOf(v[..p])|
  {
    hide IndexOf;
    if j < |IndexOf(v)| {
      EntrySound(v, j);
      RankMonotone(v, p, IndexOf(v)[j].linePos);
    } else {
      RankMonotone(v, p, |v|);
      assert v[..|v|] == v;
    }
    if j > 0 {
      EntrySound(v, j - 1);
      var q := IndexOf(v)[j - 1].linePos;
      EntryAt(v[..q + 1], q);
      assert v[..q + 1][..q] == v[..q];
      RankMonotone(v, q + 1, p);
    }
  }

  class Storage {
    var lines: seq<Line>
    var dateMap: map<Line, Time>
    var idxInfoMap: seq<IdxInfo>

    /** The rows being shown. */
    ghost var view: View
    /** The line of the latest effective insertion of each index. */
    ghost var latest: map<Idx, Line>

    ghost predicate Valid()
      reads this
    {
      Represents(view, lines, dateMap, idxInfoMap, latest)
    }

    constructor ()
      ensures Valid() && view == [] && latest == map[]
    {
      lines, dateMap, idxInfoMap := [], map[], [];
      view, latest := [], map[];
    }

    method Clear()
      requires Valid()
      modifies this
      ensures Valid() && view == [] && latest == old(latest)
    {
      idxInfoMap := [];
      dateMap := map[];
      lines := [];
      view := [];
    }

    // ---------- queries ----------

    method Size() returns (n: nat)
      requires Valid()
      ensures n == |view|
    {
      n := |lines|;
    }

    method At(pos: nat) returns (line: Line)
      requires Valid() && pos < |view|
      ensures line == view[pos].line
    {
      line := lines[pos];
    }

    method HasIndexedMessage() returns (b: bool)
      requires Valid()
      ensures b <==> exists i :: 0 <= i < |view| && Indexed(view[i])
      ensures b <==> |idxInfoMap| > 0
    {
      b := |idxInfoMap| != 0;
      if b {
        EntrySound(view, 0);
      } else if i :| 0 <= i < |view| && Indexed(view[i]) {
        EntryAt(view, i);
        assert false;
      }
    }

    /** The smallest key of the index. */
    method FirstIdx() returns (idx: Idx)
      requires Valid() && exists i :: 0 <= i < |view| && Indexed(view[i])
      ensures IndexOf(view) != [] && idx == IndexOf(view)[0].idx
      ensures HasIdx(view, idx)
      ensures forall i :: 0 <= i < |view| && Indexed(view[i]) ==> idx <= view[i].idx
    {
      var b := HasIndexedMessage();
      FirstEntryLeast(view);
      idx := idxInfoMap[0].idx;
    }

    /** The greatest key of the index. */
    method LastIdx() returns (idx: Idx)
      requires Valid() && exists i :: 0 <= i < |view| && Indexed(view[i])
      ensures IndexOf(view) != [] && idx == IndexOf(view)[|IndexOf(view)| - 1].idx
      ensures HasIdx(view, idx)
      ensures forall i :: 0 <= i < |view| && Indexed(view[i]) ==> view[i].idx <= idx
    {
      var b := HasIndexedMessage();
      LastEntryGreatest(view);
      idx := idxInfoMap[|idxInfoMap| - 1].idx;
    }

    /** Binary search for the first entry whose key is at least idx. */
    method InfoIteratorForIdx(idx: Idx) returns (j: nat)
      requires Valid()
      ensures j <= |idxInfoMap|
      ensures forall k :: 0 <= k < j ==> idxInfoMap[k].idx < idx
      ensures forall k :: j <= k < |idxInfoMap| ==> idx <= idxInfoMap[k].idx
    {
      var hi := |idxInfoMap|;
      j := 0;
      while j < hi
        invariant j <= hi <= |idxInfoMap|
        invariant forall k :: 0 <= k < j ==> idxInfoMap[k].idx < idx
        invariant forall k :: hi <= k < |idxInfoMap| ==> idx <= idxInfoMap[k].idx
      {
        var mid := j + (hi - j) / 2;
        forall k | 0 <= k < mid ensures idxInfoMap[k].idx < idxInfoMap[mid].idx { IndexSorted(view, k, mid); }
        forall k | mid < k < |idxInfoMap| ensures idxInfoMap[mid].idx < idxInfoMap[k].idx { IndexSorted(view, mid, k); }
        if idxInfoMap[mid].idx < idx {
          j := mid + 1;
        } else {
          hi := mid;
        }
      }
    }

    method ContainsIdx(idx: Idx) returns (b: bool)
      requires Valid()
      ensures b <==> HasIdx(view, idx)
    {
      HasIdxByEntry(view, idx);
      var j := InfoIteratorForIdx(idx);
      b := j < |idxInfoMap| && idxInfoMap[j].idx == idx;
      assert b ==> IndexOf(view)[j].idx == idx;
      if !b && HasIdx(view, idx) {
        var k :| 0 <= k < |idxInfoMap| && idxInfoMap[k].idx == idx;
        if j < k {
          IndexSorted(view, j, k);
        }
        assert false;
      }
    }

    method ContainsTime(ts: Time) returns (b: bool)
      requires Valid()
      ensures b <==> HasDate(view, ts)
    {
      b := exists l :: l in dateMap && dateMap[l] == ts;
      if b {
        ghost var l :| l in dateMap && dateMap[l] == ts;
        ghost var i :| 0 <= i < |view| && LinesOf(view)[i] == l;
        assert view[i].Date? && view[i].ts == ts;
      }
    }

    method EquivalentLineIterator(j: nat) returns (it: nat)
      requires Valid() && j <= |idxInfoMap|
      ensures it == if j < |idxInfoMap| then idxInfoMap[j].linePos else |lines|
    {
      if j == |idxInfoMap| {
        return |lines|;
      }
      EntrySound(view, j);
      it := idxInfoMap[j].linePos;
    }

    /** The first entry at or after a line position. */
    method EquivalentInfoIterator(it: nat) returns (j: nat)
      requires Valid() && it <= |view|
      ensures j == |IndexOf(view[..it])| && j <= |idxInfoMap|
    {
      j := 0;
      while j < |idxInfoMap| && idxInfoMap[j].linePos < it
        invariant j <= |idxInfoMap|
        invariant forall k :: 0 <= k < j ==> idxInfoMap[k].linePos < it
      {
        j := j + 1;
      }
      RankOfPosition(view, it, j);
    }

    /** The position of a present index; for an absent one, of the next present one. */
    method FindIdx(idx: Idx) returns (it: nat)
      requires Valid()
      ensures it == Seek(view, FromIdx(idx))
      ensures HasIdx(view, idx) ==> it < |view| && Indexed(view[it]) && view[it].idx == idx
                                    && idx in latest && view[it].line == latest[idx]
    {
      var j := InfoIteratorForIdx(idx);
      SeekThroughIndex(view, FromIdx(idx), j);
      if j == |idxInfoMap| {
        it := |lines|;
      } else {
        EntrySound(view, j);
        it := idxInfoMap[j].linePos;
      }
      if HasIdx(view, idx) {
        SeekFindsIdx(view, idx);
      }
    }

    /** Linear search for a line. */
    method FindLine(line: Line) returns (it: nat)
      requires Valid()
      ensures it <= |view|
      ensures it < |view| ==> view[it].line == line
      ensures forall i :: 0 <= i < |view| && view[i].line == line ==> i == it
    {
      it := 0;
      while it < |lines| && lines[it] != line
        invariant it <= |lines|
        invariant forall i :: 0 <= i < it ==> view[i].line != line
      {
        it := it + 1;
      }
    }

    /** Access by index gives the line that was last inserted for it, and fails for an
        index that is not shown. */
    method AtIdx(idx: Idx) returns (line: Option<Line>)
      requires Valid()
      ensures if HasIdx(view, idx) then idx in latest && line == Some(latest[idx]) else line == None
    {
      var shown := ContainsIdx(idx);
      if !shown {
        return None;
      }
      var it := FindIdx(idx);
      line := Some(lines[it]);
    }

    method AdjustItForDate(from: nat, ts: Time) returns (it: nat)
      requires Valid() && from <= |view|
      ensures it == AdjustBack(view, from, ts)
    {
      it := from;
      while it > 0
        invariant it <= from
        invariant AdjustBack(view, from, ts) == AdjustBack(view, it, ts)
      {
        var possibleDate := it - 1;
        if lines[possibleDate] !in dateMap {
          break;
        }
        if dateMap[lines[possibleDate]] > ts {
          it := possibleDate;
        } else {
          break;
        }
      }
    }

    method ShouldRemovePreviousLine(prevIt: nat, it: nat) returns (b: bool)
      requires Valid() && prevIt <= |view| && it <= |view|
      ensures b <==> prevIt != |view| && view[prevIt].Date? && (it == |view| || view[it].Date?)
    {
      b := prevIt != |lines| && lines[prevIt] in dateMap && (it == |lines| || lines[it] in dateMap);
    }

    // ---------- updates ----------

    method IncrementLinePosAfter(j: nat)
      requires j <= |idxInfoMap|
      modifies this`idxInfoMap
      ensures idxInfoMap == old(idxInfoMap)[..j] + Shift(old(idxInfoMap)[j..], 1)
    {
      ghost var was := idxInfoMap;
      var k := j;
      while k < |idxInfoMap|
        invariant j <= k <= |idxInfoMap| == |was|
        invariant forall i :: 0 <= i < j || k <= i < |was| ==> idxInfoMap[i] == was[i]
        invariant forall i :: j <= i < k ==> idxInfoMap[i] == was[i].(linePos := was[i].linePos + 1)
      {
        idxInfoMap := idxInfoMap[k := idxInfoMap[k].(linePos := idxInfoMap[k].linePos + 1)];
        k := k + 1;
      }
    }

    /** No position wraps around below zero. */
    method DecrementLinePosAfter(j: nat)
      requires j <= |idxInfoMap|
      requires forall i :: j <= i < |idxInfoMap| ==> idxInfoMap[i].linePos >= 1
      modifies this`idxInfoMap
      ensures idxInfoMap == old(idxInfoMap)[..j] + Shift(old(idxInfoMap)[j..], -1)
    {
      ghost var was := idxInfoMap;
      var k := j;
      while k < |idxInfoMap|
        invariant j <= k <= |idxInfoMap| == |was|
        invariant forall i :: 0 <= i < j || k <= i < |was| ==> idxInfoMap[i] == was[i]
        invariant forall i :: j <= i < k ==> idxInfoMap[i] == was[i].(linePos := was[i].linePos - 1)
      {
        idxInfoMap := idxInfoMap[k := idxInfoMap[k].(linePos := idxInfoMap[k].linePos - 1)];
        k := k + 1;
      }
    }

    /** Inserts a message unless its index is already shown.  The returned position
        is where it stands, or the end when nothing was inserted. */
    method InsertChatMessage(idx: Idx, ts: Time, line: Line) returns (it: nat)
      requires Valid() && (HasIdx(view, idx) || Fresh(view, line))
      modifies this
      ensures Valid()
      ensures view == InsertMsg(old(view), idx, ts, line)
      ensures latest == if HasIdx(old(view), idx) then old(latest) else old(latest)[idx := line]
      ensures if HasIdx(old(view), idx) then it == |view|
              else it < |view| && view[it] == Msg(idx, ts, line, true)
    {
      hide Represents, InsertMsg, InsertAt, MsgPos, Seek, AdjustBack, IndexOf, HasIdx;
      var shown := ContainsIdx(idx);
      if shown {
        AlreadyShown(view, lines, dateMap, idxInfoMap, latest, idx, ts, line);
        return |lines|;
      }
      var linePosIncrementIt := InfoIteratorForIdx(idx);
      ghost var ix := idxInfoMap;
      InsertMsgRepresents(view, lines, dateMap, ix, latest, idx, ts, line, linePosIncrementIt);
      var insertionPoint := EquivalentLineIterator(linePosIncrementIt);
      insertionPoint := AdjustItForDate(insertionPoint, ts);

      lines := lines[..insertionPoint] + [line] + lines[insertionPoint..];
      IncrementLinePosAfter(linePosIncrementIt);
      var info := IdxInfo(idx, insertionPoint, ts);
      idxInfoMap := idxInfoMap[..linePosIncrementIt] + [info] + idxInfoMap[linePosIncrementIt..];
      assert idxInfoMap == ix[..linePosIncrementIt] + [info] + Shift(ix[linePosIncrementIt..], 1);

      view := InsertMsg(view, idx, ts, line);
      latest := latest[idx := line];
      return insertionPoint;
    }

    method InsertDateLine(ts: Time, line: Line) returns (it: nat)
      requires Valid() && Fresh(view, line)
      modifies this
      ensures Valid()
      ensures view == InsertDate(old(view), ts, line) && latest == old(latest)
      ensures it < |view| && view[it] == Date(ts, line)
    {
      hide Represents, InsertDate, InsertAt, DatePos, Seek, AdjustBack, IndexOf;
      var j := 0;
      while j < |idxInfoMap| && !(ts <= idxInfoMap[j].timestamp)
        invariant j <= |idxInfoMap|
        invariant forall k :: 0 <= k < j ==> idxInfoMap[k].timestamp < ts
      {
        j := j + 1;
      }
      ghost var ix := idxInfoMap;
      InsertDateRepresents(view, lines, dateMap, ix, latest, ts, line, j);
      var insertionPoint := EquivalentLineIterator(j);
      insertionPoint := AdjustItForDate(insertionPoint, ts);

      lines := lines[..insertionPoint] + [line] + lines[insertionPoint..];
      IncrementLinePosAfter(j);
      dateMap := dateMap[line := ts];

      view := InsertDate(view, ts, line);
      return insertionPoint;
    }

    /** The body of the erase loop: drops the line, its date entry, and the first
        index entry at or after it. */
    method EraseOne(it: nat)
      requires Valid() && it < |view|
      modifies this
      ensures Valid()
      ensures view == EraseStep(old(view), it) && latest == old(latest)
    {
      hide Represents, EraseStep, IndexOf;
      Lengths(view, lines, dateMap, idxInfoMap, latest);
      var info := EquivalentInfoIterator(it);
      ghost var dm, ix := dateMap, idxInfoMap;
      EraseStepRepresents(view, lines, dm, ix, latest, it, info);
      if lines[it] in dateMap {
        dateMap := dateMap - {lines[it]};
      }
      assert dateMap == dm - {lines[it]};
      if info != |idxInfoMap| {
        idxInfoMap := idxInfoMap[..info] + idxInfoMap[info + 1..];
        assert idxInfoMap[info..] == ix[info + 1..];
        DecrementLinePosAfter(info);
      }
      assert idxInfoMap == if info == |ix| then ix else ix[..info] + Shift(ix[info + 1..], -1);
      lines := lines[..it] + lines[it + 1..];
      view := EraseStep(view, it);
    }

    /** Erases a line, together with the date lines that would be left with nothing
        below them.  Returns the position of the row that follows the gap. */
    method Erase(at: nat) returns (it: nat)
      requires Valid() && at < |view|
      modifies this
      ensures Valid()
      ensures view == EraseAt(old(view), at) && latest == old(latest)
      ensures it == at - Cascade(old(view), at)
    {
      hide Represents, EraseStep, EraseAt, Cascade, AfterPasses, EndsDay, IndexOf, LinesOf;
      ghost var v := view;
      ghost var n: nat := 0; // passes made so far
      Lengths(view, lines, dateMap, idxInfoMap, latest);
      it := at;
      var prevIt := at;
      var again := true;
      while again
        invariant Valid() && latest == old(latest)
        invariant n == 0 ==> view == v && prevIt == at && again
        invariant n > 0 ==> AfterPasses(v, at, n, view, it) && it <= at
        invariant n > 0 && again ==> GoesOn(v, at, it) && prevIt == it - 1
        invariant n > 0 && !again ==> !GoesOn(v, at, it)
        decreases again, |view|
      {
        if n == 0 {
          FirstPass(v, at);
        } else {
          NextPass(v, at, n, view, it);
        }
        it := prevIt;
        EraseOne(it);
        n := n + 1;
        LoopTest(v, at, n, view, it);
        Lengths(view, lines, dateMap, idxInfoMap, latest);
        if it > 0 {
          prevIt := it - 1;
        } else {
          prevIt := |lines|;
        }
        again := ShouldRemovePreviousLine(prevIt, it);
      }
      LastPass(v, at, n, view, it);
    }

    /** Erases the message of this index or, when it is not shown, the next shown one. */
    method EraseIdx(idx: Idx)
      requires Valid() && Seek(view, FromIdx(idx)) < |view|
      modifies this
      ensures Valid() && latest == old(latest)
      ensures view == EraseAt(old(view), Seek(old(view), FromIdx(idx)))
      ensures HasIdx(old(view), idx) ==> old(view)[Seek(old(view), FromIdx(idx))].idx == idx
    {
      if HasIdx(view, idx) {
        SeekFindsIdx(view, idx);
      }
      var j := InfoIteratorForIdx(idx);
      SeekThroughIndex(view, FromIdx(idx), j);
      var it := EquivalentLineIterator(j);
      var next := Erase(it);
    }
  }
}
