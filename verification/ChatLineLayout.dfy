/** The column layout of one chat line, in exact real arithmetic.  What an item looks
    like at a given width (text width, ascent, top and height of its rectangle) is
    given; the line decides the widths and positions. */
module ChatLineLayout {
  datatype Option<+T> = None | Some(value: T)

  datatype Policy = FixedSize | VariableSize

  datatype Align = Left | Center | Right

  datatype ColumnFormat = ColumnFormat(size: real, policy: Policy, hAlign: Align)

  /** An item's measures as functions of the width set for it. */
  datatype Look = Look(textWidth: real -> real, ascent: real -> real, top: real -> real, height: real -> real)

  datatype Item = Item(look: Look, width: real, x: real, y: real)

  datatype Rect = Rect(left: real, top: real, width: real, height: real)

  const SPACING := 15.0

  function Max(a: real, b: real): real {
    if a >= b then a else b
  }

  // ---------- column widths ----------

  function FixedSum(fs: seq<ColumnFormat>): real {
    if fs == [] then 0.0
    else FixedSum(fs[..|fs| - 1]) + if fs[|fs| - 1].policy.FixedSize? then fs[|fs| - 1].size else 0.0
  }

  function VarSum(fs: seq<ColumnFormat>): real {
    if fs == [] then 0.0
    else VarSum(fs[..|fs| - 1]) + if fs[|fs| - 1].policy.FixedSize? then 0.0 else fs[|fs| - 1].size
  }

  function FixedWidth(fs: seq<ColumnFormat>): real {
    (|fs| - 1) as real * SPACING + FixedSum(fs)
  }

  function Portion(size: real, whole: real, leftover: real): real
    requires whole != 0.0
  {
    size / whole * leftover
  }

  function Share(size: real, total: real, leftover: real): real {
    Portion(size, if total == 0.0 then 1.0 else total, leftover)
  }

  function Leftover(fs: seq<ColumnFormat>, w: real): real {
    Max(0.0, w - FixedWidth(fs))
  }

  function ColumnWidth(fs: seq<ColumnFormat>, w: real, i: nat): real
    requires i < |fs|
  {
    if fs[i].policy.FixedSize? then fs[i].size else Share(fs[i].size, VarSum(fs), Leftover(fs, w))
  }

  /** Where column i starts, relative to the line. */
  function Offset(fs: seq<ColumnFormat>, w: real, i: nat): real
    requires i <= |fs|
  {
    if i == 0 then 0.0 else Offset(fs, w, i - 1) + ColumnWidth(fs, w, i - 1) + SPACING
  }

  // ---------- positions ----------

  function AlignShift(a: Align, columnWidth: real, textWidth: real): real {
    match a
    case Left => 0.0
    case Right => columnWidth - textWidth
    case Center => (columnWidth - textWidth) / 2.0
  }

  function ItemX(fs: seq<ColumnFormat>, items: seq<Item>, w: real, x: real, i: nat): real
    requires i < |fs| == |items|
  {
    var cw := ColumnWidth(fs, w, i);
    x + Offset(fs, w, i) + AlignShift(fs[i].hAlign, cw, items[i].look.textWidth(cw))
  }

  function AscentAt(fs: seq<ColumnFormat>, items: seq<Item>, w: real, i: nat): real
    requires i < |fs| == |items|
  {
    items[i].look.ascent(ColumnWidth(fs, w, i))
  }

  /** The largest ascent among the first n items, and at least 0. */
  function MaxAscent(fs: seq<ColumnFormat>, items: seq<Item>, w: real, n: nat): (m: real)
    requires n <= |fs| == |items|
    ensures m >= 0.0 && forall i :: 0 <= i < n ==> AscentAt(fs, items, w, i) <= m
  {
    if n == 0 then 0.0 else Max(MaxAscent(fs, items, w, n - 1), AscentAt(fs, items, w, n - 1))
  }

  function LaidItem(fs: seq<ColumnFormat>, items: seq<Item>, w: real, x: real, y: real, i: nat): Item
    requires i < |fs| == |items|
  {
    Item(items[i].look, ColumnWidth(fs, w, i), ItemX(fs, items, w, x, i),
         y + (MaxAscent(fs, items, w, |fs|) - AscentAt(fs, items, w, i)))
  }

  function Laid(fs: seq<ColumnFormat>, items: seq<Item>, w: real, x: real, y: real): (r: seq<Item>)
    requires |fs| == |items|
    ensures |r| == |items| && forall i :: 0 <= i < |items| ==> r[i] == LaidItem(fs, items, w, x, y, i)
  {
    seq(|items|, i requires 0 <= i < |items| => LaidItem(fs, items, w, x, y, i))
  }

  /** How far an item reaches below a given height. */
  function Reach(it: Item, top: real): real {
    it.y + it.look.top(it.width) - top + it.look.height(it.width)
  }

  function LineHeight(items: seq<Item>, top: real): (h: real)
    ensures h >= 0.0 && forall i :: 0 <= i < |items| ==> Reach(items[i], top) <= h
  {
    if items == [] then 0.0 else Max(Reach(items[|items| - 1], top), LineHeight(items[..|items| - 1], top))
  }

  lemma NoColumnsYet(fs: seq<ColumnFormat>, items: seq<Item>, w: real)
    requires |fs| == |items|
    ensures Offset(fs, w, 0) == 0.0 == MaxAscent(fs, items, w, 0)
  {
  }

  /** What the layout computes for one more column. */
  lemma NextColumn(fs: seq<ColumnFormat>, items: seq<Item>, w: real, x: real, i: nat, varWidth: real, leftover: real)
    requires i < |fs| == |items|
    requires varWidth == (if VarSum(fs) == 0.0 then 1.0 else VarSum(fs)) && leftover == Leftover(fs, w)
    ensures var cw := ColumnWidth(fs, w, i);
            && cw == (if fs[i].policy.FixedSize? then fs[i].size else Portion(fs[i].size, varWidth, leftover))
            && ItemX(fs, items, w, x, i) == x + Offset(fs, w, i) + AlignShift(fs[i].hAlign, cw, items[i].look.textWidth(cw))
            && Offset(fs, w, i + 1) == Offset(fs, w, i) + (cw + SPACING)
            && MaxAscent(fs, items, w, i + 1) == Max(MaxAscent(fs, items, w, i), items[i].look.ascent(cw))
  {
  }

  function Moved(items: seq<Item>, d: real): (r: seq<Item>)
    ensures |r| == |items| && forall i :: 0 <= i < |items| ==> r[i] == items[i].(y := items[i].y + d)
  {
    seq(|items|, i requires 0 <= i < |items| => items[i].(y := items[i].y + d))
  }

  // ---------- the line ----------

  lemma {:induction false} MaxAscentByLook(fs: seq<ColumnFormat>, one: seq<Item>, other: seq<Item>, w: real, n: nat)
    requires n <= |fs| == |one| == |other|
    requires forall i :: 0 <= i < |one| ==> one[i].look == other[i].look
    ensures MaxAscent(fs, one, w, n) == MaxAscent(fs, other, w, n)
  {
    if n > 0 {
      MaxAscentByLook(fs, one, other, w, n - 1);
    }
  }

  /** A layout forgets where the items were: laying out again is laying out afresh. */
  lemma LaidAgain(fs: seq<ColumnFormat>, items: seq<Item>, w: real, x: real, y: real, x2: real, y2: real)
    requires |fs| == |items|
    ensures Laid(fs, Laid(fs, items, w, x, y), w, x2, y2) == Laid(fs, items, w, x2, y2)
  {
    MaxAscentByLook(fs, items, Laid(fs, items, w, x, y), w, |fs|);
  }

  class ChatLine {
    var content: seq<Item>
    var format: seq<ColumnFormat>
    var width: real
    var bbox: Rect

    ghost predicate Valid()
      reads this
    {
      |content| == |format|
    }

    /** The line is laid out at its own width and place. */
    ghost predicate LaidOut()
      requires Valid()
      reads this
    {
      && content == Laid(format, content, width, bbox.left, bbox.top)
      && bbox == Rect(bbox.left, bbox.top, width, LineHeight(content, bbox.top))
    }

    constructor ()
      ensures Valid() && content == [] && width == 100.0 && bbox == Rect(0.0, 0.0, 0.0, 0.0)
    {
      content, format := [], [];
      width := 100.0;
      bbox := Rect(0.0, 0.0, 0.0, 0.0);
    }

    /** A missing item is ignored. */
    method AddColumn(item: Option<Item>, fmt: ColumnFormat)
      requires Valid()
      modifies this`content, this`format
      ensures Valid()
      ensures match item
              case None => content == old(content) && format == old(format)
              case Some(it) => content == old(content) + [it] && format == old(format) + [fmt]
    {
      if item.None? {
        return;
      }
      format := format + [fmt];
      content := content + [item.value];
    }

    method UpdateBBox()
      modifies this`bbox
      ensures bbox == Rect(old(bbox.left), old(bbox.top), width, LineHeight(content, old(bbox.top)))
    {
      bbox := bbox.(height := 0.0);
      bbox := bbox.(width := width);
      var i := 0;
      while i < |content|
        invariant i <= |content|
        invariant bbox == Rect(old(bbox.left), old(bbox.top), width, LineHeight(content[..i], old(bbox.top)))
      {
        bbox := bbox.(height := Max(Reach(content[i], bbox.top), bbox.height));
        assert content[..i + 1][..i] == content[..i];
        i := i + 1;
      }
      assert content[..|content|] == content;
    }

    /** Sums up the fixed and the variable sizes. */
    method SumSizes() returns (fixedWidth: real, varWidth: real)
      ensures fixedWidth == FixedWidth(format) && varWidth == VarSum(format)
    {
      fixedWidth := (|format| - 1) as real * SPACING;
      varWidth := 0.0;
      var k := 0;
      while k < |format|
        invariant k <= |format|
        invariant fixedWidth == (|format| - 1) as real * SPACING + FixedSum(format[..k])
        invariant varWidth == VarSum(format[..k])
      {
        assert format[..k + 1][..k] == format[..k];
        if format[k].policy.FixedSize? {
          fixedWidth := fixedWidth + format[k].size;
        } else {
          varWidth := varWidth + format[k].size;
        }
        k := k + 1;
      }
      assert format[..k] == format;
    }

    /** First pass: widths and horizontal positions. */
    method SetWidths(w: real, x: real, varWidth: real, leftover: real) returns (xPos: seq<real>, maxVOffset: real)
      requires Valid()
      requires varWidth == (if VarSum(format) == 0.0 then 1.0 else VarSum(format)) && leftover == Leftover(format, w)
      modifies this`content
      ensures |content| == |old(content)| == |xPos|
      ensures forall j :: 0 <= j < |content| ==>
                            content[j] == old(content)[j].(width := ColumnWidth(format, w, j))
                            && xPos[j] == ItemX(format, old(content), w, x, j)
      ensures maxVOffset == MaxAscent(format, old(content), w, |format|)
    {
      hide Leftover, VarSum, Portion, Share, ColumnWidth, ItemX, Offset, MaxAscent;
      ghost var was := content;
      var xOffset := 0.0;
      maxVOffset, xPos := 0.0, [];
      NoColumnsYet(format, was, w);
      var i := 0;
      while i < |content|
        invariant i <= |content| == |was| && |xPos| == i
        invariant xOffset == Offset(format, w, i) && maxVOffset == MaxAscent(format, was, w, i)
        invariant forall j :: 0 <= j < i ==>
                                content[j] == was[j].(width := ColumnWidth(format, w, j))
                                && xPos[j] == ItemX(format, was, w, x, j)
        invariant forall j :: i <= j < |was| ==> content[j] == was[j]
      {
        var contentWidth := if format[i].policy.FixedSize? then format[i].size
                            else Portion(format[i].size, varWidth, leftover);
        NextColumn(format, was, w, x, i, varWidth, leftover);
        var item := content[i].(width := contentWidth);
        content := content[i := item];
        var textWidth := item.look.textWidth(contentWidth);
        var xAlign := 0.0;
        match format[i].hAlign {
          case Left =>
          case Right => xAlign := contentWidth - textWidth;
          case Center => xAlign := (contentWidth - textWidth) / 2.0;
        }
        xPos := xPos + [x + xOffset + xAlign];
        xOffset := xOffset + (contentWidth + SPACING);
        maxVOffset := Max(maxVOffset, item.look.ascent(contentWidth));
        i := i + 1;
      }
    }

    /** Second pass: the ascents are known only once all widths are set. */
    method SetPositions(w: real, x: real, y: real, xPos: seq<real>, maxVOffset: real, ghost was: seq<Item>)
      requires Valid() && |content| == |was| == |xPos|
      requires forall j :: 0 <= j < |content| ==>
                             content[j] == was[j].(width := ColumnWidth(format, w, j))
                             && xPos[j] == ItemX(format, was, w, x, j)
      requires maxVOffset == MaxAscent(format, was, w, |format|)
      modifies this`content
      ensures Valid() && content == Laid(format, was, w, x, y)
    {
      hide ColumnWidth, ItemX, MaxAscent;
      var i := 0;
      while i < |content|
        invariant i <= |content| == |was|
        invariant forall j :: 0 <= j < i ==> content[j] == LaidItem(format, was, w, x, y, j)
        invariant forall j :: i <= j < |was| ==> content[j] == was[j].(width := ColumnWidth(format, w, j))
      {
        var yOffset := maxVOffset - content[i].look.ascent(content[i].width);
        content := content[i := content[i].(x := xPos[i], y := y + yOffset)];
        i := i + 1;
      }
    }

    method Layout(w: real, x: real, y: real)
      requires Valid()
      modifies this`content, this`width, this`bbox
      ensures Valid()
      ensures if old(content) == [] then content == [] && width == old(width) && bbox == old(bbox)
              else LaidOut() && width == w && bbox.left == x && bbox.top == y
                   && content == Laid(format, old(content), w, x, y)
    {
      hide Laid, ColumnWidth, ItemX, MaxAscent, LineHeight, VarSum;
      if content == [] {
        return;
      }
      ghost var was := content;
      width := w;
      bbox := bbox.(left := x, top := y);
      var fixedWidth, varWidth := SumSizes();
      if varWidth == 0.0 {
        varWidth := 1.0;
      }
      var leftover := Max(0.0, width - fixedWidth);
      var xPos, maxVOffset := SetWidths(w, x, varWidth, leftover);
      SetPositions(w, x, y, xPos, maxVOffset, was);
      LaidAgain(format, was, w, x, y, x, y);
      UpdateBBox();
    }

    method MoveBy(deltaY: real)
      requires Valid()
      modifies this`content, this`bbox
      ensures Valid()
      ensures content == Moved(old(content), deltaY)
      ensures bbox == old(bbox).(top := old(bbox.top) + deltaY)
    {
      ghost var was := content;
      var i := 0;
      while i < |content|
        invariant i <= |content| == |was| && bbox == old(bbox)
        invariant forall j :: 0 <= j < i ==> content[j] == was[j].(y := was[j].y + deltaY)
        invariant forall j :: i <= j < |was| ==> content[j] == was[j]
      {
        content := content[i := content[i].(y := content[i].y + deltaY)];
        i := i + 1;
      }
      bbox := bbox.(top := bbox.top + deltaY);
    }

    /** Puts another item into a column and lays the line out where it was; a missing item
        or column is ignored. */
    method ReplaceContent(col: int, item: Option<Item>)
      requires Valid()
      modifies this`content, this`width, this`bbox
      ensures Valid()
      ensures if 0 <= col < |old(content)| && item.Some?
              then LaidOut() && width == old(width) && bbox.left == old(bbox.left) && bbox.top == old(bbox.top)
                   && content == Laid(format, old(content)[col := item.value], width, bbox.left, bbox.top)
              else content == old(content) && bbox == old(bbox) && width == old(width)
    {
      hide Laid, LineHeight;
      if 0 <= col < |content| && item.Some? {
        content := content[col := item.value];
        assert content != [];
        Layout(width, bbox.left, bbox.top);
      }
    }
  }

  // ---------- the columns fill the line ----------

  lemma ShareAdds(a: real, b: real, total: real, leftover: real)
    ensures Share(a + b, total, leftover) == Share(a, total, leftover) + Share(b, total, leftover)
  {
  }

  lemma {:induction false} OffsetClosedForm(fs: seq<ColumnFormat>, w: real, i: nat)
    requires i <= |fs|
    ensures Offset(fs, w, i) ==
            i as real * SPACING + FixedSum(fs[..i]) + Share(VarSum(fs[..i]), VarSum(fs), Leftover(fs, w))
  {
    var total, left := VarSum(fs), Leftover(fs, w);
    if i == 0 {
      assert fs[..0] == [];
    } else {
      OffsetClosedForm(fs, w, i - 1);
      assert fs[..i][..i - 1] == fs[..i - 1];
      ShareAdds(VarSum(fs[..i - 1]), fs[i - 1].size, total, left);
    }
  }

  lemma WholeShare(total: real, leftover: real)
    ensures Share(total, total, leftover) == if total == 0.0 then 0.0 else leftover
  {
  }

  /** The columns and the gaps between them fill the wider of the line and the fixed
      part exactly when there is a variable column to give the rest to, or no rest. */
  lemma ColumnsFill(fs: seq<ColumnFormat>, w: real)
    requires fs != []
    ensures Offset(fs, w, |fs|) - SPACING == Max(w, FixedWidth(fs)) <==>
              VarSum(fs) != 0.0 || w <= FixedWidth(fs)
  {
    OffsetClosedForm(fs, w, |fs|);
    assert fs[..|fs|] == fs;
    WholeShare(VarSum(fs), Leftover(fs, w));
  }

  lemma ShareNonNegative(size: real, total: real, leftover: real)
    requires size >= 0.0 && total >= 0.0 && leftover >= 0.0
    ensures Share(size, total, leftover) >= 0.0
  {
  }

  lemma {:induction false} VarSumNonNegative(fs: seq<ColumnFormat>)
    requires forall i :: 0 <= i < |fs| ==> fs[i].size >= 0.0
    ensures VarSum(fs) >= 0.0
  {
    if fs != [] {
      VarSumNonNegative(fs[..|fs| - 1]);
    }
  }

  /** With nonnegative sizes the columns do not overlap, and neighbours are exactly the
      spacing apart. */
  lemma {:induction false} ColumnsDisjoint(fs: seq<ColumnFormat>, w: real, i: nat, j: nat)
    requires i < j < |fs| && forall k :: 0 <= k < |fs| ==> fs[k].size >= 0.0
    ensures ColumnWidth(fs, w, i) >= 0.0
    ensures Offset(fs, w, i) + ColumnWidth(fs, w, i) + SPACING <= Offset(fs, w, j)
    ensures j == i + 1 ==> Offset(fs, w, i) + ColumnWidth(fs, w, i) + SPACING == Offset(fs, w, j)
    decreases j
  {
    VarSumNonNegative(fs);
    ShareNonNegative(fs[i].size, VarSum(fs), Leftover(fs, w));
    if j > i + 1 {
      ColumnsDisjoint(fs, w, i, j - 1);
      ShareNonNegative(fs[j - 1].size, VarSum(fs), Leftover(fs, w));
    }
  }

  /** An item whose text is no wider than its column stays inside the column. */
  lemma ItemInsideColumn(fs: seq<ColumnFormat>, items: seq<Item>, w: real, x: real, y: real, i: nat)
    requires i < |fs| == |items|
    requires items[i].look.textWidth(ColumnWidth(fs, w, i)) <= ColumnWidth(fs, w, i)
    ensures var it := Laid(fs, items, w, x, y)[i];
            && x + Offset(fs, w, i) <= it.x
            && it.x + it.look.textWidth(it.width) <= x + Offset(fs, w, i) + it.width
  {
  }

  lemma PortionsInProportion(a: real, b: real, whole: real, leftover: real)
    requires whole != 0.0
    ensures Portion(a, whole, leftover) * b == Portion(b, whole, leftover) * a
  {
    var unit := leftover / whole;
    assert Portion(a, whole, leftover) == a * unit && Portion(b, whole, leftover) == b * unit;
  }

  /** An item stands at its column's left end, at its right end, or with equal gaps on
      both sides. */
  lemma AlignmentPlaces(fs: seq<ColumnFormat>, items: seq<Item>, w: real, x: real, y: real, i: nat)
    requires i < |fs| == |items|
    ensures var it := Laid(fs, items, w, x, y)[i];
            var left, textWidth := x + Offset(fs, w, i), it.look.textWidth(it.width);
            match fs[i].hAlign
            case Left => it.x == left
            case Right => it.x + textWidth == left + it.width
            case Center => it.x - left == left + it.width - (it.x + textWidth)
  {
  }

  /** A fixed column is as wide as its size says, and variable columns are as wide as
      their sizes relative to each other. */
  lemma WidthsInProportion(fs: seq<ColumnFormat>, items: seq<Item>, w: real, x: real, y: real, i: nat, j: nat)
    requires i < |fs| == |items| && j < |fs|
    ensures var r := Laid(fs, items, w, x, y);
            && (fs[i].policy.FixedSize? ==> r[i].width == fs[i].size)
            && (fs[i].policy.VariableSize? && fs[j].policy.VariableSize? ==>
                  r[i].width * fs[j].size == r[j].width * fs[i].size)
  {
    if fs[i].policy.VariableSize? && fs[j].policy.VariableSize? {
      PortionsInProportion(fs[i].size, fs[j].size, if VarSum(fs) == 0.0 then 1.0 else VarSum(fs), Leftover(fs, w));
    }
  }

  // ---------- one baseline, and moves ----------

  /** All columns share one baseline, and no item starts above the line. */
  lemma OneBaseline(fs: seq<ColumnFormat>, items: seq<Item>, w: real, x: real, y: real, i: nat, j: nat)
    requires i < |fs| == |items| && j < |fs|
    ensures var r := Laid(fs, items, w, x, y);
            && r[i].y + r[i].look.ascent(r[i].width) == r[j].y + r[j].look.ascent(r[j].width)
            && r[i].y >= y
  {
    assert AscentAt(fs, items, w, i) <= MaxAscent(fs, items, w, |fs|);
  }

  lemma {:induction false} AscentIsReached(fs: seq<ColumnFormat>, items: seq<Item>, w: real, n: nat)
    requires n <= |fs| == |items|
    ensures MaxAscent(fs, items, w, n) == 0.0
            || exists i :: 0 <= i < n && AscentAt(fs, items, w, i) == MaxAscent(fs, items, w, n)
  {
    if n > 0 {
      AscentIsReached(fs, items, w, n - 1);
    }
  }

  /** The baseline is no lower than needed: some item stands at the top of the line, or
      the baseline is the top of the line. */
  lemma BaselineIsTight(fs: seq<ColumnFormat>, items: seq<Item>, w: real, x: real, y: real)
    requires |fs| == |items| > 0
    ensures var r := Laid(fs, items, w, x, y);
            || (exists i :: 0 <= i < |r| && r[i].y == y)
            || (forall i :: 0 <= i < |r| ==> r[i].y + r[i].look.ascent(r[i].width) == y)
  {
    AscentIsReached(fs, items, w, |fs|);
    var r := Laid(fs, items, w, x, y);
    if m :| 0 <= m < |fs| && AscentAt(fs, items, w, m) == MaxAscent(fs, items, w, |fs|) {
      assert r[m].y == y;
    }
  }

  lemma {:induction false} HeightIsReached(items: seq<Item>, top: real)
    ensures LineHeight(items, top) == 0.0 || exists i :: 0 <= i < |items| && Reach(items[i], top) == LineHeight(items, top)
    decreases |items|
  {
    if items != [] {
      var init := items[..|items| - 1];
      HeightIsReached(init, top);
      if i :| 0 <= i < |init| && Reach(init[i], top) == LineHeight(init, top) {
        assert items[i] == init[i];
      }
    }
  }

  /** The height of a line is the least one, from 0 up, that reaches the bottom edge of
      every item. */
  lemma {:induction false} HeightIsTight(items: seq<Item>, top: real, h: real)
    ensures h == LineHeight(items, top) <==>
              && h >= 0.0
              && (forall i :: 0 <= i < |items| ==>
                                items[i].y + items[i].look.top(items[i].width) + items[i].look.height(items[i].width) <= top + h)
              && (h == 0.0 || exists i :: 0 <= i < |items|
                                && items[i].y + items[i].look.top(items[i].width) + items[i].look.height(items[i].width) == top + h)
  {
    HeightIsReached(items, top);
    assert forall i :: 0 <= i < |items| ==> Reach(items[i], top) <= LineHeight(items, top);
  }

  lemma {:induction false} HeightMoves(items: seq<Item>, top: real, d: real)
    ensures LineHeight(Moved(items, d), top + d) == LineHeight(items, top)
    decreases |items|
  {
    if items != [] {
      var n := |items| - 1;
      assert Moved(items, d)[..n] == Moved(items[..n], d);
      HeightMoves(items[..n], top, d);
    }
  }

  /** Laying out and then moving by d is laying out d further down: same items, same
      bounding box. */
  lemma LayoutCommutesWithMove(fs: seq<ColumnFormat>, items: seq<Item>, w: real, x: real, y: real, d: real)
    requires |fs| == |items|
    ensures Moved(Laid(fs, items, w, x, y), d) == Laid(fs, items, w, x, y + d)
    ensures LineHeight(Laid(fs, items, w, x, y + d), y + d) == LineHeight(Laid(fs, items, w, x, y), y)
  {
    hide LineHeight, MaxAscent, ItemX, ColumnWidth, AscentAt;
    HeightMoves(Laid(fs, items, w, x, y), y, d);
    var moved, below := Moved(Laid(fs, items, w, x, y), d), Laid(fs, items, w, x, y + d);
    forall i | 0 <= i < |items|
      ensures moved[i] == below[i]
    {
      var up := MaxAscent(fs, items, w, |fs|) - AscentAt(fs, items, w, i);
      assert y + up + d == y + d + up;
    }
    assert moved == below;
  }
}
