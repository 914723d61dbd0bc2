/** The line editor's buffer and how it is redisplayed: as rows on a page that scrolls when they do not fit. */
module CookedRead {
  import opened Basics
  import opened CookedLayout
  import opened CookedRows

  /** The first row starts after the prompt. */
  function Start(x: nat): seq<Row> {
    [Row([], x)]
  }

  /** The buffer laid out in three parts: up to the first of the cursor and the changed text, up to the other,
      and the rest. */
  function LaidOut(text: seq<Unit>, first: nat, second: nat, x: nat, width: nat): seq<Row>
    requires first <= second <= |text| && Ends(text, 0, |text|, width)
  {
    Lay(text, second, |text|, Lay(text, first, second, Lay(text, 0, first, Start(x), width), width), width)
  }

  function LaidOutFrom(text: seq<Unit>, dirty: nat, cursor: nat, x: nat, width: nat): (rows: seq<Row>)
    requires cursor <= |text| && Ends(text, 0, |text|, width)
    ensures rows != []
  {
    LaidOut(text, Min(dirty, cursor), Min(Max(dirty, cursor), |text|), x, width)
  }

  /** A glyph of the buffer is not shown: one of the three parts loses it. */
  ghost predicate LosesIn(text: seq<Unit>, first: nat, second: nat, x: nat, width: nat)
    requires first <= second <= |text| && Ends(text, 0, |text|, width)
  {
    var a := Lay(text, 0, first, Start(x), width);
    var b := Lay(text, first, second, a, width);
    || Loses(text, 0, first, Start(x), width)
    || Loses(text, first, second, a, width)
    || Loses(text, second, |text|, b, width)
  }

  ghost predicate LosesFrom(text: seq<Unit>, dirty: nat, cursor: nat, x: nat, width: nat)
    requires cursor <= |text| && Ends(text, 0, |text|, width)
  {
    LosesIn(text, Min(dirty, cursor), Min(Max(dirty, cursor), |text|), x, width)
  }

  function EndOf(rows: seq<Row>): Point
    requires rows != []
  {
    Point(Column(rows), |rows| - 1)
  }

  /** Where the text up to the cursor ends. */
  function CursorEnd(text: seq<Unit>, dirty: nat, cursor: nat, x: nat, width: nat): Point
    requires cursor <= |text| && Ends(text, 0, |text|, width)
  {
    EndOf(if dirty < cursor then Lay(text, dirty, cursor, Lay(text, 0, dirty, Start(x), width), width)
          else Lay(text, 0, cursor, Start(x), width))
  }

  /** A cursor behind the last column is shown at the start of the next row. */
  function Wrapped(p: Point, width: nat): Point {
    if p.x >= width then Point(0, p.y + 1) else p
  }

  /** The layout of the buffer; one more row follows if the cursor is after text that fills a row. */
  ghost function Rendered(text: seq<Unit>, dirty: nat, cursor: nat, x: nat, width: nat): (rows: seq<Row>)
    requires cursor <= |text| && Ends(text, 0, |text|, width)
    ensures rows != []
  {
    var laid := LaidOutFrom(text, dirty, cursor, x, width);
    if cursor == |text| && Column(laid) == width then laid + [Row([Blank(1)], 0)] else laid
  }

  /** The rows for a buffer and the place p of its cursor among them: every unit stands where it should, the place is
      where the text before the cursor ends, and the start of the next row if that is the right edge; there is such
      a row, at the end of the buffer too. */
  ghost predicate Shows(text: seq<Unit>, cursor: nat, x: nat, width: nat, rows: seq<Row>, p: Point,
                        laid: seq<Row>, at: Point, before: seq<Unit>)
    requires cursor <= |text|
  {
    && Arranged(laid, x, width)
    && rows == laid + (if cursor == |text| && Column(laid) == width then [Row([Blank(1)], 0)] else [])
    && (if at.x < width then p == at else p == Point(0, at.y + 1))
    && EndsAt(laid, x, at, before) && |before| <= cursor && (AllUnits(laid) == text ==> before == text[..cursor])
  }

  ghost predicate Display(text: seq<Unit>, cursor: nat, x: nat, width: nat, rows: seq<Row>, p: Point)
    requires cursor <= |text|
  {
    exists laid, at, before :: Shows(text, cursor, x, width, rows, p, laid, at, before)
  }

  class LineEditor {
    var buffer: seq<Unit>
    var bufferCursor: nat
    var bufferDirtyBeg: nat
    var dirty: bool
    var origin: Point
    var pagerContentTop: int
    var pagerHeight: int

    /** The cursor is in the buffer. */
    ghost predicate Valid()
      reads this
    {
      bufferCursor <= |buffer|
    }

    constructor (at: Point)
      ensures Valid() && buffer == []
    {
      buffer, bufferCursor, bufferDirtyBeg, dirty, origin, pagerContentTop, pagerHeight := [], 0, 0, false, at, 0, 0;
    }

    /** _replace: offsets beyond the buffer mean its end. */
    method Replace(offset: nat, remove: nat, input: seq<Unit>)
      requires Valid()
      modifies this`buffer, this`bufferCursor, this`bufferDirtyBeg, this`dirty
      ensures Valid()
      ensures var from := Min(offset, |old(buffer)|); var n := Min(remove, |old(buffer)| - from);
        && buffer == old(buffer)[..from] + input + old(buffer)[from + n..]
        && (n > 0 || input != [] ==>
              bufferCursor == from + |input| && bufferDirtyBeg == Min(old(bufferDirtyBeg), from) && dirty)
        && (n == 0 && input == [] ==>
              bufferCursor == old(bufferCursor) && bufferDirtyBeg == old(bufferDirtyBeg) && dirty == old(dirty))
    {
      var from := Min(offset, |buffer|);
      var n := Min(remove, |buffer| - from);
      if n == 0 && |input| == 0 {
        assert buffer == buffer[..from] + [] + buffer[from..];
        return;
      }
      buffer := buffer[..from] + input + buffer[from + n..];
      bufferCursor := from + |input|;
      bufferDirtyBeg := Min(bufferDirtyBeg, from);
      dirty := true;
    }

    method SetCursorPosition(position: nat)
      modifies this`bufferCursor, this`dirty
      ensures Valid() && dirty && bufferCursor == Min(position, |buffer|)
    {
      bufferCursor := Min(position, |buffer|);
      dirty := true;
    }

    /** The layout of one segment. */
    static method LayoutSegment(text: seq<Unit>, beg0: nat, end: nat, rows0: seq<Row>, width: nat) returns (rows: seq<Row>)
      requires Ends(text, beg0, end, width) && rows0 != []
      ensures rows == Lay(text, beg0, end, rows0, width)
    {
      rows := rows0;
      var beg := beg0;
      while beg < end
        invariant beg0 <= beg && Ends(text, beg, end, width) && rows != []
        invariant Lay(text, beg, end, rows, width) == Lay(text, beg0, end, rows0, width)
        decreases end - beg, if Column(rows) >= width then 0 else 1
      {
        LineAtGoesOn(text, beg, end, rows, width);
        rows, beg := LayoutNext(text, beg, end, rows, width);
      }
    }

    /** One turn of the loop. */
    static method LayoutNext(text: seq<Unit>, beg: nat, end: nat, rows0: seq<Row>, width: nat) returns (rows: seq<Row>, offset: nat)
      requires beg <= end <= |text| && rows0 != [] && width > 0
      ensures offset == LineAt(text, beg, end, rows0, width).offset
      ensures rows == Extended(rows0, LineAt(text, beg, end, rows0, width), width)
    {
      rows := rows0;
      if rows[|rows| - 1].columns >= width {
        rows := rows + [Row([], 0)];
      }
      var n := |rows| - 1;
      var at, column, items, _ := LayoutLine(text, beg, end, rows[n].columns, width);
      offset := at;
      rows := rows[..n] + [Row(rows[n].items + items, column)];
    }

    /** The layout of the buffer from a column on, and where the cursor is in it. */
    method LayoutBuffer(x: nat, width: nat) returns (rows: seq<Row>, cursor: Point)
      requires Valid() && Ends(buffer, 0, |buffer|, width)
      ensures rows == LaidOutFrom(buffer, bufferDirtyBeg, bufferCursor, x, width)
      ensures cursor == CursorEnd(buffer, bufferDirtyBeg, bufferCursor, x, width)
    {
      rows := [Row([], x)];
      cursor := Point(x, 0);
      var first, second := Min(bufferDirtyBeg, bufferCursor), Max(bufferDirtyBeg, bufferCursor);
      var moved;
      rows, moved := LayoutPart(buffer, 0, first, rows, width);
      if moved && first == bufferCursor {
        cursor := EndOf(rows);
      }
      rows, moved := LayoutPart(buffer, first, Min(second, |buffer|), rows, width);
      if moved && second == bufferCursor {
        cursor := EndOf(rows);
      }
      rows, moved := LayoutPart(buffer, Min(second, |buffer|), |buffer|, rows, width);
    }

    /** A segment that is not empty. */
    static method LayoutPart(text: seq<Unit>, beg: nat, end: nat, rows0: seq<Row>, width: nat) returns (rows: seq<Row>, moved: bool)
      requires Ends(text, beg, end, width) && rows0 != []
      ensures rows == Lay(text, beg, end, rows0, width) && moved == (beg < end)
      ensures beg == end ==> rows == rows0
    {
      rows, moved := rows0, beg < end;
      if moved {
        rows := LayoutSegment(text, beg, end, rows, width);
      }
    }

    /** The loop that tries the layout again from the left edge, once, if the rows do not fit the page. */
    method LayoutOnPage(width: nat, height: nat) returns (rows: seq<Row>, at: Point, final: Point, ghost tries: nat)
      requires Valid() && Ends(buffer, 0, |buffer|, width)
      requires 0 <= origin.x < width && 0 <= origin.y < height
      modifies this`bufferDirtyBeg
      ensures 1 <= tries <= 2 && 0 <= final.x < width && 0 <= final.y < height
      ensures rows == Rendered(buffer, if tries == 1 then old(bufferDirtyBeg) else 0, bufferCursor, final.x, width)
      ensures tries == 2 <==> origin.x != 0 && |Rendered(buffer, old(bufferDirtyBeg), bufferCursor, origin.x, width)| > height
      ensures at == Wrapped(CursorEnd(buffer, if tries == 1 then old(bufferDirtyBeg) else 0, bufferCursor, final.x, width), width)
      ensures 0 <= at.y < |rows| && 0 <= at.x < width
      ensures Display(buffer, bufferCursor, final.x, width, rows, at)
      ensures |rows| > height ==> final.x == 0
      ensures final == if tries == 1 then origin else Point(0, 0)
      ensures AllUnits(rows) == buffer
         <==> !LosesFrom(buffer, if tries == 1 then old(bufferDirtyBeg) else 0, bufferCursor, final.x, width)
    {
      var x: nat;
      x, final := origin.x, origin;
      tries := 0;
      while true
        invariant x == final.x < width && 0 <= final.y < height
        invariant if tries == 0 then bufferDirtyBeg == old(bufferDirtyBeg) && final == origin
                  else tries == 1 && final == Point(0, 0) && bufferDirtyBeg == 0
        invariant tries == 1 ==> origin.x != 0 && |Rendered(buffer, old(bufferDirtyBeg), bufferCursor, origin.x, width)| > height
        decreases if final.x != 0 then 1 else 0
      {
        rows, at := LayoutBuffer(x, width);
        tries := tries + 1;
        LayoutFits(buffer, bufferDirtyBeg, bufferCursor, x, width);
        RenderedShows(buffer, bufferDirtyBeg, bufferCursor, x, width);
        RenderedDisplays(buffer, bufferDirtyBeg, bufferCursor, x, width);
        if at.x >= width {
          at := Point(0, at.y + 1);
          if bufferCursor == |buffer| {
            rows := rows + [Row([Blank(1)], 0)];
          }
        }
        if |rows| > height && final.x != 0 {
          bufferDirtyBeg := 0;
          x := 0;
          final := Point(0, 0);
          continue;
        }
        break;
      }
    }

    /** _redisplay: however the text is laid out, the cursor ends up on the page, on one of the rows that are
        shown; the rows that are shown are rows of the text, and they fit below the origin. */
    method Redisplay(width: nat, height: nat) returns (rows: seq<Row>, cursor: Point, ghost row: nat, ghost tries: nat)
      requires Valid() && Ends(buffer, 0, |buffer|, width)
      requires 0 <= origin.x < width && 0 <= origin.y < height
      modifies this
      ensures Valid() && buffer == old(buffer) && bufferCursor == old(bufferCursor) && !dirty
      ensures 0 <= origin.x < width && 0 <= origin.y && origin.y + pagerHeight <= height
      ensures 1 <= tries <= 2 && rows == Rendered(buffer, if tries == 1 then old(bufferDirtyBeg) else 0, bufferCursor, origin.x, width)
      ensures tries == 2 <==> old(origin).x != 0 && |Rendered(buffer, old(bufferDirtyBeg), bufferCursor, old(origin).x, width)| > height
      ensures bufferDirtyBeg == |buffer|
      ensures pagerHeight == Min(|rows|, height) && 0 <= pagerContentTop <= |rows| - pagerHeight
      ensures origin.x == (if tries == 1 then old(origin).x else 0)
      ensures origin.y == (if tries == 2 then 0 else if old(origin).y + pagerHeight <= height then old(origin).y
                           else height - pagerHeight)
      ensures Point(cursor.x, row)
           == Wrapped(CursorEnd(buffer, if tries == 1 then old(bufferDirtyBeg) else 0, bufferCursor, origin.x, width), width)
      ensures Display(buffer, bufferCursor, origin.x, width, rows, Point(cursor.x, row))
      ensures |rows| > height ==> origin == Point(0, 0)
      ensures var lo, hi := (if row < pagerHeight then 0 else row - pagerHeight + 1), Min(row, |rows| - pagerHeight);
        pagerContentTop == if old(pagerContentTop) < lo then lo else if old(pagerContentTop) > hi then hi
                           else old(pagerContentTop)
      ensures pagerContentTop <= row < pagerContentTop + pagerHeight && cursor.y == origin.y + (row - pagerContentTop)
      ensures 0 <= cursor.x < width && 0 <= cursor.y < height
      ensures AllUnits(rows) == buffer
         <==> !LosesFrom(buffer, if tries == 1 then old(bufferDirtyBeg) else 0, bufferCursor, origin.x, width)
    {
      var at, final;
      rows, at, final, tries := LayoutOnPage(width, height);
      row := at.y;
      cursor := Turn(|rows|, at, final, height);
    }

    /** Scrolls the pager, and moves the origin up if the rows do not fit below it. */
    method Turn(lineCount: nat, at: Point, final: Point, height: nat) returns (cursor: Point)
      requires 0 <= at.y < lineCount && 0 <= final.y < height
      modifies this`origin, this`pagerContentTop, this`pagerHeight, this`bufferDirtyBeg, this`dirty
      ensures !dirty && bufferDirtyBeg == |buffer| && pagerHeight == Min(lineCount, height)
      ensures 0 <= pagerContentTop <= lineCount - pagerHeight
      ensures origin == Point(final.x, if final.y + pagerHeight <= height then final.y else height - pagerHeight)
      ensures pagerContentTop <= at.y < pagerContentTop + pagerHeight
      ensures var lo, hi := (if at.y < pagerHeight then 0 else at.y - pagerHeight + 1), Min(at.y, lineCount - pagerHeight);
        pagerContentTop == if old(pagerContentTop) < lo then lo else if old(pagerContentTop) > hi then hi
                           else old(pagerContentTop)
      ensures cursor == Point(at.x, origin.y + (at.y - pagerContentTop)) && 0 <= cursor.y < height
    {
      var shown := Min(lineCount, height);
      var top := ScrollTo(at.y, lineCount, shown, height);
      origin := Point(final.x, if final.y < height - shown then final.y else height - shown);
      cursor := Point(at.x, at.y + origin.y - top);
      pagerContentTop := top;
      pagerHeight := shown;
      bufferDirtyBeg := |buffer|;
      dirty := false;
    }

    /** Where the pager has to be so that the cursor's row is shown. */
    method ScrollTo(row: nat, lineCount: nat, shown: nat, height: nat) returns (top: int)
      requires row < lineCount && height > 0 && shown == Min(lineCount, height)
      ensures 0 <= top <= lineCount - shown && top <= row < top + shown
      ensures var lo, hi := (if row < shown then 0 else row - shown + 1), Min(row, lineCount - shown);
        top == if pagerContentTop < lo then lo else if pagerContentTop > hi then hi else pagerContentTop
    {
      top := pagerContentTop;
      top := if top < row then top else row;
      top := if top > row - height + 1 then top else row - height + 1;
      top := if top < 0 then 0 else if top > lineCount - shown then lineCount - shown else top;
    }
  }

  /** The cursor's row is one of the rows, and at the right edge there is a row below it unless the text ends
      there. */
  lemma {:induction false} LayoutFits(text: seq<Unit>, dirty: nat, cursor: nat, x: nat, width: nat)
    requires cursor <= |text| && Ends(text, 0, |text|, width) && x < width
    ensures var rows, at := LaidOutFrom(text, dirty, cursor, x, width), CursorEnd(text, dirty, cursor, x, width);
      && 0 <= at.x <= width && 0 <= at.y < |rows|
      && (cursor == |text| ==> at.x == Column(rows))
      && (at.x == width && cursor < |text| ==> at.y + 1 < |rows|)
  {
    var first, second := Min(dirty, cursor), Min(Max(dirty, cursor), |text|);
    var a := Lay(text, 0, first, Start(x), width);
    var b := Lay(text, first, second, a, width);
    LayFills(text, 0, first, Start(x), width);
    LayFills(text, first, second, a, width);
    LayFills(text, second, |text|, b, width);
  }

  /** The rows show the whole buffer, in order, exactly if none of the three parts loses a glyph. */
  lemma {:induction false} BufferShownIff(text: seq<Unit>, first: nat, second: nat, x: nat, width: nat)
    requires first <= second <= |text| && Ends(text, 0, |text|, width)
    ensures AllUnits(LaidOut(text, first, second, x, width)) == text <==> !LosesIn(text, first, second, x, width)
  {
    var a := Lay(text, 0, first, Start(x), width);
    var b := Lay(text, first, second, a, width);
    NothingYet(x);
    var ua, la := PartShown(text, 0, first, Start(x), width);
    var ub, lb := PartShown(text, first, second, a, width);
    var uc, lc := PartShown(text, second, |text|, b, width);
    PartsShown(text, first, second, ua, ub, uc, la, lb, lc);
  }

  lemma {:induction false} NothingYet(x: nat)
    ensures AllUnits(Start(x)) == []
  {
    OneRow(Row([], x));
  }

  /** What a part shows, and whether it loses something. */
  lemma {:induction false} PartShown(text: seq<Unit>, i: nat, end: nat, rows: seq<Row>, width: nat)
    returns (units: seq<Unit>, loses: bool)
    requires Ends(text, i, end, width) && rows != []
    ensures units == AllUnits(Lay(text, i, end, rows, width)) && loses == Loses(text, i, end, rows, width)
    ensures Added(AllUnits(rows), text[i..end], units, loses)
  {
    units, loses := AllUnits(Lay(text, i, end, rows, width)), Loses(text, i, end, rows, width);
    LayShowsIff(text, i, end, rows, width);
  }

  /** What there is after something was added: all of it, or less. */
  ghost predicate Added<T>(before: seq<T>, more: seq<T>, after: seq<T>, less: bool) {
    if less then |after| < |before| + |more| else after == before + more
  }

  /** Text that is added in three parts is whole exactly if nothing is missing from any part. */
  lemma {:induction false} PartsShown<T>(text: seq<T>, p: nat, q: nat, a: seq<T>, b: seq<T>, c: seq<T>, la: bool, lb: bool, lc: bool)
    requires p <= q <= |text|
    requires Added([], text[0..p], a, la) && Added(a, text[p..q], b, lb) && Added(b, text[q..|text|], c, lc)
    ensures c == text <==> !la && !lb && !lc
  {
    assert [] + text[0..p] + text[p..q] + text[q..|text|] == text;
  }

  ghost predicate Kept(mid: seq<Row>, rows: seq<Row>) {
    && mid != [] && |mid| <= |rows| && mid[|mid| - 1].items <= rows[|mid| - 1].items
    && forall k :: 0 <= k < |mid| - 1 ==> rows[k] == mid[k]
  }

  lemma {:induction false} PartArranged(text: seq<Unit>, i: nat, end: nat, rows: seq<Row>, x: nat, width: nat)
    requires Ends(text, i, end, width) && Arranged(rows, x, width)
    ensures var all := Lay(text, i, end, rows, width); Arranged(all, x, width) && Kept(rows, all)
  {
    LayArranged(text, i, end, rows, x, width);
    LayKeeps(text, i, end, rows, width);
  }

  lemma {:induction false} EndsStay(a: seq<Row>, b: seq<Row>, rows: seq<Row>, x: nat, width: nat)
    requires Arranged(a, x, width) && Arranged(b, x, width) && Kept(a, b) && Kept(b, rows)
    ensures EndsAt(rows, x, EndOf(a), AllUnits(a)) && EndsAt(rows, x, EndOf(b), AllUnits(b))
  {
    assert Kept(a, rows);
    StillEndsAt(a, rows, x, width);
    StillEndsAt(b, rows, x, width);
  }

  /** The three parts, one after the other, and the places where the first two end. */
  lemma {:induction false} PartsArranged(text: seq<Unit>, first: nat, second: nat, x: nat, width: nat)
    requires first <= second <= |text| && Ends(text, 0, |text|, width) && x < width
    ensures var a := Lay(text, 0, first, Start(x), width); var b := Lay(text, first, second, a, width);
      var rows := LaidOut(text, first, second, x, width);
      Arranged(rows, x, width) && EndsAt(rows, x, EndOf(a), AllUnits(a)) && EndsAt(rows, x, EndOf(b), AllUnits(b))
  {
    var a := Lay(text, 0, first, Start(x), width);
    var b := Lay(text, first, second, a, width);
    PartArranged(text, 0, first, Start(x), x, width);
    PartArranged(text, first, second, a, x, width);
    PartArranged(text, second, |text|, b, x, width);
    EndsStay(a, b, LaidOut(text, first, second, x, width), x, width);
  }

  /** What the text before the cursor shows. */
  lemma {:induction false} BeforeShown(text: seq<Unit>, first: nat, second: nat, x: nat, width: nat)
    requires first <= second <= |text| && Ends(text, 0, |text|, width)
    ensures var a := AllUnits(Lay(text, 0, first, Start(x), width));
      var b := AllUnits(Lay(text, first, second, Lay(text, 0, first, Start(x), width), width));
      && |a| <= first && |b| <= second
      && (AllUnits(LaidOut(text, first, second, x, width)) == text ==> a == text[..first] && b == text[..second])
  {
    var a := Lay(text, 0, first, Start(x), width);
    var b := Lay(text, first, second, a, width);
    NothingYet(x);
    var ua, la := PartShown(text, 0, first, Start(x), width);
    var ub, lb := PartShown(text, first, second, a, width);
    var uc, lc := PartShown(text, second, |text|, b, width);
    PartsBefore(text, first, second, ua, ub, uc, la, lb, lc);
  }

  lemma {:induction false} PartsBefore<T>(text: seq<T>, p: nat, q: nat, a: seq<T>, b: seq<T>, c: seq<T>, la: bool, lb: bool, lc: bool)
    requires p <= q <= |text|
    requires Added([], text[0..p], a, la) && Added(a, text[p..q], b, lb) && Added(b, text[q..|text|], c, lc)
    ensures |a| <= p && |b| <= q && (c == text ==> a == text[..p] && b == text[..q])
  {
    PartsShown(text, p, q, a, b, c, la, lb, lc);
    if c == text {
      assert [] + text[0..p] == text[..p] && text[..p] + text[p..q] == text[..q];
    }
  }

  lemma {:induction false} RenderedDisplays(text: seq<Unit>, dirty: nat, cursor: nat, x: nat, width: nat)
    requires cursor <= |text| && Ends(text, 0, |text|, width) && x < width
    ensures Display(text, cursor, x, width, Rendered(text, dirty, cursor, x, width),
                    Wrapped(CursorEnd(text, dirty, cursor, x, width), width))
  {
    var first, second := Min(dirty, cursor), Min(Max(dirty, cursor), |text|);
    var a := Lay(text, 0, first, Start(x), width);
    var b := Lay(text, first, second, a, width);
    var laid := LaidOutFrom(text, dirty, cursor, x, width);
    PartsArranged(text, first, second, x, width);
    BeforeShown(text, first, second, x, width);
    var mid := if dirty < cursor then b else a;
    assert laid + [] == laid;
    assert Shows(text, cursor, x, width, Rendered(text, dirty, cursor, x, width),
                 Wrapped(CursorEnd(text, dirty, cursor, x, width), width), laid, EndOf(mid), AllUnits(mid));
  }

  lemma {:induction false} RenderedShows(text: seq<Unit>, dirty: nat, cursor: nat, x: nat, width: nat)
    requires cursor <= |text| && Ends(text, 0, |text|, width)
    ensures AllUnits(Rendered(text, dirty, cursor, x, width)) == text <==> !LosesFrom(text, dirty, cursor, x, width)
  {
    BufferShownIff(text, Min(dirty, cursor), Min(Max(dirty, cursor), |text|), x, width);
    CursorRow(LaidOutFrom(text, dirty, cursor, x, width));
  }

  /** The row that is added for the cursor shows nothing. */
  lemma {:induction false} CursorRow(rows: seq<Row>)
    ensures AllUnits(rows + [Row([Blank(1)], 0)]) == AllUnits(rows)
  {
    var row := Row([Blank(1)], 0);
    assert (rows + [row])[..|rows|] == rows && row.items[1..] == [];
  }
}
