/** Scrolling a rectangle of the screen buffer in place. */
module ScreenScroll {
  import opened Basics
  import opened Viewport

  datatype Cell = Cell(ch: int, attr: int)

  const SPACE := 0x20

  function Shift(p: Point, dx: int, dy: int): Point {
    Point(p.x + dx, p.y + dy)
  }

  function Moved(v: View, dx: int, dy: int): View {
    View(v.left + dx, v.top + dy, v.right + dx, v.bottom + dy)
  }

  /** What the buffer shows: a cell at every position. */
  type Picture = Point -> Cell

  /** The rectangle `source` of f copied dx, dy further, over whatever was there. */
  ghost function Copied(f: Picture, source: View, dx: int, dy: int, p: Point): (c: Cell) {
    if source.Has(Shift(p, -dx, -dy)) then f(Shift(p, -dx, -dy)) else f(p)
  }

  /** The same with only the target cells passed so far written. */
  ghost function PartlyCopied(f: Picture, target: View, dx: int, dy: int, dir: int, at: Point, p: Point): (c: Cell) {
    if target.Has(p) && Passed(dir, p, at) then f(Shift(p, -dx, -dy)) else f(p)
  }

  /** Writing the cell the walk stands on, and stepping on, is one step of the copy; after the last
      cell the copy is complete. */
  lemma {:induction false} CopyAdvances(f: Picture, source: View, target: View, dx: int, dy: int, dir: int, at: Point, p: Point)
    requires target.IsValid() && target.Has(at) && target == Moved(source, dx, dy)
    ensures var (to, more) := Next(target, at, dir);
            var now := if p == at then f(Shift(p, -dx, -dy)) else PartlyCopied(f, target, dx, dy, dir, at, p);
            now == if more then PartlyCopied(f, target, dx, dy, dir, to, p) else Copied(f, source, dx, dy, p)
  {
    if target.Has(p) {
      NextPasses(target, at, dir, p);
    }
  }

  /** The cell read ahead has not been overwritten yet. */
  lemma {:induction false} ReadAheadIntact(f: Picture, source: View, target: View, dx: int, dy: int, dir: int, at: Point)
    requires source.IsValid() && target == Moved(source, dx, dy) && source.Has(at)
    requires (dir == 1 || dir == -1) && Passed(dir, target.Origin(), source.Origin())
    ensures var to := Next(source, at, dir).0;
            source.Has(to) && PartlyCopied(f, target, dx, dy, dir, Shift(at, dx, dy), to) == f(to)
  {
  }

  lemma {:induction false} NextMoves(source: View, dx: int, dy: int, dir: int, at: Point)
    ensures var n, m := Next(source, at, dir), Next(Moved(source, dx, dy), Shift(at, dx, dy), dir);
            m.0 == Shift(n.0, dx, dy) && m.1 == n.1
  {
  }

  /** The cell used for uncovered space. */
  function FillCell(ch: int, attr: int, defaultAttr: int): Cell {
    if ch == 0 && attr == 0 then Cell(SPACE, defaultAttr) else Cell(ch, attr)
  }

  // ----- what a scroll promises, and when

  /** "Copy to a third buffer, fill, paste", with a source and a clip inside the buffer: a clipped
      cell whose origin is in the source gets the old cell from there, any other clipped cell of the
      source gets the fill, everything else stays. */
  ghost function ThreeBuffers(f: Picture, source: View, clip: View, dx: int, dy: int, fill: Cell, p: Point): (c: Cell) {
    if clip.Has(p) && source.Has(Shift(p, -dx, -dy)) then f(Shift(p, -dx, -dy))
    else if clip.Has(p) && source.Has(p) then fill
    else f(p)
  }

  /** What ScrollRegion does: nothing at all when no cell of the source is inside the clip. */
  ghost function Scrolled(f: Picture, source: View, clip: View, dx: int, dy: int, fill: Cell, p: Point): (c: Cell) {
    if !Intersect(clip, source).IsValid() then f(p) else ThreeBuffers(f, source, clip, dx, dy, fill, p)
  }

  /** A caller can tell beforehand whether the early exit is harmless: it is unless the source misses
      the clip while the target does not. */
  predicate ExitIsHarmless(source: View, clip: View, dx: int, dy: int) {
    Intersect(clip, source).IsValid() || !Intersect(clip, Moved(source, dx, dy)).IsValid()
  }

  ghost predicate AlwaysThreeBuffers(bounds: View, source: View, clip: View, dx: int, dy: int, fill: Cell) {
    forall f: Picture, p: Point :: bounds.Has(p) ==>
      Scrolled(f, source, clip, dx, dy, fill, p) == ThreeBuffers(f, source, clip, dx, dy, fill, p)
  }

  /** ScrollRegion meets its description for every content of the buffer exactly when the early exit
      is harmless. */
  lemma {:induction false} MeetsDescriptionIff(bounds: View, source: View, clip: View, dx: int, dy: int, fill: Cell)
    requires bounds.IsValid() && (source.IsValid() || source == EMPTY) && (clip.IsValid() || clip == EMPTY)
    requires forall p :: clip.Has(p) || source.Has(p) ==> bounds.Has(p)
    ensures AlwaysThreeBuffers(bounds, source, clip, dx, dy, fill) <==> ExitIsHarmless(source, clip, dx, dy)
  {
    var there := Intersect(clip, Moved(source, dx, dy));
    if ExitIsHarmless(source, clip, dx, dy) {
      forall f: Picture, p: Point | bounds.Has(p)
        ensures Scrolled(f, source, clip, dx, dy, fill, p) == ThreeBuffers(f, source, clip, dx, dy, fill, p)
      {
        IntersectHas(clip, source, p);
        IntersectHas(clip, Moved(source, dx, dy), p);
      }
    } else {
      var p, f := there.Origin(), ((q: Point) => if q == there.Origin() then Cell(0, 0) else Cell(1, 0));
      IntersectHas(clip, source, p);
      IntersectHas(clip, Moved(source, dx, dy), p);
      assert Scrolled(f, source, clip, dx, dy, fill, p) != ThreeBuffers(f, source, clip, dx, dy, fill, p);
    }
  }

  /** An instance: a scroll of the top row down by one, clipped to the second row, copies nothing. */
  lemma {:induction false} EarlyExitExample(f: Picture)
    requires f(Point(0, 0)) != f(Point(0, 1))
    ensures var source, clip := View(0, 0, 0, 0), View(0, 1, 0, 1);
            Scrolled(f, source, clip, 0, 1, Cell(SPACE, 0), Point(0, 1))
              != ThreeBuffers(f, source, clip, 0, 1, Cell(SPACE, 0), Point(0, 1))
  {
  }

  class Screen {
    const width: nat
    const height: nat
    const defaultAttr: int
    const cells: array2<Cell>

    ghost predicate Valid() {
      1 <= width && 1 <= height && cells.Length0 == height && cells.Length1 == width
    }

    function Bounds(): View {
      View(0, 0, width - 1, height - 1)
    }

    function At(x: int, y: int): (c: Cell)
      requires Valid() && 0 <= x < width && 0 <= y < height
      reads cells
    {
      cells[y, x]
    }

    ghost predicate Shows(f: Picture)
      requires Valid()
      reads cells
    {
      forall x, y {:trigger At(x, y)} :: 0 <= x < width && 0 <= y < height ==> At(x, y) == f(Point(x, y))
    }

    constructor (width: nat, height: nat, defaultAttr: int)
      requires 1 <= width && 1 <= height
      ensures Valid() && fresh(cells) && this.width == width && this.height == height && this.defaultAttr == defaultAttr
    {
      this.width, this.height, this.defaultAttr := width, height, defaultAttr;
      cells := new Cell[height, width]((_, _) => Cell(SPACE, defaultAttr));
    }

    /** A rectangle that lies inside the buffer. */
    ghost predicate Within(v: View) {
      v.IsValid() && v.right < width && v.bottom < height
    }

    method CopyRow(src: int, dst: int)
      requires Valid() && 0 <= src < height && 0 <= dst < height
      modifies cells
      ensures forall x, y {:trigger At(x, y)} :: 0 <= x < width && 0 <= y < height ==>
                At(x, y) == if y == dst then old(At(x, src)) else old(At(x, y))
    {
      forall x | 0 <= x < width {
        cells[dst, x] := cells[src, x];
      }
    }

    /** Rows lo .. hi-1 of f have been copied delta rows further. */
    ghost predicate RowsCopied(f: Picture, lo: int, hi: int, delta: int)
      requires Valid()
      reads cells
    {
      forall x, y {:trigger At(x, y)} :: 0 <= x < width && 0 <= y < height ==>
        At(x, y) == if lo <= y - delta < hi then f(Point(x, y - delta)) else f(Point(x, y))
    }

    /** TextBuffer::ScrollRows, on rows that stay inside the buffer. */
    method ScrollRows(firstRow: int, size0: int, delta: int, ghost f: Picture)
      requires Valid() && Shows(f)
      requires size0 > 0 ==> 0 <= firstRow && firstRow + size0 <= height
      requires size0 > 0 ==> 0 <= firstRow + delta && firstRow + size0 + delta <= height
      modifies cells
      ensures RowsCopied(f, firstRow, firstRow + size0, delta)
    {
      if delta == 0 {
        return;
      }
      var size := if size0 > 0 then size0 else 0;
      var y, end, step;
      if delta < 0 {
        y, end, step := firstRow, firstRow + size, 1;
      } else {
        y, end, step := firstRow + size - 1, firstRow - 1, -1;
      }
      while y != end
        invariant delta < 0 ==> firstRow <= y <= firstRow + size && RowsCopied(f, firstRow, y, delta)
        invariant delta > 0 ==> firstRow - 1 <= y < firstRow + size && RowsCopied(f, y + 1, firstRow + size, delta)
        decreases if delta < 0 then end - y else y - end
      {
        CopyRow(y, y + delta);
        y := y + step;
      }
    }

    /** The buffer shows `source` of f copied dx, dy further. */
    ghost predicate ShowsCopied(f: Picture, source: View, dx: int, dy: int)
      requires Valid()
      reads cells
    {
      forall x, y {:trigger At(x, y)} :: 0 <= x < width && 0 <= y < height ==>
        At(x, y) == Copied(f, source, dx, dy, Point(x, y))
    }

    /** The copy has got as far as the target position `at`, in the given direction. */
    ghost predicate CopiedUpTo(f: Picture, target: View, dx: int, dy: int, dir: int, at: Point)
      requires Valid()
      reads cells
    {
      forall x, y {:trigger At(x, y)} :: 0 <= x < width && 0 <= y < height ==>
        At(x, y) == PartlyCopied(f, target, dx, dy, dir, at, Point(x, y))
    }

    /** _CopyRectangle. */
    method CopyRectangle(source: View, targetOrigin: Point, ghost f: Picture)
      requires Valid() && Shows(f) && Within(source)
      requires Within(FromDimensions(targetOrigin, source.Width(), source.Height()))
      modifies cells
      ensures ShowsCopied(f, source, targetOrigin.x - source.left, targetOrigin.y - source.top)
    {
      if source.Origin() == targetOrigin {
        return;
      }
      var sourceFullRows := source.Width() == width;
      var verticalCopyOnly := source.left == 0 && targetOrigin.x == 0;
      if sourceFullRows && verticalCopyOnly {
        ScrollRows(source.top, source.Height(), targetOrigin.y - source.top, f);
        return;
      }
      WalkCopy(source, targetOrigin, f);
    }

    /** The cell-by-cell copy, reading one cell ahead of the writes. */
    method WalkCopy(source: View, targetOrigin: Point, ghost f: Picture)
      requires Valid() && Shows(f) && Within(source) && source.Origin() != targetOrigin
      requires Within(FromDimensions(targetOrigin, source.Width(), source.Height()))
      modifies cells
      ensures ShowsCopied(f, source, targetOrigin.x - source.left, targetOrigin.y - source.top)
    {
      var target := FromDimensions(targetOrigin, source.Width(), source.Height());
      var dir := WalkDirection(source, target);
      ghost var dx, dy := targetOrigin.x - source.left, targetOrigin.y - source.top;
      var sourcePos, targetPos := WalkOrigin(source, dir), WalkOrigin(target, dir);
      var next := At(sourcePos.x, sourcePos.y);
      var more := true;
      while more
        invariant target.Has(targetPos)
        invariant more ==> sourcePos == Shift(targetPos, -dx, -dy) && next == f(sourcePos)
        invariant more ==> CopiedUpTo(f, target, dx, dy, dir, targetPos)
        invariant !more ==> ShowsCopied(f, source, dx, dy)
        decreases more, if dir >= 0 then target.bottom - targetPos.y else targetPos.y - target.top,
                  if dir >= 0 then target.right - targetPos.x else targetPos.x - target.left
      {
        sourcePos, targetPos, next, more := CopyCell(source, target, dir, sourcePos, targetPos, next, f, dx, dy);
      }
    }

    /** One round: reads the next source cell, then writes the current one, then steps on. */
    method CopyCell(source: View, target: View, dir: int, sourcePos: Point, targetPos: Point, current: Cell,
                    ghost f: Picture, ghost dx: int, ghost dy: int)
        returns (sourceNext: Point, targetNext: Point, next: Cell, more: bool)
      requires Valid() && Within(source) && Within(target) && (dir == 1 || dir == -1) && target.Has(targetPos)
      requires target == Moved(source, dx, dy) && Passed(dir, target.Origin(), source.Origin())
      requires sourcePos == Shift(targetPos, -dx, -dy) && current == f(sourcePos)
      requires CopiedUpTo(f, target, dx, dy, dir, targetPos)
      modifies cells
      ensures (targetNext, more) == Next(target, targetPos, dir)
      ensures more ==> sourceNext == Shift(targetNext, -dx, -dy) && next == f(sourceNext)
      ensures more ==> CopiedUpTo(f, target, dx, dy, dir, targetNext)
      ensures !more ==> ShowsCopied(f, source, dx, dy)
    {
      sourceNext, next := ReadAhead(source, target, dir, sourcePos, f, dx, dy);
      NextMoves(source, dx, dy, dir, sourcePos);
      targetNext, more := Walk(target, targetPos, dir);
      WriteCell(source, target, dir, targetPos, current, f, dx, dy, targetNext, more);
    }

    method ReadAhead(source: View, target: View, dir: int, at: Point, ghost f: Picture, ghost dx: int, ghost dy: int)
        returns (to: Point, c: Cell)
      requires Valid() && Within(source) && (dir == 1 || dir == -1) && source.Has(at)
      requires target == Moved(source, dx, dy) && Passed(dir, target.Origin(), source.Origin())
      requires CopiedUpTo(f, target, dx, dy, dir, Shift(at, dx, dy))
      ensures to == Next(source, at, dir).0 && c == f(to)
    {
      ReadAheadIntact(f, source, target, dx, dy, dir, at);
      var more;
      to, more := Walk(source, at, dir);
      c := At(to.x, to.y);
    }

    method WriteCell(source: View, target: View, dir: int, at: Point, c: Cell, ghost f: Picture, ghost dx: int, ghost dy: int,
                     ghost to: Point, ghost more: bool)
      requires Valid() && Within(target) && target.Has(at) && target == Moved(source, dx, dy)
      requires c == f(Shift(at, -dx, -dy)) && (to, more) == Next(target, at, dir)
      requires CopiedUpTo(f, target, dx, dy, dir, at)
      modifies cells
      ensures more ==> CopiedUpTo(f, target, dx, dy, dir, to)
      ensures !more ==> ShowsCopied(f, source, dx, dy)
    {
      cells[at.y, at.x] := c;
      forall x, y | 0 <= x < width && 0 <= y < height
        ensures At(x, y) == if more then PartlyCopied(f, target, dx, dy, dir, to, Point(x, y))
                            else Copied(f, source, dx, dy, Point(x, y))
      {
        CopyAdvances(f, source, target, dx, dy, dir, at, Point(x, y));
        assert Point(x, y) != at ==> At(x, y) == old(At(x, y));
      }
    }

    /** SCREEN_INFORMATION::WriteRect with an endless run of one cell. */
    method WriteRect(fill: Cell, v: View)
      requires Valid() && Within(v)
      modifies cells
      ensures forall x, y {:trigger At(x, y)} :: 0 <= x < width && 0 <= y < height ==>
                At(x, y) == if v.Has(Point(x, y)) then fill else old(At(x, y))
    {
      var i := v.top;
      while i < v.bottom + 1
        invariant v.top <= i <= v.bottom + 1
        invariant forall x, y {:trigger At(x, y)} :: 0 <= x < width && 0 <= y < height ==>
                    At(x, y) == if v.Has(Point(x, y)) && y < i then fill else old(At(x, y))
      {
        forall x | v.left <= x <= v.right {
          cells[i, x] := fill;
        }
        i := i + 1;
      }
    }

    /** Fills every rectangle of a list. */
    method FillAll(fill: Cell, vs: seq<View>)
      requires Valid() && forall i :: 0 <= i < |vs| ==> Within(vs[i])
      modifies cells
      ensures forall x, y {:trigger At(x, y)} :: 0 <= x < width && 0 <= y < height ==>
                At(x, y) == if AnyHas(vs, Point(x, y)) then fill else old(At(x, y))
    {
      var i := 0;
      while i < |vs|
        invariant 0 <= i <= |vs|
        invariant forall x, y {:trigger At(x, y)} :: 0 <= x < width && 0 <= y < height ==>
                    At(x, y) == if AnyHas(vs[..i], Point(x, y)) then fill else old(At(x, y))
      {
        WriteRect(fill, vs[i]);
        forall p
          ensures AnyHas(vs[..i + 1], p) <==> AnyHas(vs[..i], p) || vs[i].Has(p)
        {
          ConcatHas(vs[..i], [vs[i]], p);
          assert vs[..i + 1] == vs[..i] + [vs[i]];
          assert [vs[i]][0] == vs[i];
        }
        i := i + 1;
      }
      assert vs[..i] == vs;
    }

    ghost predicate ShowsScrolled(f: Picture, source: View, clip: View, dx: int, dy: int, fill: Cell)
      requires Valid()
      reads cells
    {
      forall x, y {:trigger At(x, y)} :: 0 <= x < width && 0 <= y < height ==>
        At(x, y) == Scrolled(f, source, clip, dx, dy, fill, Point(x, y))
    }

    /** The clip in force: the given one, or the whole buffer, in either case within the buffer. */
    function Clip(clipRect: Option<View>): (clip: View)
      requires Valid()
      ensures forall p: Point :: clip.Has(p) <==> Bounds().Has(p) && (clipRect.None? || clipRect.value.Has(p))
    {
      var other := if clipRect == None then Bounds() else clipRect.value;
      assert forall p: Point :: Intersect(Bounds(), other).Has(p) <==> Bounds().Has(p) && other.Has(p) by {
        IntersectHasAll(Bounds(), other);
      }
      Intersect(Bounds(), other)
    }

    /** A position of the buffer that the clip, if there is one, lets through. */
    predicate Unclipped(clipRect: Option<View>, p: Point) {
      clipRect.None? || clipRect.value.Has(p)
    }

    /** A position of the buffer that is scrolled. */
    predicate Source(scrollRect: View, p: Point) {
      scrollRect.Has(p) && 0 <= p.x < width && 0 <= p.y < height
    }

    /** Something that is scrolled lies inside the clip. */
    ghost predicate Touched(scrollRect: View, clipRect: Option<View>) {
      exists p: Point :: Source(scrollRect, p) && Unclipped(clipRect, p)
    }

    /** ScrollRegion. */
    method ScrollRegion(scrollRect: View, clipRect: Option<View>, dest: Point, fillCh: int, fillAttr: int, ghost f: Picture)
      requires Valid() && Shows(f)
      modifies cells
      ensures ShowsScrolled(f, Intersect(scrollRect, Bounds()), Clip(clipRect),
                            dest.x - scrollRect.left, dest.y - scrollRect.top, FillCell(fillCh, fillAttr, defaultAttr))
      ensures ShowsAfter(f, scrollRect, clipRect, dest.x - scrollRect.left, dest.y - scrollRect.top,
                         if fillCh == 0 && fillAttr == 0 then Cell(0x20, defaultAttr) else Cell(fillCh, fillAttr))
      ensures clipRect.Some? ==> forall x, y {:trigger At(x, y)} :: 0 <= x < width && 0 <= y < height ==>
        !clipRect.value.Has(Point(x, y)) ==> At(x, y) == f(Point(x, y))
    {
      var cell := FillCell(fillCh, fillAttr, defaultAttr);
      ScrollWith(scrollRect, clipRect, dest, cell, f);
      forall x, y | 0 <= x < width && 0 <= y < height
        ensures At(x, y) == CellAfter(f, scrollRect, clipRect, dest.x - scrollRect.left, dest.y - scrollRect.top, cell, Point(x, y))
      {
        ScrolledMeans(scrollRect, clipRect, f, dest.x - scrollRect.left, dest.y - scrollRect.top, cell, Point(x, y));
      }
    }

    ghost predicate ShowsAfter(f: Picture, scrollRect: View, clipRect: Option<View>, dx: int, dy: int, fill: Cell)
      requires Valid()
      reads cells
    {
      forall x, y {:trigger At(x, y)} :: 0 <= x < width && 0 <= y < height ==>
        At(x, y) == CellAfter(f, scrollRect, clipRect, dx, dy, fill, Point(x, y))
    }

    /** What the cell at p is to be, without the rectangles that the code works with. */
    ghost function CellAfter(f: Picture, scrollRect: View, clipRect: Option<View>, dx: int, dy: int, fill: Cell, p: Point): Cell {
      if !Touched(scrollRect, clipRect) || !Unclipped(clipRect, p) then f(p)
      else if Source(scrollRect, Shift(p, -dx, -dy)) then f(Shift(p, -dx, -dy))
      else if Source(scrollRect, p) then fill
      else f(p)
    }

    method ScrollWith(scrollRect: View, clipRect: Option<View>, dest: Point, cell: Cell, ghost f: Picture)
      requires Valid() && Shows(f)
      modifies cells
      ensures ShowsScrolled(f, Intersect(scrollRect, Bounds()), Clip(clipRect),
                            dest.x - scrollRect.left, dest.y - scrollRect.top, cell)
    {
      var source, clip := Intersect(scrollRect, Bounds()), Clip(clipRect);
      ghost var dx, dy := dest.x - scrollRect.left, dest.y - scrollRect.top;
      if !source.IsValid() {
        Unscrolled(f, source, clip, dx, dy, cell);
        return;
      }
      var fill := Intersect(clip, source);
      if !fill.IsValid() {
        Unscrolled(f, source, clip, dx, dy, cell);
        return;
      }
      InsideBounds(scrollRect, clipRect);
      ScrollInside(source, clip, fill, scrollRect, dest, cell, f, dx, dy);
    }

    lemma {:induction false} ScrolledMeans(scrollRect: View, clipRect: Option<View>, f: Picture, dx: int, dy: int, fill: Cell, p: Point)
      requires Valid() && Bounds().Has(p)
      ensures Scrolled(f, Intersect(scrollRect, Bounds()), Clip(clipRect), dx, dy, fill, p)
           == CellAfter(f, scrollRect, clipRect, dx, dy, fill, p)
    {
      TouchedIff(scrollRect, clipRect);
      IntersectHas(scrollRect, Bounds(), p);
      IntersectHas(scrollRect, Bounds(), Shift(p, -dx, -dy));
    }

    lemma {:induction false} TouchedIff(scrollRect: View, clipRect: Option<View>)
      requires Valid()
      ensures Touched(scrollRect, clipRect) <==> Intersect(Clip(clipRect), Intersect(scrollRect, Bounds())).IsValid()
    {
      var source, clip := Intersect(scrollRect, Bounds()), Clip(clipRect);
      var both := Intersect(clip, source);
      IntersectHasAll(scrollRect, Bounds());
      IntersectHasAll(clip, source);
      if both.IsValid() {
        assert both.Has(both.Origin());
        assert Source(scrollRect, both.Origin()) && Unclipped(clipRect, both.Origin());
      }
      if Touched(scrollRect, clipRect) {
        var p :| Source(scrollRect, p) && Unclipped(clipRect, p);
        assert clip.Has(p) && source.Has(p);
        assert both.Has(p);
      }
    }

    /** What is done once there is something to fill. */
    method ScrollInside(source: View, clip: View, fill: View, scrollRect: View, dest: Point, cell: Cell,
                        ghost f: Picture, ghost dx: int, ghost dy: int)
      requires Valid() && Shows(f) && Within(source) && Within(clip) && Within(fill)
      requires fill == Intersect(clip, source) && dx == dest.x - scrollRect.left && dy == dest.y - scrollRect.top
      modifies cells
      ensures ShowsScrolled(f, source, clip, dx, dy, cell)
    {
      var sourceBack, target := Aim(source, clip, scrollRect, dest);
      CopyAndFill(sourceBack, target, fill, cell, f, source, clip, dx, dy);
    }

    lemma {:induction false} Unscrolled(f: Picture, source: View, clip: View, dx: int, dy: int, fill: Cell)
      requires Valid() && Shows(f) && (source.IsValid() || source == EMPTY)
      ensures source == EMPTY || !Intersect(clip, source).IsValid() ==> ShowsScrolled(f, source, clip, dx, dy, fill)
    {
    }

    /** Where the source goes, clipped, and the part of the source that goes there. */
    method Aim(source: View, clip: View, scrollRect: View, dest: Point) returns (sourceBack: View, target: View)
      ensures target == Intersect(clip, Moved(source, dest.x - scrollRect.left, dest.y - scrollRect.top))
      ensures target == Moved(sourceBack, dest.x - scrollRect.left, dest.y - scrollRect.top)
    {
      var targetOrigin := Point(dest.x + source.left - scrollRect.left, dest.y + source.top - scrollRect.top);
      target := FromDimensions(targetOrigin, source.Width(), source.Height());
      assert target == Moved(source, dest.x - scrollRect.left, dest.y - scrollRect.top);
      target := Intersect(clip, target);
      sourceBack := FromDimensions(Point(source.left + target.left - targetOrigin.x,
                                         source.top + target.top - targetOrigin.y),
                                   target.Width(), target.Height());
    }

    lemma {:induction false} InsideBounds(scrollRect: View, clipRect: Option<View>)
      requires Valid() && Intersect(Clip(clipRect), Intersect(scrollRect, Bounds())).IsValid()
      ensures Within(Intersect(scrollRect, Bounds())) && Within(Clip(clipRect))
      ensures Within(Intersect(Clip(clipRect), Intersect(scrollRect, Bounds())))
    {
      IntersectInside(scrollRect, Bounds());
      IntersectInside(Bounds(), if clipRect == None then Bounds() else clipRect.value);
      IntersectInside(Clip(clipRect), Intersect(scrollRect, Bounds()));
    }

    /** The last two steps: copy if there is a target, then fill what it left uncovered. */
    method CopyAndFill(source: View, target: View, fill: View, cell: Cell,
                       ghost f: Picture, ghost whole: View, ghost clip: View, ghost dx: int, ghost dy: int)
      requires Valid() && Shows(f) && Within(whole) && Within(clip) && Within(fill)
      requires fill == Intersect(clip, whole) && target == Intersect(clip, Moved(whole, dx, dy))
      requires target.IsValid() ==> target == Moved(source, dx, dy)
      modifies cells
      ensures ShowsScrolled(f, whole, clip, dx, dy, cell)
    {
      if target.IsValid() {
        CopyRectangle(source, target.Origin(), f);
      }
      RemainingWithin(fill, target);
      FillAll(cell, Subtract(fill, target));
      forall x, y | 0 <= x < width && 0 <= y < height
        ensures At(x, y) == Scrolled(f, whole, clip, dx, dy, cell, Point(x, y))
      {
        FinalCell(f, whole, clip, source, target, fill, dx, dy, cell, Point(x, y));
      }
    }

    lemma {:induction false} RemainingWithin(fill: View, target: View)
      requires Within(fill)
      ensures forall p :: AnyHas(Subtract(fill, target), p) <==> fill.Has(p) && !target.Has(p)
      ensures forall i :: 0 <= i < |Subtract(fill, target)| ==> Within(Subtract(fill, target)[i])
    {
      var rs := Subtract(fill, target);
      SubtractExact(fill, target);
      forall i | 0 <= i < |rs|
        ensures Within(rs[i])
      {
        assert rs[i].Has(Point(rs[i].right, rs[i].bottom));
        assert AnyHas(rs, Point(rs[i].right, rs[i].bottom));
      }
    }
  }

  /** Copied, then filled where the target did not reach: the promised cell. */
  lemma {:induction false} FinalCell(f: Picture, whole: View, clip: View, source: View, target: View, fill: View, dx: int, dy: int,
                  cell: Cell, p: Point)
    requires whole.IsValid() && clip.IsValid() && fill.IsValid()
    requires fill == Intersect(clip, whole) && target == Intersect(clip, Moved(whole, dx, dy))
    requires target.IsValid() ==> target == Moved(source, dx, dy)
    ensures var copied := if target.IsValid() then Copied(f, source, dx, dy, p) else f(p);
            Scrolled(f, whole, clip, dx, dy, cell, p) == if fill.Has(p) && !target.Has(p) then cell else copied
  {
    IntersectHas(clip, whole, p);
    IntersectHas(clip, Moved(whole, dx, dy), p);
  }
}
