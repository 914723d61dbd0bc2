/** Rectangles of the console buffer: the parts of Viewport that scrolling rests on. */
module Viewport {
  import opened Basics

  /** An inclusive rectangle; an operation that finds no area gives back EMPTY. */
  datatype View = View(left: int, top: int, right: int, bottom: int) {
    predicate IsValid() {
      left >= 0 && top >= 0 && right >= left && bottom >= top
    }

    function Width(): int {
      right + 1 - left
    }

    function Height(): int {
      bottom + 1 - top
    }

    function Origin(): Point {
      Point(left, top)
    }

    predicate Has(p: Point) {
      left <= p.x <= right && top <= p.y <= bottom
    }
  }

  const EMPTY := View(0, 0, -1, -1)

  function FromDimensions(origin: Point, width: int, height: int): View {
    View(origin.x, origin.y, origin.x + width - 1, origin.y + height - 1)
  }

  function Intersect(a: View, b: View): (r: View)
    ensures r.IsValid() || r == EMPTY
  {
    var i := View(Max(a.left, b.left), Max(a.top, b.top), Min(a.right, b.right), Min(a.bottom, b.bottom));
    if i.IsValid() then i else EMPTY
  }

  /** If either operand lies in the non-negative quadrant, as buffers do, the intersection holds
      exactly the common points. */
  lemma {:induction false} IntersectHas(a: View, b: View, p: Point)
    requires (a.left >= 0 && a.top >= 0) || (b.left >= 0 && b.top >= 0)
    ensures Intersect(a, b).Has(p) <==> a.Has(p) && b.Has(p)
  {
  }

  lemma {:induction false} IntersectHasAll(a: View, b: View)
    requires (a.left >= 0 && a.top >= 0) || (b.left >= 0 && b.top >= 0)
    ensures forall p :: Intersect(a, b).Has(p) <==> a.Has(p) && b.Has(p)
  {
    forall p ensures Intersect(a, b).Has(p) <==> a.Has(p) && b.Has(p) {
      IntersectHas(a, b, p);
    }
  }

  lemma {:induction false} IntersectInside(a: View, b: View)
    requires Intersect(a, b).IsValid()
    ensures var r := Intersect(a, b);
            && a.left <= r.left && r.right <= a.right && a.top <= r.top && r.bottom <= a.bottom
            && b.left <= r.left && r.right <= b.right && b.top <= r.top && r.bottom <= b.bottom
  {
  }

  ghost predicate Apart(a: View, b: View) {
    forall p :: !(a.Has(p) && b.Has(p))
  }

  function Keep(v: View): seq<View> {
    if v.IsValid() then [v] else []
  }

  /** The part of `original` outside `removed`, cut into valid, non-overlapping rectangles. */
  function Subtract(original: View, removed: View): (rs: seq<View>) {
    var common := Intersect(original, removed);
    if !original.IsValid() then []
    else if !common.IsValid() then [original]
    else if original == common then []
    else
      Keep(Top(original, common)) + Keep(Bottom(original, common)) + Keep(Left(original, common)) + Keep(Right(original, common))
  }

  /** Valid rectangles, no two of which overlap. */
  ghost predicate Tiles(vs: seq<View>) {
    && (forall i :: 0 <= i < |vs| ==> vs[i].IsValid())
    && (forall i, j :: 0 <= i < j < |vs| ==> Apart(vs[i], vs[j]))
  }

  lemma {:induction false} TilesConcat(a: seq<View>, b: seq<View>)
    requires Tiles(a) && Tiles(b)
    requires forall i, j :: 0 <= i < |a| && 0 <= j < |b| ==> Apart(a[i], b[j])
    ensures Tiles(a + b)
  {
  }

  lemma {:induction false} SubtractExact(original: View, removed: View)
    requires original.IsValid()
    ensures var rs := Subtract(original, removed);
            && Tiles(rs)
            && (forall p :: AnyHas(rs, p) <==> original.Has(p) && !removed.Has(p))
  {
    SubtractTiles(original, removed);
    forall p
      ensures AnyHas(Subtract(original, removed), p) <==> original.Has(p) && !removed.Has(p)
    {
      SubtractHas(original, removed, p);
    }
  }

  function Top(original: View, common: View): View {
    View(original.left, original.top, original.right, common.top - 1)
  }

  function Bottom(original: View, common: View): View {
    View(original.left, common.bottom + 1, original.right, original.bottom)
  }

  function Left(original: View, common: View): View {
    View(original.left, common.top, common.left - 1, common.bottom)
  }

  function Right(original: View, common: View): View {
    View(common.right + 1, common.top, original.right, common.bottom)
  }

  lemma {:induction false} SubtractTiles(original: View, removed: View)
    requires original.IsValid()
    ensures Tiles(Subtract(original, removed))
  {
    var c := Intersect(original, removed);
    if c.IsValid() && original != c {
      IntersectInside(original, removed);
      FourTile(Top(original, c), Bottom(original, c), Left(original, c), Right(original, c));
    }
  }

  lemma {:induction false} SubtractHas(original: View, removed: View, p: Point)
    requires original.IsValid()
    ensures AnyHas(Subtract(original, removed), p) <==> original.Has(p) && !removed.Has(p)
  {
    var c := Intersect(original, removed);
    IntersectHas(original, removed, p);
    if !c.IsValid() {
      OneHas(original, p);
    } else if original != c {
      IntersectInside(original, removed);
      FourHave(Top(original, c), Bottom(original, c), Left(original, c), Right(original, c), p);
    }
  }

  /** Valid or without points at all. */
  ghost predicate Clean(v: View) {
    v.IsValid() || v.right < v.left || v.bottom < v.top
  }

  lemma {:induction false} FourHave(t: View, b: View, l: View, r: View, p: Point)
    requires Clean(t) && Clean(b) && Clean(l) && Clean(r)
    ensures AnyHas(Keep(t) + Keep(b) + Keep(l) + Keep(r), p) <==> t.Has(p) || b.Has(p) || l.Has(p) || r.Has(p)
  {
    KeepHas(t, p);
    KeepHas(b, p);
    KeepHas(l, p);
    KeepHas(r, p);
    ConcatHas(Keep(t), Keep(b), p);
    ConcatHas(Keep(t) + Keep(b), Keep(l), p);
    ConcatHas(Keep(t) + Keep(b) + Keep(l), Keep(r), p);
  }

  lemma {:induction false} FourTile(t: View, b: View, l: View, r: View)
    requires Apart(t, b) && Apart(t, l) && Apart(t, r) && Apart(b, l) && Apart(b, r) && Apart(l, r)
    ensures Tiles(Keep(t) + Keep(b) + Keep(l) + Keep(r))
  {
    TilesConcat(Keep(t), Keep(b));
    TilesConcat(Keep(t) + Keep(b), Keep(l));
    TilesConcat(Keep(t) + Keep(b) + Keep(l), Keep(r));
  }

  ghost predicate AnyHas(vs: seq<View>, p: Point) {
    exists i :: 0 <= i < |vs| && vs[i].Has(p)
  }

  lemma {:induction false} OneHas(v: View, p: Point)
    ensures AnyHas([v], p) <==> v.Has(p)
  {
    assert [v][0] == v;
  }

  lemma {:induction false} KeepHas(v: View, p: Point)
    requires Clean(v)
    ensures AnyHas(Keep(v), p) <==> v.Has(p)
  {
    if v.IsValid() {
      OneHas(v, p);
    }
  }

  lemma {:induction false} ConcatHas(a: seq<View>, b: seq<View>, p: Point)
    ensures AnyHas(a + b, p) <==> AnyHas(a, p) || AnyHas(b, p)
  {
    if AnyHas(a, p) {
      var i :| 0 <= i < |a| && a[i].Has(p);
      assert (a + b)[i].Has(p);
    }
    if AnyHas(b, p) {
      var i :| 0 <= i < |b| && b[i].Has(p);
      assert (a + b)[|a| + i].Has(p);
    }
  }

  // ----- walking

  /** The reading order of positions: by row, then by column. */
  predicate Before(p: Point, q: Point) {
    p.y < q.y || (p.y == q.y && p.x < q.x)
  }

  /** The origin of a walk forwards (delta 1) or backwards (delta -1). */
  function WalkOrigin(v: View, delta: int): Point {
    if delta >= 0 then Point(v.left, v.top) else Point(v.right, v.bottom)
  }

  function WalkDirection(source: View, target: View): int {
    if Before(target.Origin(), source.Origin()) then 1 else -1
  }

  /** Moves by delta cells in reading order within v, clamped to its cells; false if clamped. */
  function WalkInBounds(v: View, pos: Point, delta: int): (r: (Point, bool))
    requires v.IsValid()
  {
    var w, h := v.Width(), v.Height();
    var off := w * (pos.y - v.top) + (pos.x - v.left) + delta;
    var clamped := Max(0, Min(off, w * h - 1));
    (Point(clamped % w + v.left, clamped / w + v.top), off == clamped)
  }

  lemma {:induction false} DivMod(w: int, q: int, r: int)
    requires 0 <= r < w
    ensures (w * q + r) / w == q && (w * q + r) % w == r
  {
    var d, m := (w * q + r) / w, (w * q + r) % w;
    assert w * d + m == w * q + r;
    assert w * (d - q) == r - m;
    assert d - q >= 1 ==> w * (d - q) >= w;
    assert d - q <= -1 ==> w * (d - q) <= -w;
  }

  lemma {:induction false} OffsetInRange(w: int, h: int, q: int, r: int)
    requires 0 <= q < h && 0 <= r < w
    ensures 0 <= w * q + r < w * h
  {
    Product(w, q);
    Product(w, h - q - 1);
    Distribute(w, q, h - q - 1);
    assert q + (h - q - 1) + 1 == h;
  }

  lemma {:induction false} Product(a: int, b: int)
    requires 0 <= a && 0 <= b
    ensures 0 <= a * b
  {
  }

  lemma {:induction false} Distribute(w: int, q: int, k: int)
    ensures w * (q + k + 1) == w * q + w * k + w
  {
  }

  /** A walk whose offset is that of a cell of v ends there. */
  lemma {:induction false} WalkTo(v: View, p: Point, delta: int, to: Point)
    requires v.IsValid() && v.Has(to)
    requires v.Width() * (p.y - v.top) + (p.x - v.left) + delta == v.Width() * (to.y - v.top) + (to.x - v.left)
    ensures WalkInBounds(v, p, delta) == (to, true)
  {
    OffsetInRange(v.Width(), v.Height(), to.y - v.top, to.x - v.left);
    DivMod(v.Width(), to.y - v.top, to.x - v.left);
  }

  lemma {:induction false} NextRow(w: int, b: int)
    ensures w * (b + 1) == w * b + w
  {
  }

  /** A step forward: to the next cell in reading order, or stay put on the last. */
  lemma {:induction false} StepForward(v: View, p: Point)
    requires v.IsValid() && v.Has(p)
    ensures WalkInBounds(v, p, 1) ==
              if p.x < v.right then (Point(p.x + 1, p.y), true)
              else if p.y < v.bottom then (Point(v.left, p.y + 1), true)
              else (p, false)
  {
    NextRow(v.Width(), p.y - v.top);
    if p.x < v.right {
      WalkTo(v, p, 1, Point(p.x + 1, p.y));
    } else if p.y < v.bottom {
      assert p.y + 1 - v.top == p.y - v.top + 1;
      WalkTo(v, p, 1, Point(v.left, p.y + 1));
    } else {
      DivMod(v.Width(), p.y - v.top, p.x - v.left);
      OffsetInRange(v.Width(), v.Height(), p.y - v.top, p.x - v.left);
    }
  }

  lemma {:induction false} StepBackward(v: View, p: Point)
    requires v.IsValid() && v.Has(p)
    ensures WalkInBounds(v, p, -1) ==
              if p.x > v.left then (Point(p.x - 1, p.y), true)
              else if p.y > v.top then (Point(v.right, p.y - 1), true)
              else (p, false)
  {
    NextRow(v.Width(), p.y - 1 - v.top);
    if p.x > v.left {
      WalkTo(v, p, -1, Point(p.x - 1, p.y));
    } else if p.y > v.top {
      assert p.y - v.top == p.y - 1 - v.top + 1;
      WalkTo(v, p, -1, Point(v.right, p.y - 1));
    } else {
      DivMod(v.Width(), 0, 0);
      OffsetInRange(v.Width(), v.Height(), 0, 0);
    }
  }

  /** The next cell of v on a walk in direction dir, and whether there is one. */
  function Next(v: View, p: Point, dir: int): (Point, bool) {
    if dir >= 0 then
      if p.x < v.right then (Point(p.x + 1, p.y), true)
      else if p.y < v.bottom then (Point(v.left, p.y + 1), true)
      else (p, false)
    else
      if p.x > v.left then (Point(p.x - 1, p.y), true)
      else if p.y > v.top then (Point(v.right, p.y - 1), true)
      else (p, false)
  }

  lemma {:induction false} WalkIsNext(v: View, p: Point, dir: int)
    requires v.IsValid() && v.Has(p) && (dir == 1 || dir == -1)
    ensures WalkInBounds(v, p, dir) == Next(v, p, dir)
  {
    StepForward(v, p);
    StepBackward(v, p);
  }

  /** WalkInBounds by a single cell from inside: steps on in reading order, or stays on the last cell. */
  method Walk(v: View, pos: Point, dir: int) returns (to: Point, more: bool)
    requires v.IsValid() && v.Has(pos) && (dir == 1 || dir == -1)
    ensures (to, more) == Next(v, pos, dir)
  {
    WalkIsNext(v, pos, dir);
    var r := WalkInBounds(v, pos, dir);
    to, more := r.0, r.1;
  }

  /** Already passed on a walk in direction dir that stands at `at`. */
  predicate Passed(dir: int, p: Point, at: Point) {
    if dir >= 0 then Before(p, at) else Before(at, p)
  }

  /** A step passes the cell it leaves and no other. */
  lemma {:induction false} NextPasses(v: View, at: Point, dir: int, p: Point)
    requires v.IsValid() && v.Has(at) && v.Has(p)
    ensures var (to, more) := Next(v, at, dir);
            && v.Has(to)
            && (more ==> (Passed(dir, p, to) <==> Passed(dir, p, at) || p == at))
            && (!more ==> Passed(dir, p, at) || p == at)
  {
  }
}
