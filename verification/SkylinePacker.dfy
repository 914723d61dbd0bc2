/** The skyline rectangle packer: the context owns a pool of nodes threaded onto two
    singly linked lists, the active skyline and the free list. */
module SkylinePacker {
  import opened Basics
  import opened Skyline

  const NULL := -1
  const BIG := 0x4000_0000        // 1 << 30
  const MAXVAL := 0x7fff_ffff     // STBRP__MAXVAL

  datatype Node = Node(x: int, y: int, next: int)
  datatype Heuristic = BottomLeft | BestFit

  /** A pointer to a `next` pointer, as the search hands it to the splice. */
  datatype Link = NoLink | ActiveHead | NextOf(node: int)

  /** The best position so far: the link to its node, its column, height and waste. */
  datatype Choice = Choice(link: Link, x: int, y: int, waste: int)

  datatype Box = Box(x: int, y: int, w: int, h: int)

  ghost predicate Disjoint(a: Box, b: Box) {
    a.x + a.w <= b.x || b.x + b.w <= a.x || a.y + a.h <= b.y || b.y + b.h <= a.y
  }

  ghost predicate Inside(b: Box, width: int, height: int) {
    0 <= b.x && 0 <= b.y && b.x + b.w <= width && b.y + b.h <= height
  }

  ghost predicate Under(b: Box, s: seq<Corner>)
    requires |s| > 0
  {
    forall u :: b.x <= u < b.x + b.w ==> b.y + b.h <= Height(s, u)
  }

  /** The safety of a packing: every box is inside the target and at or below the skyline, and no
      two overlap. */
  ghost predicate Safe(bs: seq<Box>, s: seq<Corner>, width: int, height: int)
    requires |s| > 0
  {
    && (forall i :: 0 <= i < |bs| ==> bs[i].w >= 1 && bs[i].h >= 1 && Inside(bs[i], width, height) && Under(bs[i], s))
    && (forall i, j :: 0 <= i < j < |bs| ==> Disjoint(bs[i], bs[j]))
  }

  // ----- linked lists in a pool

  /** What the i-th node of a list has to link to. */
  ghost function After(l: seq<int>, i: nat): int {
    if i + 1 < |l| then l[i + 1] else NULL
  }

  /** `l` is the list of pool indices reached from `head`, ending in NULL. */
  ghost predicate Linked(ns: seq<Node>, l: seq<int>, head: int) {
    && head == (if l == [] then NULL else l[0])
    && (forall i :: 0 <= i < |l| ==> 0 <= l[i] < |ns|)
    && (forall i {:trigger After(l, i)} :: 0 <= i < |l| ==> ns[l[i]].next == After(l, i))
  }

  ghost predicate NoRepeats(l: seq<int>) {
    forall i, j :: 0 <= i < j < |l| ==> l[i] != l[j]
  }

  ghost predicate Apart(a: seq<int>, b: seq<int>) {
    forall i, j :: 0 <= i < |a| && 0 <= j < |b| ==> a[i] != b[j]
  }

  /** Pushing a node that is not on a list makes it the head of a longer one. */
  lemma {:induction false} LinkedCons(ns: seq<Node>, l: seq<int>, head: int, n: int)
    requires Linked(ns, l, head) && NoRepeats(l) && 0 <= n < |ns| && n !in l
    ensures Linked(ns[n := ns[n].(next := head)], [n] + l, n) && NoRepeats([n] + l)
  {
    var ns', l' := ns[n := ns[n].(next := head)], [n] + l;
    forall i | 0 <= i < |l'|
      ensures 0 <= l'[i] < |ns'| && ns'[l'[i]].next == After(l', i)
    {
      if i > 0 {
        assert l'[i] == l[i - 1] && l[i - 1] != n && After(l', i) == After(l, i - 1);
      }
    }
  }

  /** The old active list a, cut open before its p-th node: its head and the links before p
      lead to the new node, the links from c on are intact. */
  ghost predicate CutOpen(ns: seq<Node>, a: seq<int>, p: nat, c: nat, node: int, head: int) {
    && p <= c < |a| && 0 <= node < |ns| && node !in a && NoRepeats(a)
    && (forall i :: 0 <= i < |a| ==> 0 <= a[i] < |ns|)
    && head == (if p == 0 then node else a[0])
    && (p > 0 ==> ns[a[p - 1]].next == node)
    && (forall i {:trigger After(a, i)} :: 0 <= i < p - 1 ==> ns[a[i]].next == After(a, i))
    && (forall i {:trigger After(a, i)} :: c <= i < |a| ==> ns[a[i]].next == After(a, i))
  }

  /** The pool after `node` has got its corner and the link before the p-th node leads to it. */
  ghost function Hung(ns: seq<Node>, a: seq<int>, p: nat, node: int, x: int, top: int): seq<Node>
    requires p <= |a| && 0 <= node < |ns| && forall i :: 0 <= i < |a| ==> 0 <= a[i] < |ns|
  {
    var ns' := ns[node := Node(x, top, ns[node].next)];
    if p == 0 then ns' else ns'[a[p - 1] := ns'[a[p - 1]].(next := node)]
  }

  lemma {:induction false} HangActive(ns: seq<Node>, a: seq<int>, head: int, p: nat, node: int, x: int, top: int)
    requires Linked(ns, a, head) && NoRepeats(a) && p < |a| && 0 <= node < |ns| && node !in a
    ensures CutOpen(Hung(ns, a, p, node, x, top), a, p, p, node, if p == 0 then node else a[0])
    ensures Corners(Hung(ns, a, p, node, x, top), a) == Corners(ns, a)
  {
  }

  lemma {:induction false} HangFree(ns: seq<Node>, a: seq<int>, f: seq<int>, head: int, p: nat, x: int, top: int)
    requires Linked(ns, f, head) && f != [] && NoRepeats(f) && Apart(a, f) && p < |a|
    requires forall i :: 0 <= i < |a| ==> 0 <= a[i] < |ns|
    ensures Linked(Hung(ns, a, p, f[0], x, top), f[1..], ns[f[0]].next)
  {
    var f', ns' := f[1..], Hung(ns, a, p, f[0], x, top);
    assert ns[f[0]].next == After(f, 0);
    forall i: nat | i < |f'|
      ensures ns'[f'[i]].next == After(f', i)
    {
      assert f'[i] == f[i + 1] && After(f', i) == After(f, i + 1);
    }
  }

  lemma {:induction false} KeepsCut(ns: seq<Node>, ns': seq<Node>, a: seq<int>, p: nat, c: nat, node: int, head: int)
    requires CutOpen(ns, a, p, p, node, head) && p <= c < |a| && |ns'| == |ns|
    requires forall n :: 0 <= n < |ns| && n !in a[p..c] ==> ns'[n] == ns[n]
    ensures CutOpen(ns', a, p, c, node, head)
  {
    forall i | 0 <= i < |a| && !(p <= i < c)
      ensures a[i] !in a[p..c]
    {
    }
    assert forall i :: 0 <= i < |a| && !(p <= i < c) ==> ns'[a[i]] == ns[a[i]];
  }

  lemma {:induction false} FreedApart(a: seq<int>, f: seq<int>, p: nat, c: nat, f': seq<int>)
    requires p <= c < |a| && NoRepeats(a) && f != [] && NoRepeats(f) && Apart(a, f)
    requires forall n :: n in f' ==> n in a[p..c] || n in f[1..]
    ensures f[0] !in f' && f[0] !in a
    ensures forall n :: n in f' ==> n !in a[..p] && n !in a[c..]
  {
    forall n | n in f'
      ensures n != f[0] && n !in a[..p] && n !in a[c..]
    {
      if n in a[p..c] {
        var i :| p <= i < c && a[i] == n;
      } else {
        var i :| 1 <= i < |f| && f[i] == n;
      }
    }
  }

  lemma {:induction false} SameCorners(ns: seq<Node>, ns': seq<Node>, a: seq<int>)
    requires |ns'| == |ns| && forall i :: 0 <= i < |a| ==> 0 <= a[i] < |ns|
    requires forall n :: 0 <= n < |ns| ==> ns'[n].x == ns[n].x && ns'[n].y == ns[n].y
    ensures Corners(ns', a) == Corners(ns, a)
  {
  }

  lemma {:induction false} SpliceOk(s: seq<Corner>, width: int, m: nat, x: int, top: int, edge: int, p: nat, c: nat)
    requires WellFormed(s, width) && Over(s, m, x) && 0 <= top && x < edge <= width
    requires p == (if s[m].x < x then m + 1 else m) && p <= c < |s|
    requires c + 1 < |s| ==> edge < s[c + 1].x
    requires c > p ==> s[c].x <= edge
    ensures RaiseOk(s, width, p, c, x, top, edge)
    ensures WellFormed(Raised(s, p, c, x, top, edge), width)
  {
    RaisedWellFormed(s, width, p, c, x, top, edge);
  }

  ghost function Stitched(ns: seq<Node>, node: int, cur: int, x: int): seq<Node>
    requires 0 <= node < |ns| && 0 <= cur < |ns|
  {
    var ns' := ns[node := ns[node].(next := cur)];
    ns'[cur := ns'[cur].(x := x)]
  }

  ghost function NewActive(a: seq<int>, p: nat, c: nat, node: int): seq<int>
    requires p <= c < |a|
  {
    a[..p] + [node] + a[c..]
  }

  lemma {:induction false} NewActiveAt(a: seq<int>, p: nat, c: nat, node: int, i: nat)
    requires p <= c < |a| && i < |NewActive(a, p, c, node)|
    ensures NewActive(a, p, c, node)[i] == if i < p then a[i] else if i == p then node else a[i - p - 1 + c]
    ensures i != p && i != p - 1 ==>
              After(NewActive(a, p, c, node), i) == After(a, if i < p then i else i - p - 1 + c)
  {
  }

  lemma {:induction false} NewActiveNoRepeats(a: seq<int>, p: nat, c: nat, node: int)
    requires p <= c < |a| && NoRepeats(a) && node !in a
    ensures NoRepeats(NewActive(a, p, c, node))
  {
    var a' := NewActive(a, p, c, node);
    forall i, j | 0 <= i < j < |a'|
      ensures a'[i] != a'[j]
    {
      NewActiveAt(a, p, c, node, i);
      NewActiveAt(a, p, c, node, j);
    }
  }

  /** Stitching the list back in gives a proper list again. */
  lemma {:induction false} StitchActive(ns: seq<Node>, a: seq<int>, p: nat, c: nat, node: int, head: int, x: int)
    requires CutOpen(ns, a, p, c, node, head)
    ensures Linked(Stitched(ns, node, a[c], x), NewActive(a, p, c, node), head)
  {
    var a', ns' := NewActive(a, p, c, node), Stitched(ns, node, a[c], x);
    forall i: nat | i < |a'|
      ensures 0 <= a'[i] < |ns'| && ns'[a'[i]].next == After(a', i)
    {
      NewActiveAt(a, p, c, node, i);
      if i == p - 1 || i == p {
        NewActiveAt(a, p, c, node, i + 1);
      }
    }
  }

  lemma {:induction false} StitchFree(ns: seq<Node>, a: seq<int>, p: nat, c: nat, node: int, f: seq<int>, head: int, x: int)
    requires p <= c < |a| && NoRepeats(a) && 0 <= node < |ns| && 0 <= a[c] < |ns|
    requires Linked(ns, f, head) && node !in f
    requires forall n :: n in f ==> n !in a[..p] && n !in a[c..]
    ensures Linked(Stitched(ns, node, a[c], x), f, head) && Apart(NewActive(a, p, c, node), f)
  {
    var a', ns' := NewActive(a, p, c, node), Stitched(ns, node, a[c], x);
    assert a[c] in a[c..];
    forall i | 0 <= i < |f|
      ensures ns'[f[i]].next == After(f, i)
    {
      assert f[i] in f && f[i] != a[c] && f[i] != node;
    }
    forall i, j | 0 <= i < |a'| && 0 <= j < |f|
      ensures a'[i] != f[j]
    {
      assert f[j] in f;
      assert a'[i] in a[..p] || a'[i] == node || a'[i] in a[c..];
    }
  }

  lemma {:induction false} StitchCorners(ns: seq<Node>, a: seq<int>, p: nat, c: nat, node: int, s: seq<Corner>, x: int, top: int, edge: int)
    requires p <= c < |a| && 0 <= node < |ns| && node !in a && NoRepeats(a)
    requires forall i :: 0 <= i < |a| ==> 0 <= a[i] < |ns|
    requires Corners(ns, a) == s && ns[node].x == x && ns[node].y == top
    ensures Corners(Stitched(ns, node, a[c], Max(s[c].x, edge)), NewActive(a, p, c, node)) == Raised(s, p, c, x, top, edge)
  {
    var a', ns' := NewActive(a, p, c, node), Stitched(ns, node, a[c], Max(s[c].x, edge));
    var l, r := Corners(ns', a'), Raised(s, p, c, x, top, edge);
    forall i: nat | i < |a'|
      ensures l[i] == r[i]
    {
      NewActiveAt(a, p, c, node, i);
      var k := if i < p then i else if i == p then c else i - p - 1 + c;
      assert s[k] == Corner(ns[a[k]].x, ns[a[k]].y);
    }
  }

  ghost function Corners(ns: seq<Node>, l: seq<int>): (s: seq<Corner>)
    requires forall i :: 0 <= i < |l| ==> 0 <= l[i] < |ns|
  {
    seq(|l|, i requires 0 <= i < |l| => Corner(ns[l[i]].x, ns[l[i]].y))
  }

  /** The width the search works with: the least multiple of `align` that is not smaller. */
  function Rounded(w: int, align: int): (r: int)
    requires align >= 1 && w >= 1
    ensures w <= r < w + align && align <= r
    decreases w
  {
    if w <= align then align else align + Rounded(w - align, align)
  }

  lemma {:induction false} RoundedIs(w: int, align: int)
    requires align >= 1 && w >= 1
    ensures var t := w + align - 1; Rounded(w, align) == t - t % align
    ensures Rounded(w, align) % align == 0
    decreases w
  {
    if w <= align {
      StepOver(0, align);
      StepOver(w - 1, align);
    } else {
      RoundedIs(w - align, align);
      StepOver(w - 1, align);
      StepOver(Rounded(w - align, align), align);
    }
  }

  lemma {:induction false} StepOver(t: int, n: int)
    requires n >= 1 && t >= 0
    ensures (t + n) / n == t / n + 1 && (t + n) % n == t % n && (t < n ==> t / n == 0 && t % n == t)
  {
    var q, r := t / n, t % n;
    assert t + n == (q + 1) * n + r by {
      assert (q + 1) * n == q * n + n;
    }
    SameQuotient(t + n, n, q + 1, r);
    if t < n {
      SameQuotient(t, n, 0, t);
    }
  }

  lemma {:induction false} SameQuotient(t: int, n: int, q: int, r: int)
    requires 0 <= r < n && t == q * n + r
    ensures t / n == q && t % n == r
  {
    var d := t / n - q;
    assert d * n == r - t % n by {
      assert d * n == (t / n) * n - q * n;
    }
    assert d >= 1 ==> d * n >= n;
    assert d <= -1 ==> d * n <= -n;
  }

  /** The quantum with which n nodes are enough for `width` columns of quanta. */
  function Quantum(width: int, n: int): (a: int)
    requires width >= 1 && n >= 1
    ensures a >= 1
    decreases width
  {
    if width <= n then 1 else 1 + Quantum(width - n, n)
  }

  /** ... it is the least one. */
  lemma {:induction false} QuantumIs(width: int, n: int)
    requires width >= 1 && n >= 1
    ensures var a := Quantum(width, n); a == (width + n - 1) / n && a * n >= width && (a - 1) * n < width
    decreases width
  {
    StepOver(width - 1, n);
    if width > n {
      var a := Quantum(width - n, n);
      QuantumIs(width - n, n);
      assert (1 + a) * n == n + a * n && a * n == n + (a - 1) * n;
    }
  }

  // ----- what the search promises

  /** A w-wide, h-high rectangle can rest on the skyline at column x within the target. */
  ghost predicate Fits(s: seq<Corner>, x: int, w: int, h: int, width: int, height: int)
    requires |s| > 0
  {
    0 <= x && x + w <= width && Rest(s, x, w) + h <= height
  }

  ghost predicate FitsNowhere(s: seq<Corner>, w: int, h: int, width: int, height: int)
    requires |s| > 0
  {
    forall x :: !Fits(s, x, w, h, width, height)
  }

  /** How high the search sees: places at BIG or above are not considered. */
  function Reach(height: int, h: int): int {
    if height < BIG + h then height else BIG + h - 1
  }

  /** (y, x) is the lexicographically least resting place over every integer column. */
  ghost predicate BottomLeftmost(s: seq<Corner>, w: int, x: int, y: int, width: int)
    requires |s| > 0
  {
    && 0 <= x <= width - w
    && y == Rest(s, x, w)
    && (forall x' :: 0 <= x' <= width - w ==> y <= Rest(s, x', w))
    && (forall x' :: 0 <= x' < x ==> y < Rest(s, x', w))
  }

  ghost predicate Over(s: seq<Corner>, k: nat, x: int) {
    k + 1 < |s| && s[k].x <= x < s[k + 1].x
  }

  /** Best fit considers a window only if one of its edges meets a corner; here, its left edge
      or its right edge on one of the first t corners. */
  ghost predicate Tried(s: seq<Corner>, w: int, t: nat, k: nat, x: int)
    requires t <= |s|
  {
    Over(s, k, x) && (x == s[k].x || exists r :: 0 <= r < t && s[r].x == x + w)
  }

  ghost predicate Candidate(s: seq<Corner>, w: int, k: nat, x: int) {
    Tried(s, w, |s|, k, x)
  }

  ghost predicate NoWorse(y: int, waste: int, x: int, y': int, waste': int, x': int) {
    y < y' || (y == y' && (waste < waste' || (waste == waste' && x <= x')))
  }

  /** The choice beats what the k-th segment offers at column x, if that is feasible at all. */
  ghost predicate Beats(s: seq<Corner>, w: int, h: int, width: int, height: int,
                        x: int, y: int, waste: int, k: nat, x': int)
    requires k < |s|
  {
    Fits(s, x', w, h, width, height) ==> NoWorse(y, waste, x, Rest(s, x', w), Waste(s, k, x', w), x')
  }

  /** The outcome of the left-aligned pass over the first j corners: the m-th corner, with its
      column, resting height and waste, or nothing yet. */
  datatype Best = Nothing | Found(m: nat, x: int, y: int, waste: int) {
    function Y(): int {
      if Nothing? then BIG else y
    }

    function Waste(): int {
      if Nothing? then BIG else waste
    }

    function X(): int {
      if Nothing? then 0 else x
    }
  }

  ghost predicate LeftPassBL(s: seq<Corner>, w: int, width: int, j: nat, b: Best)
    requires j < |s|
  {
    && (forall x :: 0 <= x < s[j].x && x <= width - w ==> b.Y() <= Rest(s, x, w))
    && (b.Found? ==> forall x :: 0 <= x < b.x ==> b.y < Rest(s, x, w))
  }

  ghost predicate LeftPassBF(s: seq<Corner>, w: int, h: int, width: int, height: int, j: nat, b: Best)
    requires j < |s|
  {
    && (b.Found? ==> b.y + h <= height && b.m < |s| && b.waste == Waste(s, b.m, b.x, w))
    && (forall x :: x < s[j].x && Fits(s, x, w, h, width, height) ==> b.Y() <= Rest(s, x, w))
    && (forall k: nat :: k < j ==> Beats(s, w, h, width, height, b.X(), b.Y(), b.Waste(), k, s[k].x))
  }

  /** What the left-aligned pass has found among the first j corners. */
  ghost predicate LeftPass(hr: Heuristic, s: seq<Corner>, w: int, h: int, width: int, height: int, j: nat, b: Best)
    requires j < |s|
  {
    && (b.Found? ==> b.m < j && b.x == s[b.m].x && b.x + w <= width && b.y == Rest(s, b.x, w))
    && (hr == BottomLeft ==> LeftPassBL(s, w, width, j, b))
    && (hr == BestFit ==> LeftPassBF(s, w, h, width, height, j, b))
  }

  /** One round of the left-aligned pass. */
  ghost function LeftRound(hr: Heuristic, h: int, height: int, b: Best, c: Best): Best
    requires c.Found?
  {
    if hr == BottomLeft then
      if c.y < b.Y() then c else b
    else if c.y + h <= height && (c.y < b.Y() || (c.y == b.Y() && c.waste < b.Waste())) then c
    else b
  }

  lemma {:induction false} LeftRoundKeeps(hr: Heuristic, s: seq<Corner>, w: int, h: int, width: int, height: int, j: nat, b: Best, c: Best)
      returns (b': Best)
    requires WellFormed(s, width) && j < |s| - 1 && w >= 1 && h >= 1 && s[j].x + w <= width
    requires LeftPass(hr, s, w, h, width, height, j, b)
    requires c.Found? && c.m == j && c.x == s[j].x && c.y == Rest(s, s[j].x, w) && c.waste == Waste(s, j, s[j].x, w)
    ensures b' == LeftRound(hr, h, height, b, c)
    ensures LeftPass(hr, s, w, h, width, height, j + 1, b')
  {
    b' := LeftRound(hr, h, height, b, c);
    forall x | s[j].x <= x < s[j + 1].x && x <= width - w
      ensures c.y <= Rest(s, x, w)
    {
      SlideLeft(s, width, j, x, w);
    }
  }

  /** The choice of best fit once the windows ending on the first t corners have been tried too. */
  ghost predicate RightPass(s: seq<Corner>, w: int, h: int, width: int, height: int, t: nat, b: Best)
    requires t <= |s| && |s| > 0
  {
    && (b.Found? ==> && Candidate(s, w, b.m, b.x) && Fits(s, b.x, w, h, width, height)
                     && b.y == Rest(s, b.x, w) && b.waste == Waste(s, b.m, b.x, w))
    && (forall x :: Fits(s, x, w, h, width, height) ==> b.Y() <= Rest(s, x, w))
    && (forall k: nat, x :: Tried(s, w, t, k, x) ==>
          Beats(s, w, h, width, height, b.X(), b.Y(), b.Waste(), k, x))
  }

  /** One round of the right-aligned pass. */
  ghost function RightRound(h: int, height: int, b: Best, c: Best): Best
    requires c.Found?
  {
    if c.y + h <= height && c.y <= b.Y()
       && (c.y < b.Y() || c.waste < b.Waste() || (c.waste == b.Waste() && c.x < b.X()))
    then c else b
  }

  lemma {:induction false} RightRoundKeeps(s: seq<Corner>, w: int, h: int, width: int, height: int, t: nat, b: Best, c: Best)
      returns (b': Best)
    requires WellFormed(s, width) && t < |s| && 1 <= w <= s[t].x && h >= 1
    requires RightPass(s, w, h, width, height, t, b)
    requires c.Found? && Over(s, c.m, c.x) && c.x == s[t].x - w
    requires c.y == Rest(s, c.x, w) && c.waste == Waste(s, c.m, c.x, w)
    ensures b' == RightRound(h, height, b, c)
    ensures RightPass(s, w, h, width, height, t + 1, b')
  {
    b' := RightRound(h, height, b, c);
    assert s[t].x == c.x + w;
    forall k: nat, x | Tried(s, w, t + 1, k, x)
      ensures Beats(s, w, h, width, height, b'.X(), b'.Y(), b'.Waste(), k, x)
    {
      if Tried(s, w, t, k, x) {
        assert Beats(s, w, h, width, height, b.X(), b.Y(), b.Waste(), k, x);
      } else {
        assert x == c.x && k == c.m;
      }
    }
  }

  lemma {:induction false} LeftPassDone(s: seq<Corner>, w: int, h: int, width: int, height: int, j: nat, b: Best)
    requires WellFormed(s, width) && j < |s| && w >= 1 && h >= 1 && s[j].x + w > width
    requires LeftPass(BestFit, s, w, h, width, height, j, b)
    ensures forall t: nat :: t < |s| && (forall r :: 0 <= r < t ==> s[r].x < w) ==>
              RightPass(s, w, h, width, height, t, b)
  {
    forall k: nat | j <= k < |s| - 1
      ensures !Fits(s, s[k].x, w, h, width, height)
    {
      assert s[j].x <= s[k].x;
    }
    forall x | Fits(s, x, w, h, width, height)
      ensures b.Y() <= Rest(s, x, w)
    {
      assert x < s[j].x;
    }
  }

  /** Best fit: least height, then least reported waste, then least column, over all candidates;
      and the height is least over every integer column where the rectangle fits. */
  ghost predicate BestFitChoice(s: seq<Corner>, w: int, h: int, width: int, height: int, m: nat, x: int, y: int)
    requires m < |s|
  {
    && Candidate(s, w, m, x) && Fits(s, x, w, h, width, height) && y == Rest(s, x, w)
    && (forall x' :: Fits(s, x', w, h, width, height) ==> y <= Rest(s, x', w))
    && (forall k: nat, x' :: Candidate(s, w, k, x') ==>
          Beats(s, w, h, width, height, x, y, Waste(s, m, x, w), k, x'))
  }

  /** What a found position has to be for the splice: over the m-th segment, resting on the
      skyline, and either starting or ending (by its rounded width) on a corner. */
  ghost predicate GoodSpot(s: seq<Corner>, width: int, w: int, m: nat, x: int, y: int) {
    && Over(s, m, x) && x + w <= width && y == Rest(s, x, w)
    && (x == s[m].x || exists t :: m < t < |s| && s[t].x == x + w)
  }

  /** The columns from x up to e now have height y + h; all others are as before. */
  ghost predicate Lifted(s: seq<Corner>, s': seq<Corner>, width: int, x: int, e: int, y: int, h: int)
    requires |s| > 0 && |s'| > 0
  {
    forall u :: 0 <= u < width ==> Height(s', u) == if x <= u < e then y + h else Height(s, u)
  }

  /** A w x h rectangle was put at (x, y): it rests on the skyline over its rounded width aw, and the
      skyline is lifted over its own columns, at most over the rounded width, and nowhere else. */
  ghost predicate Placement(s: seq<Corner>, s': seq<Corner>, width: int, height: int, w: int, aw: int, h: int, x: int, y: int)
    requires |s| > 0 && |s'| > 0 && 1 <= w <= aw
  {
    && Fits(s, x, aw, h, width, height) && y == Rest(s, x, aw)
    && exists e :: x + w <= e <= x + aw && Lifted(s, s', width, x, e, y, h)
  }

  /** The exact list after a splice at x: only corners under the new rectangle are gone. */
  ghost predicate Spliced(s: seq<Corner>, s': seq<Corner>, width: int, x: int, top: int, edge: int) {
    exists p: nat, c: nat :: RaiseOk(s, width, p, c, x, top, edge) && s' == Raised(s, p, c, x, top, edge)
  }

  /** Which of the feasible places a heuristic takes. */
  ghost predicate Chosen(hr: Heuristic, s: seq<Corner>, w: int, h: int, width: int, height: int, x: int, y: int)
    requires |s| > 0
  {
    match hr
    case BottomLeft => BottomLeftmost(s, w, x, y, width)
    case BestFit => exists m: nat :: m < |s| && BestFitChoice(s, w, h, width, height, m, x, y)
  }

  /** A placement never lowers the skyline. */
  lemma {:induction false} PlacementRaises(s: seq<Corner>, s': seq<Corner>, width: int, height: int, w: int, aw: int, h: int, x: int, y: int)
    requires 1 <= w <= aw && h >= 1 && WellFormed(s, width) && WellFormed(s', width)
    requires Placement(s, s', width, height, w, aw, h, x, y)
    ensures forall u :: 0 <= u < width ==> Height(s, u) <= Height(s', u)
    ensures forall u :: x <= u < x + w ==> Height(s, u) <= y && Height(s', u) == y + h
  {
    forall u | x <= u < x + aw
      ensures Height(s, u) <= y
    {
      PeakBounds(s, x, x + aw, u);
    }
  }

  /** Whatever was at or below the skyline stays so, and the new rectangle misses it. */
  lemma {:induction false} PlacementSafe(s: seq<Corner>, s': seq<Corner>, width: int, height: int, w: int, aw: int, h: int, x: int, y: int, b: Box)
    requires 1 <= w <= aw && h >= 1 && WellFormed(s, width) && WellFormed(s', width)
    requires Placement(s, s', width, height, w, aw, h, x, y)
    requires b.w >= 1 && Inside(b, width, height) && Under(b, s)
    ensures Under(b, s') && Disjoint(b, Box(x, y, w, h))
  {
    PlacementRaises(s, s', width, height, w, aw, h, x, y);
    var u := Max(b.x, x);
    if b.x <= u < b.x + b.w && x <= u < x + w {
      assert b.y + b.h <= Height(s, u) <= y;
    }
  }

  lemma {:induction false} PlacementNew(s: seq<Corner>, s': seq<Corner>, width: int, height: int, w: int, aw: int, h: int, x: int, y: int)
    requires 1 <= w <= aw && h >= 1 && WellFormed(s, width) && WellFormed(s', width)
    requires Placement(s, s', width, height, w, aw, h, x, y)
    ensures Inside(Box(x, y, w, h), width, height) && Under(Box(x, y, w, h), s')
  {
    PlacementRaises(s, s', width, height, w, aw, h, x, y);
    PeakNonNegative(s, x, x + aw);
  }

  /** Safety survives a placement. */
  lemma {:induction false} PlacementKeepsSafe(s: seq<Corner>, s': seq<Corner>, width: int, height: int, w: int, aw: int, h: int,
                           x: int, y: int, bs: seq<Box>)
    requires 1 <= w <= aw && h >= 1 && WellFormed(s, width) && WellFormed(s', width)
    requires Placement(s, s', width, height, w, aw, h, x, y)
    requires Safe(bs, s, width, height)
    ensures Safe(bs + [Box(x, y, w, h)], s', width, height)
  {
    PlacementNew(s, s', width, height, w, aw, h, x, y);
    forall i | 0 <= i < |bs|
      ensures Under(bs[i], s') && Disjoint(bs[i], Box(x, y, w, h))
    {
      PlacementSafe(s, s', width, height, w, aw, h, x, y, bs[i]);
    }
  }

  /** How far a splice lifts the skyline: never past the rounded width. */
  lemma {:induction false} SpliceReach(s: seq<Corner>, width: int, m: nat, aw: int, x: int, y: int, p: nat, c: nat, top: int, edge: int)
    requires WellFormed(s, width) && edge <= x + aw && GoodSpot(s, width, aw, m, x, y)
    requires p == if s[m].x < x then m + 1 else m
    requires RaiseOk(s, width, p, c, x, top, edge)
    ensures edge <= Max(s[c].x, edge) <= x + aw
  {
    if s[c].x > edge {
      assert c == p == m + 1;
      var t :| m < t < |s| && s[t].x == x + aw;
      assert s[m + 1].x <= s[t].x;
    }
  }

  lemma {:induction false} SpliceLifts(s: seq<Corner>, s': seq<Corner>, width: int, p: nat, c: nat, x: int, y: int, h: int, edge: int)
    requires RaiseOk(s, width, p, c, x, y + h, edge) && s' == Raised(s, p, c, x, y + h, edge)
    ensures Lifted(s, s', width, x, Max(s[c].x, edge), y, h)
  {
    RaisedWellFormed(s, width, p, c, x, y + h, edge);
    forall u | 0 <= u < width
      ensures Height(s', u) == if x <= u < Max(s[c].x, edge) then y + h else Height(s, u)
    {
      RaisedHeight(s, width, p, c, x, y + h, edge, u);
    }
  }

  /** What the search makes of the best place it has found. */
  ghost predicate Settles(hr: Heuristic, s: seq<Corner>, w: int, h: int, width: int, height: int, b: Best)
    requires |s| > 0
  {
    && (b.Found? ==> GoodSpot(s, width, w, b.m, b.x, b.y) && Chosen(hr, s, w, h, width, height, b.x, b.y))
    && (b.Nothing? || b.y + h > height ==> FitsNowhere(s, w, h, width, Reach(height, h)))
  }

  lemma {:induction false} LeftPassChosen(s: seq<Corner>, w: int, h: int, width: int, height: int, j: nat, b: Best)
    requires WellFormed(s, width) && j < |s| && w >= 1 && h >= 1 && s[j].x + w > width
    requires LeftPass(BottomLeft, s, w, h, width, height, j, b)
    ensures Settles(BottomLeft, s, w, h, width, height, b)
  {
  }

  lemma {:induction false} RightPassDone(s: seq<Corner>, w: int, h: int, width: int, height: int, b: Best)
    requires WellFormed(s, width) && w >= 1 && h >= 1
    requires RightPass(s, w, h, width, height, |s|, b)
    ensures Settles(BestFit, s, w, h, width, height, b)
  {
    if b.Found? {
      assert BestFitChoice(s, w, h, width, height, b.m, b.x, b.y);
    }
  }

  lemma {:induction false} TooLarge(s: seq<Corner>, w: int, h: int, width: int, height: int)
    requires |s| > 0 && w >= 1 && (w > width || h > height)
    ensures FitsNowhere(s, w, h, width, Reach(height, h))
  {
    forall x ensures !Fits(s, x, w, h, width, Reach(height, h)) {
      PeakNonNegative(s, x, x + w);
    }
  }

  lemma {:induction false} SpliceIsPlacement(s: seq<Corner>, s': seq<Corner>, width: int, height: int, m: nat, w: int, aw: int,
                                             h: int, x: int, y: int, p: nat, c: nat, top: int, edge: int, bs: seq<Box>)
    requires 1 <= w <= aw && h >= 1 && top == y + h <= height && edge == x + w && GoodSpot(s, width, aw, m, x, y)
    requires RaiseOk(s, width, p, c, x, top, edge) && p == (if s[m].x < x then m + 1 else m)
    requires s' == Raised(s, p, c, x, top, edge) && Safe(bs, s, width, height)
    ensures WellFormed(s', width) && Placement(s, s', width, height, w, aw, h, x, y)
    ensures Spliced(s, s', width, x, y + h, x + w)
    ensures Safe(bs + [Box(x, y, w, h)], s', width, height) && |s'| <= |s| + 1
  {
    RaisedWellFormed(s, width, p, c, x, top, edge);
    SpliceReach(s, width, m, aw, x, y, p, c, top, edge);
    SpliceLifts(s, s', width, p, c, x, y, h, edge);
    PlacementKeepsSafe(s, s', width, height, w, aw, h, x, y, bs);
  }

  // ----- the context

  class Context {
    const width: int
    const height: int
    const numNodes: int
    const nodes: array<Node>
    var align: int
    var heuristic: Heuristic
    var activeHead: int
    var freeHead: int
    ghost var active: seq<int>
    ghost var free: seq<int>
    ghost var placed: seq<Box>
    ghost var sky: seq<Corner>

    /** Both lists are proper, they share no node and together hold the whole pool. */
    ghost predicate ListsOk()
      reads this, nodes
    {
      && nodes.Length == numNodes + 2
      && Linked(nodes[..], active, activeHead)
      && Linked(nodes[..], free, freeHead)
      && NoRepeats(active) && NoRepeats(free) && Apart(active, free)
      && |active| + |free| == numNodes + 2
    }

    ghost predicate DimsOk()
      reads this
    {
      && 1 <= width <= MAXVAL && 0 <= height && 1 <= numNodes
      && (align == 1 || align == Quantum(width, numNodes))
    }

    /** The lists are proper and the active one reads as a skyline from 0 to `width`. */
    ghost predicate Shape()
      reads this, nodes
    {
      && DimsOk()
      && ListsOk()
      && sky == Corners(nodes[..], active) && WellFormed(sky, width)
    }

    /** ... what is placed is safe, and every box takes at most one node. */
    ghost predicate Valid()
      reads this, nodes
    {
      Shape() && Safe(placed, sky, width, height) && |active| <= |placed| + 2
    }

    /** stbrp_init_target. */
    constructor (width: int, height: int, numNodes: int)
      requires 1 <= width <= MAXVAL && 0 <= height && 1 <= numNodes
      ensures Valid() && fresh(nodes)
      ensures this.width == width && this.height == height && this.numNodes == numNodes
      ensures heuristic == BottomLeft && placed == []
      ensures align == Quantum(width, numNodes)
      ensures sky == [Corner(0, 0), Corner(width, BIG)]
    {
      this.width, this.height, this.numNodes := width, height, numNodes;
      var pool := NewPool(width, numNodes);
      nodes := pool;
      heuristic := BottomLeft;
      freeHead, activeHead := 0, numNodes;
      QuantumIs(width, numNodes);
      align := (width + numNodes - 1) / numNodes;
      placed := [];
      active := [numNodes, numNodes + 1];
      free := Iota(numNodes);
      sky := [Corner(0, 0), Corner(width, BIG)];
      new;
      assert nodes[..] == pool[..];
      assert sky == Corners(nodes[..], active);
    }

    /** stbrp_setup_heuristic, in skyline mode. */
    method SetupHeuristic(h: Heuristic)
      requires Valid()
      modifies this`heuristic
      ensures Valid() && heuristic == h && sky == old(sky)
    {
      heuristic := h;
    }

    /** stbrp_setup_allow_out_of_mem. */
    method SetupAllowOutOfMem(allow: bool)
      requires Valid()
      modifies this`align
      ensures Valid()
      ensures if allow then align == 1 else align * numNodes >= width && (align - 1) * numNodes < width
    {
      QuantumIs(width, numNodes);
      align := if allow then 1 else (width + numNodes - 1) / numNodes;
    }

    /** With at least as many nodes as columns, a free node is always at hand and widths are not
        rounded. */
    lemma {:induction false} NodesSuffice()
      requires Valid() && numNodes >= width
      ensures |free| >= 1 && freeHead != NULL && align == 1
    {
      CornersFit(sky, width, |active| - 1);
    }

    function Deref(l: Link): int
      requires l.NextOf? ==> 0 <= l.node < nodes.Length
      reads this, nodes
    {
      match l
      case NoLink => NULL
      case ActiveHead => activeHead
      case NextOf(n) => nodes[n].next
    }

    /** The search's view of the pool: the active list read as the skyline s. */
    ghost predicate Reads(s: seq<Corner>)
      reads this, nodes
    {
      && |s| == |active| >= 2 && activeHead == active[0]
      && (forall i :: 0 <= i < |s| ==> 0 <= active[i] < nodes.Length)
      && (forall i :: 0 <= i < |s| ==> nodes[active[i]].x == s[i].x && nodes[active[i]].y == s[i].y)
      && (forall i {:trigger After(active, i)} :: 0 <= i < |s| ==> nodes[active[i]].next == After(active, i))
    }

    lemma {:induction false} ReadsSky()
      requires Shape()
      ensures Reads(sky)
    {
    }

    /** `l` is the link that points at the m-th node of the active list. */
    ghost predicate LinkAt(l: Link, m: nat)
      reads this
    {
      && m < |active|
      && (if m == 0 then l == ActiveHead else l == NextOf(active[m - 1]))
    }

    /** stbrp__skyline_find_min_y, started on the k-th active node. */
    method FindMinY(first: int, x0: int, w: int, ghost s: seq<Corner>, ghost k: nat) returns (minY: int, waste: int)
      requires Reads(s) && WellFormed(s, width)
      requires k < |active| - 1 && first == active[k] && Over(s, k, x0)
      requires w >= 1 && x0 + w <= width
      ensures minY == Rest(s, x0, w) && waste == Waste(s, k, x0, w)
      ensures waste >= Gap(s, x0, x0 + w, minY)
      ensures waste == Gap(s, x0, x0 + w, minY) <==> CountsRight(s, k, x0, w)
    {
      var node := first;
      var x1 := x0 + w;
      minY, waste := 0, 0;
      var visited := 0;
      ghost var j := k;
      while nodes[node].x < x1
        invariant k <= j < |active| && node == active[j]
        invariant Survey(s, j, x0, w, Tally(minY, waste, visited)) == Survey(s, k, x0, w, Tally(0, 0, 0))
        decreases |active| - j
      {
        assert s[j].x < width;
        assert j < |s| - 1 && nodes[node].next == After(active, j);
        ghost var round := SurveyRound(s, j, x0, w, Tally(minY, waste, visited));
        if nodes[node].y > minY {
          waste := waste + visited * (nodes[node].y - minY);
          minY := nodes[node].y;
          if nodes[node].x < x0 {
            visited := visited + nodes[nodes[node].next].x - x0;
          } else {
            visited := visited + nodes[nodes[node].next].x - nodes[node].x;
          }
        } else {
          var under := nodes[nodes[node].next].x - nodes[node].x;
          if under + visited > w {
            under := w - visited;
          }
          waste := waste + under * (minY - nodes[node].y);
          visited := visited + under;
        }
        assert round == Tally(minY, waste, visited);
        node := nodes[node].next;
        j := j + 1;
      }
      SurveyExactIff(s, width, k, x0, w);
    }

    /** The first pass of stbrp__skyline_find_best_pos: windows whose left edge is on a corner. */
    method ScanLeftAligned(w: int, h: int, ghost s: seq<Corner>) returns (best: Choice, ghost b: Best, ghost j: nat)
      requires Reads(s) && WellFormed(s, width) && 1 <= w <= width && 1 <= h <= height
      ensures Tracks(best, b)
      ensures j < |s| && s[j].x + w > width && LeftPass(heuristic, s, w, h, width, height, j, b)
    {
      best, b := Choice(NoLink, 0, BIG, BIG), Nothing;
      var node := activeHead;
      var prev := ActiveHead;
      j := 0;
      while nodes[node].x + w <= width
        invariant j < |active| && node == active[j] && LinkAt(prev, j)
        invariant Tracks(best, b) && LeftPass(heuristic, s, w, h, width, height, j, b)
        decreases |active| - j
      {
        assert j < |s| - 1 && nodes[node].next == After(active, j);
        var y, waste := FindMinY(node, nodes[node].x, w, s, j);
        b := LeftRoundKeeps(heuristic, s, w, h, width, height, j, b, Found(j, s[j].x, y, waste));
        if heuristic == BottomLeft {
          if y < best.y {
            best := Choice(prev, nodes[node].x, y, waste);
          }
        } else if y + h <= height {
          if y < best.y || (y == best.y && waste < best.waste) {
            best := Choice(prev, nodes[node].x, y, waste);
          }
        }
        prev := NextOf(node);
        node := nodes[node].next;
        j := j + 1;
      }
    }

    /** Walks on to the node over column xpos. */
    method Advance(node0: int, prev0: Link, xpos: int, ghost s: seq<Corner>, ghost j0: nat)
        returns (node: int, prev: Link, ghost j: nat)
      requires Reads(s) && WellFormed(s, width) && j0 < |s| && node0 == active[j0] && LinkAt(prev0, j0)
      requires s[j0].x <= xpos < width
      ensures j < |s| - 1 && node == active[j] && LinkAt(prev, j) && Over(s, j, xpos)
    {
      node, prev, j := node0, prev0, j0;
      assert j < |s| - 1;
      while nodes[nodes[node].next].x <= xpos
        invariant j < |s| - 1 && node == active[j] && LinkAt(prev, j) && s[j].x <= xpos
        invariant nodes[node].next == After(active, j)
        decreases |s| - j
      {
        prev := NextOf(node);
        node := nodes[node].next;
        j := j + 1;
      }
    }

    /** The program's best position so far is the one the specification tracks. */
    ghost predicate Tracks(c: Choice, b: Best)
      reads this
    {
      && (c.link == NoLink <==> b == Nothing)
      && (b.Found? ==> LinkAt(c.link, b.m))
      && c.x == b.X() && c.y == b.Y() && c.waste == b.Waste()
    }

    /** The second pass stands at the t-th corner, looking for its left edge from the j-th. */
    ghost predicate AtTail(s: seq<Corner>, w: int, tail: int, t: nat, node: int, prev: Link, j: nat)
      reads this
    {
      && t <= |s| == |active| && j < |s|
      && (if t < |s| then tail == active[t] else tail == NULL)
      && node == active[j] && LinkAt(prev, j)
      && (t < |s| ==> s[j].x <= s[t].x - w)
    }

    /** Takes the new position c, over the j-th segment and ending on the t-th corner, if it is better. */
    method Consider(c: Choice, w: int, h: int, best0: Choice, ghost s: seq<Corner>, ghost t: nat, ghost j: nat, ghost b0: Best)
        returns (best: Choice, ghost b: Best)
      requires WellFormed(s, width) && 1 <= w && 1 <= h && t < |s| && w <= s[t].x
      requires c.link != NoLink && LinkAt(c.link, j) && Over(s, j, c.x) && c.x == s[t].x - w
      requires c.y == Rest(s, c.x, w) && c.waste == Waste(s, j, c.x, w)
      requires Tracks(best0, b0) && RightPass(s, w, h, width, height, t, b0)
      ensures Tracks(best, b) && RightPass(s, w, h, width, height, t + 1, b)
    {
      best := best0;
      if c.y + h <= height {
        if c.y <= best.y {
          if c.y < best.y || c.waste < best.waste || (c.waste == best.waste && c.x < best.x) {
            best := c;
          }
        }
      }
      b := RightRoundKeeps(s, w, h, width, height, t, b0, Found(j, c.x, c.y, c.waste));
    }

    /** One round of the second pass: the window that ends on the t-th corner. */
    method TryEndingAt(tail: int, w: int, h: int, node0: int, prev0: Link, best0: Choice,
                       ghost s: seq<Corner>, ghost t: nat, ghost j0: nat, ghost b0: Best)
        returns (next: int, node: int, prev: Link, best: Choice, ghost j: nat, ghost b: Best)
      requires Reads(s) && WellFormed(s, width) && 1 <= w && 1 <= h
      requires t < |s| && AtTail(s, w, tail, t, node0, prev0, j0)
      requires Tracks(best0, b0) && RightPass(s, w, h, width, height, t, b0)
      ensures AtTail(s, w, next, t + 1, node, prev, j)
      ensures Tracks(best, b) && RightPass(s, w, h, width, height, t + 1, b)
    {
      assert s[0].x <= s[j0].x;
      var xpos := nodes[tail].x - w;
      node, prev, j := Advance(node0, prev0, xpos, s, j0);
      var y, waste := FindMinY(node, xpos, w, s, j);
      best, b := Consider(Choice(prev, xpos, y, waste), w, h, best0, s, t, j, b0);
      assert t + 1 < |s| ==> s[t].x < s[t + 1].x;
      assert nodes[tail].next == After(active, t);
      next := nodes[tail].next;
    }

    /** The second pass, for best fit only: windows whose right edge is on a corner. */
    method ScanRightAligned(w: int, h: int, best0: Choice, ghost s: seq<Corner>, ghost b0: Best)
        returns (best: Choice, ghost b: Best)
      requires Reads(s) && WellFormed(s, width) && 1 <= w <= width && 1 <= h <= height
      requires Tracks(best0, b0)
      requires forall t: nat :: t < |s| && (forall r :: 0 <= r < t ==> s[r].x < w) ==>
                 RightPass(s, w, h, width, height, t, b0)
      ensures Tracks(best, b) && RightPass(s, w, h, width, height, |s|, b)
    {
      best, b := best0, b0;
      var node, prev := activeHead, ActiveHead;
      var tail;
      ghost var t: nat, j: nat := 0, 0;
      tail, t := FirstTail(w, s);
      while tail != NULL
        invariant AtTail(s, w, tail, t, node, prev, j)
        invariant Tracks(best, b) && RightPass(s, w, h, width, height, t, b)
        decreases |s| - t
      {
        tail, node, prev, best, j, b := TryEndingAt(tail, w, h, node, prev, best, s, t, j, b);
        t := t + 1;
      }
    }

    /** The first corner a window of width w can end on. */
    method FirstTail(w: int, ghost s: seq<Corner>) returns (tail: int, ghost t: nat)
      requires Reads(s) && WellFormed(s, width) && w <= width
      ensures t < |s| && AtTail(s, w, tail, t, activeHead, ActiveHead, 0)
      ensures forall r :: 0 <= r < t ==> s[r].x < w
    {
      tail, t := activeHead, 0;
      while nodes[tail].x < w
        invariant t < |s| && tail == active[t]
        invariant forall r :: 0 <= r < t ==> s[r].x < w
        decreases |s| - t
      {
        assert nodes[tail].next == After(active, t);
        tail, t := nodes[tail].next, t + 1;
      }
    }

    /** stbrp__skyline_find_best_pos. */
    method FindBestPos(w: int, h: int, ghost s: seq<Corner>, ghost aw: int) returns (link: Link, x: int, y: int, ghost m: nat)
      requires Reads(s) && WellFormed(s, width) && w >= 1 && h >= 1 && align >= 1 && aw == Rounded(w, align)
      ensures link != NoLink ==> LinkAt(link, m) && GoodSpot(s, width, aw, m, x, y)
      ensures link != NoLink ==> Chosen(heuristic, s, aw, h, width, height, x, y)
      ensures link == NoLink || y + h > height ==> FitsNowhere(s, aw, h, width, Reach(height, h))
    {
      RoundedIs(w, align);
      var rounded := w + align - 1;
      rounded := rounded - rounded % align;
      if rounded > width || h > height {
        TooLarge(s, rounded, h, width, height);
        return NoLink, 0, 0, 0;
      }
      link, x, y, m := Search(rounded, h, s);
    }

    /** The two passes. */
    method Search(w: int, h: int, ghost s: seq<Corner>) returns (link: Link, x: int, y: int, ghost m: nat)
      requires Reads(s) && WellFormed(s, width) && 1 <= w <= width && 1 <= h <= height
      ensures link != NoLink ==> LinkAt(link, m) && GoodSpot(s, width, w, m, x, y)
      ensures link != NoLink ==> Chosen(heuristic, s, w, h, width, height, x, y)
      ensures link == NoLink || y + h > height ==> FitsNowhere(s, w, h, width, Reach(height, h))
    {
      var best;
      ghost var b, j;
      best, b, j := ScanLeftAligned(w, h, s);
      if heuristic == BestFit {
        LeftPassDone(s, w, h, width, height, j, b);
        best, b := ScanRightAligned(w, h, best, s, b);
        RightPassDone(s, w, h, width, height, b);
      } else {
        LeftPassChosen(s, w, h, width, height, j, b);
      }
      link, x, y := best.link, best.x, best.y;
      m := if b.Found? then b.m else 0;
    }

    /** Takes a node off the free list, gives it its corner and hangs it into the active list at
        the found link, before the first node that may have to be freed. */
    method CutIn(link: Link, x: int, top: int, ghost m: nat) returns (node: int, cur: int, ghost p: nat)
      requires Shape() && freeHead != NULL && LinkAt(link, m) && Over(sky, m, x)
      modifies nodes, this`activeHead, this`freeHead
      ensures node == free[0]
      ensures p == (if old(sky[m].x) < x then m + 1 else m) && cur == active[p]
      ensures CutOpen(nodes[..], active, p, p, node, activeHead)
      ensures Linked(nodes[..], free[1..], freeHead)
      ensures Corners(nodes[..], active) == old(sky)
      ensures nodes[node].x == x && nodes[node].y == top
    {
      ghost var ns := nodes[..];
      p := if sky[m].x < x then m + 1 else m;
      HangActive(ns, active, activeHead, p, free[0], x, top);
      HangFree(ns, active, free, freeHead, p, x, top);
      assert active[m] != free[0] && ns[active[m]].next == After(active, m);
      assert m > 0 ==> active[m - 1] != free[0] && ns[active[m - 1]].next == After(active, m - 1);
      node := freeHead;
      nodes[node] := Node(x, top, nodes[node].next);
      freeHead := nodes[node].next;
      cur := Deref(link);
      assert cur == active[m];
      if nodes[cur].x < x {
        var next := nodes[cur].next;
        nodes[cur] := nodes[cur].(next := node);
        cur := next;
      } else if link == ActiveHead {
        activeHead := node;
      } else {
        nodes[link.node] := nodes[link.node].(next := node);
      }
      assert nodes[..] == Hung(ns, active, p, node, x, top);
    }

    /** The traversal of stbrp__skyline_pack_rectangle: from the p-th node of the old active list `a`,
        moves nodes to the free list `f` until one is reached that the new edge does not cover. */
    method FreeCovered(cur0: int, edge: int, ghost a: seq<int>, ghost p: nat, ghost f: seq<int>)
        returns (cur: int, ghost c: nat, ghost f': seq<int>)
      requires p < |a| && cur0 == a[p]
      requires forall i :: 0 <= i < |a| ==> 0 <= a[i] < nodes.Length
      requires forall i {:trigger After(a, i)} :: p <= i < |a| ==> nodes[a[i]].next == After(a, i)
      requires Linked(nodes[..], f, freeHead) && NoRepeats(a) && NoRepeats(f) && Apart(a, f)
      modifies nodes, this`freeHead
      ensures p <= c < |a| && cur == a[c]
      ensures c + 1 < |a| ==> edge < Corners(old(nodes[..]), a)[c + 1].x
      ensures c > p ==> Corners(old(nodes[..]), a)[c].x <= edge
      ensures forall n :: 0 <= n < nodes.Length ==> nodes[n].x == old(nodes[n].x) && nodes[n].y == old(nodes[n].y)
      ensures forall n :: 0 <= n < nodes.Length && n !in a[p..c] ==> nodes[n] == old(nodes[n])
      ensures Linked(nodes[..], f', freeHead) && NoRepeats(f') && |f'| == |f| + c - p
      ensures forall n :: n in f' ==> n in a[p..c] || n in f
    {
      cur, c, f' := cur0, p, f;
      while nodes[cur].next != NULL && nodes[nodes[cur].next].x <= edge
        invariant p <= c < |a| && cur == a[c]
        invariant forall n :: 0 <= n < nodes.Length ==> nodes[n].x == old(nodes[n].x) && nodes[n].y == old(nodes[n].y)
        invariant forall n :: 0 <= n < nodes.Length && n !in a[p..c] ==> nodes[n] == old(nodes[n])
        invariant nodes[cur].next == After(a, c)
        invariant c > p ==> old(nodes[a[c]].x) <= edge
        invariant Linked(nodes[..], f', freeHead) && NoRepeats(f') && |f'| == |f| + c - p
        invariant forall n :: n in f' ==> n in a[p..c] || n in f
        decreases |a| - c
      {
        assert a[c] !in a[p..c] && a[c] !in f;
        var next := nodes[cur].next;
        LinkedCons(nodes[..], f', freeHead, cur);
        ghost var ns := nodes[..];
        nodes[cur] := nodes[cur].(next := freeHead);
        assert nodes[..] == ns[cur := ns[cur].(next := freeHead)];
        freeHead := cur;
        f' := [cur] + f';
        assert a[p..c + 1] == a[p..c] + [cur];
        cur := next;
        c := c + 1;
        assert a[c] !in a[p..c];
      }
      assert a[c] !in a[p..c];
    }

    /** FreeCovered on a list cut open before its p-th node. */
    method FreeRun(node: int, cur0: int, edge: int, ghost s: seq<Corner>, ghost p: nat)
        returns (cur: int, ghost c: nat, ghost f': seq<int>)
      requires CutOpen(nodes[..], active, p, p, node, activeHead) && cur0 == active[p]
      requires free != [] && node == free[0] && Linked(nodes[..], free[1..], freeHead)
      requires NoRepeats(free) && Apart(active, free)
      requires Corners(nodes[..], active) == s
      modifies nodes, this`freeHead
      ensures p <= c < |s| && cur == active[c]
      ensures c + 1 < |s| ==> edge < s[c + 1].x
      ensures c > p ==> s[c].x <= edge
      ensures CutOpen(nodes[..], active, p, c, node, activeHead) && Corners(nodes[..], active) == s
      ensures nodes[node] == old(nodes[node])
      ensures Linked(nodes[..], f', freeHead) && NoRepeats(f') && node !in f' && |f'| == |free| - 1 + c - p
      ensures forall n :: n in f' ==> n !in active[..p] && n !in active[c..]
    {
      ghost var ns := nodes[..];
      cur, c, f' := FreeCovered(cur0, edge, active, p, free[1..]);
      KeepsCut(ns, nodes[..], active, p, c, node, activeHead);
      FreedApart(active, free, p, c, f');
      SameCorners(ns, nodes[..], active);
    }

    /** The two writes that put the rest of the list behind the new node. */
    method Stitch(node: int, cur: int, edge: int)
      requires 0 <= node < nodes.Length && 0 <= cur < nodes.Length && node != cur
      modifies nodes
      ensures nodes[..] == Stitched(old(nodes[..]), node, cur, Max(old(nodes[cur].x), edge))
    {
      nodes[node] := nodes[node].(next := cur);
      if nodes[cur].x < edge {
        nodes[cur] := nodes[cur].(x := edge);
      }
    }

    /** Stitches the rest of the list back in behind the new node. */
    method StitchIn(node: int, cur: int, edge: int, ghost s: seq<Corner>, ghost a: seq<int>, ghost p: nat, ghost c: nat,
                    ghost f: seq<int>, ghost bs: seq<Box>, ghost x: int, ghost top: int)
      requires DimsOk() && nodes.Length == numNodes + 2
      requires CutOpen(nodes[..], a, p, c, node, activeHead) && cur == a[c]
      requires Linked(nodes[..], f, freeHead) && NoRepeats(f) && node !in f
      requires forall n :: n in f ==> n !in a[..p] && n !in a[c..]
      requires Corners(nodes[..], a) == s && p + 1 + |a| - c + |f| == numNodes + 2
      requires nodes[node].x == x && nodes[node].y == top
      requires WellFormed(Raised(s, p, c, x, top, edge), width)
      modifies nodes, this`active, this`free, this`placed, this`sky
      ensures Shape() && placed == bs
      ensures sky == Raised(s, p, c, x, top, edge)
    {
      ghost var ns := nodes[..];
      assert s[c].x == nodes[cur].x;
      Stitch(node, cur, edge);
      StitchActive(ns, a, p, c, node, activeHead, Max(s[c].x, edge));
      StitchFree(ns, a, p, c, node, f, freeHead, Max(s[c].x, edge));
      StitchCorners(ns, a, p, c, node, s, x, top, edge);
      NewActiveNoRepeats(a, p, c, node);
      active, free, placed, sky := NewActive(a, p, c, node), f, bs, Raised(s, p, c, x, top, edge);
    }

    /** The list surgery of one placement: the columns from x get height `top`, up to `edge` or, if
        the window starts inside a segment that ends later, up to the end of that segment. */
    method Splice(link: Link, x: int, top: int, edge: int, ghost m: nat, ghost bs: seq<Box>, ghost s: seq<Corner>)
      returns (ghost p: nat, ghost c: nat, ghost s': seq<Corner>)
      requires Shape() && freeHead != NULL && s == sky && LinkAt(link, m) && Over(s, m, x)
      requires 0 <= top && x < edge <= width
      modifies nodes, this`activeHead, this`freeHead, this`active, this`free, this`placed, this`sky
      ensures Shape() && placed == bs
      ensures p == (if s[m].x < x then m + 1 else m)
      ensures RaiseOk(s, width, p, c, x, top, edge)
      ensures s' == Raised(s, p, c, x, top, edge) && sky == s'
    {
      ghost var a := active;
      var node, cur;
      ghost var f';
      node, cur, p := CutIn(link, x, top, m);
      assert DimsOk();
      cur, c, f' := FreeRun(node, cur, edge, s, p);
      assert DimsOk();
      SpliceOk(s, width, m, x, top, edge, p, c);
      StitchIn(node, cur, edge, s, a, p, c, f', bs, x, top);
      s' := sky;
    }

    /** Puts the rectangle at the found spot. */
    method Place(link: Link, w: int, h: int, x: int, y: int, ghost m: nat, ghost aw: int, ghost s: seq<Corner>)
      requires Valid() && 1 <= w <= aw && h >= 1 && freeHead != NULL && s == sky
      requires LinkAt(link, m) && GoodSpot(s, width, aw, m, x, y) && y + h <= height
      modifies nodes, this`activeHead, this`freeHead, this`active, this`free, this`placed, this`sky
      ensures Valid()
      ensures Placement(s, sky, width, height, w, aw, h, x, y)
      ensures placed == old(placed) + [Box(x, y, w, h)]
      ensures Spliced(s, sky, width, x, y + h, x + w)
    {
      ghost var bs := placed;
      assert Safe(bs, s, width, height) && |s| <= |bs| + 2;
      PeakNonNegative(s, x, x + aw);
      var top, edge := y + h, x + w;
      ghost var p, c, s' := Splice(link, x, top, edge, m, bs + [Box(x, y, w, h)], s);
      SpliceIsPlacement(s, s', width, height, m, w, aw, h, x, y, p, c, top, edge, bs);
    }

    /** stbrp__skyline_pack_rectangle. */
    method PackRectangle(w: int, h: int) returns (ok: bool, x: int, y: int)
      requires Valid() && w >= 1 && h >= 1
      modifies nodes, this`activeHead, this`freeHead, this`active, this`free, this`placed, this`sky
      ensures Valid()
      ensures ok ==> Placement(old(sky), sky, width, height, w, Rounded(w, align), h, x, y)
      ensures ok ==> Chosen(heuristic, old(sky), Rounded(w, align), h, width, height, x, y)
      ensures ok ==> placed == old(placed) + [Box(x, y, w, h)]
      ensures ok ==> Spliced(old(sky), sky, width, x, y + h, x + w)
      ensures !ok ==> sky == old(sky) && free == old(free) && placed == old(placed)
      ensures ok ==> old(free) != []
      ensures !ok ==> old(free) == [] || FitsNowhere(sky, Rounded(w, align), h, width, Reach(height, h))
    {
      ok, x, y := FindAndPlace(w, h, sky, Rounded(w, align), heuristic);
    }

    /** ... in terms of the skyline before. */
    method FindAndPlace(w: int, h: int, ghost s: seq<Corner>, ghost aw: int, ghost how: Heuristic)
      returns (ok: bool, x: int, y: int)
      requires Valid() && w >= 1 && h >= 1 && s == sky && aw == Rounded(w, align) && how == heuristic
      modifies nodes, this`activeHead, this`freeHead, this`active, this`free, this`placed, this`sky
      ensures Valid()
      ensures ok ==> Placement(s, sky, width, height, w, aw, h, x, y)
      ensures ok ==> Chosen(how, s, aw, h, width, height, x, y)
      ensures ok ==> placed == old(placed) + [Box(x, y, w, h)] && old(free) != []
      ensures ok ==> Spliced(s, sky, width, x, y + h, x + w)
      ensures !ok ==> sky == s && free == old(free) && placed == old(placed)
      ensures !ok ==> free == [] || FitsNowhere(s, aw, h, width, Reach(height, h))
    {
      ReadsSky();
      var link;
      ghost var m;
      link, x, y, m := FindBestPos(w, h, s, aw);
      if link == NoLink || y + h > height || freeHead == NULL {
        return false, x, y;
      }
      Place(link, w, h, x, y, m, aw, s);
      ok := true;
    }
  }

  ghost function Iota(n: nat): seq<int> {
    seq(n, k => k)
  }

  method NewPool(width: int, numNodes: int) returns (pool: array<Node>)
    requires 1 <= numNodes
    ensures fresh(pool) && pool.Length == numNodes + 2
    ensures Linked(pool[..], Iota(numNodes), 0)
    ensures pool[numNodes] == Node(0, 0, numNodes + 1)
    ensures pool[numNodes + 1] == Node(width, BIG, NULL)
  {
    pool := new Node[numNodes + 2](_ => Node(0, 0, NULL));
    var i := 0;
    while i < numNodes - 1
      invariant 0 <= i <= numNodes - 1
      invariant forall k :: 0 <= k < i ==> pool[k].next == k + 1
    {
      pool[i] := pool[i].(next := i + 1);
      i := i + 1;
    }
    pool[i] := pool[i].(next := NULL);
    pool[numNodes] := Node(0, 0, numNodes + 1);
    pool[numNodes + 1] := Node(width, BIG, NULL);
  }

  lemma {:induction false} CornersFit(s: seq<Corner>, width: int, k: nat)
    requires WellFormed(s, width) && k < |s|
    ensures k <= s[k].x
  {
    if k > 0 {
      CornersFit(s, width, k - 1);
    }
  }
}
