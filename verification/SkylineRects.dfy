/** Packing whole arrays: sort by height, place one by one, restore the caller's order. */
module SkylineRects {
  import opened Skyline
  import opened SkylinePacker

  datatype Rect = Rect(id: int, w: int, h: int, x: int, y: int, wasPacked: int)

  function BoxOf(r: Rect): Box {
    Box(r.x, r.y, r.w, r.h)
  }

  // ----- sorting

  datatype Order = ByHeight | Original

  /** rect_height_compare and rect_original_order. */
  function Compare(o: Order, p: Rect, q: Rect): int {
    match o
    case ByHeight =>
      if p.h > q.h then -1
      else if p.h < q.h then 1
      else if p.w > q.w then -1
      else if p.w < q.w then 1 else 0
    case Original =>
      if p.wasPacked < q.wasPacked then -1
      else if p.wasPacked > q.wasPacked then 1 else 0
  }

  ghost predicate Sorted(o: Order, s: seq<Rect>) {
    forall i, j :: 0 <= i < j < |s| ==> Compare(o, s[i], s[j]) <= 0
  }

  ghost predicate Permutation(p: seq<int>, n: nat) {
    && |p| == n
    && (forall i :: 0 <= i < n ==> 0 <= p[i] < n)
    && NoRepeats(p)
  }

  /** s is t rearranged: its i-th entry is the p[i]-th of t. */
  ghost predicate Rearranged(s: seq<Rect>, t: seq<Rect>, p: seq<int>) {
    && |s| == |t| && Permutation(p, |t|)
    && (forall i :: 0 <= i < |s| ==> s[i] == t[p[i]])
  }

  ghost predicate Leq(o: Order, p: Rect, q: Rect) {
    Compare(o, p, q) <= 0
  }

  lemma {:induction false} LeqTransitive(o: Order, p: Rect, q: Rect, r: Rect)
    requires Leq(o, p, q) && Leq(o, q, r)
    ensures Leq(o, p, r)
  {
  }

  /** All but the j-th of the first i+1 entries are in order, and the j-th belongs before those after it. */
  ghost predicate Sinking(o: Order, s: seq<Rect>, i: nat, j: nat)
    requires j <= i < |s|
  {
    && (forall u, v :: 0 <= u < v <= i && u != j && v != j ==> Leq(o, s[u], s[v]))
    && (forall v :: j < v <= i ==> Leq(o, s[j], s[v]))
  }

  lemma {:induction false} SwapRearranges(s: seq<Rect>, t: seq<Rect>, p: seq<int>, j: nat)
    requires 0 < j < |s| && Rearranged(s, t, p)
    ensures Rearranged(s[j - 1 := s[j]][j := s[j - 1]], t, p[j - 1 := p[j]][j := p[j - 1]])
  {
  }

  lemma {:induction false} SwapSinks(o: Order, s: seq<Rect>, i: nat, j: nat)
    requires 0 < j <= i < |s| && Sinking(o, s, i, j) && Compare(o, s[j - 1], s[j]) > 0
    ensures Sinking(o, s[j - 1 := s[j]][j := s[j - 1]], i, j - 1)
  {
    assert Leq(o, s[j], s[j - 1]);
  }

  lemma {:induction false} SunkSorted(o: Order, s: seq<Rect>, i: nat, j: nat)
    requires j <= i < |s| && Sinking(o, s, i, j)
    requires j == 0 || Leq(o, s[j - 1], s[j])
    ensures Sorted(o, s[..i + 1])
  {
    forall u, v | 0 <= u < v <= i
      ensures Leq(o, s[u], s[v])
    {
      if v == j && u < j - 1 {
        LeqTransitive(o, s[u], s[j - 1], s[j]);
      }
    }
  }

  method Sink(a: array<Rect>, o: Order, i: nat, ghost t: seq<Rect>, ghost p0: seq<int>) returns (ghost p: seq<int>)
    requires i < a.Length && Sorted(o, a[..i]) && Rearranged(a[..], t, p0)
    modifies a
    ensures Sorted(o, a[..i + 1]) && Rearranged(a[..], t, p)
  {
    p := p0;
    var j := i;
    assert forall u, v :: 0 <= u < v < i ==> Leq(o, a[..i][u], a[..i][v]);
    while j > 0 && Compare(o, a[j - 1], a[j]) > 0
      invariant 0 <= j <= i
      invariant Rearranged(a[..], t, p) && Sinking(o, a[..], i, j)
    {
      SwapRearranges(a[..], t, p, j);
      SwapSinks(o, a[..], i, j);
      ghost var s := a[..];
      a[j - 1], a[j] := a[j], a[j - 1];
      assert a[..] == s[j - 1 := s[j]][j := s[j - 1]];
      p := p[j - 1 := p[j]][j := p[j - 1]];
      j := j - 1;
    }
    SunkSorted(o, a[..], i, j);
    assert a[..][..i + 1] == a[..i + 1];
  }

  /** STBRP_SORT: nothing is promised about the order of equal entries. */
  method Sort(a: array<Rect>, o: Order) returns (ghost p: seq<int>)
    modifies a
    ensures Sorted(o, a[..]) && Rearranged(a[..], old(a[..]), p)
  {
    p := Iota(a.Length);
    var i := 0;
    while i < a.Length
      invariant 0 <= i <= a.Length
      invariant Sorted(o, a[..i]) && Rearranged(a[..], old(a[..]), p)
    {
      p := Sink(a, o, i, old(a[..]), p);
      i := i + 1;
    }
    assert a[..i] == a[..];
  }

  /** Sorted distinct numbers 0 .. n-1 are in place. */
  lemma {:induction false} SortedKeys(k: seq<int>)
    requires Permutation(k, |k|)
    requires forall i, j :: 0 <= i < j < |k| ==> k[i] <= k[j]
    ensures forall i :: 0 <= i < |k| ==> k[i] == i
  {
    var i := 0;
    while i < |k|
      invariant 0 <= i <= |k|
      invariant forall l :: 0 <= l < i ==> l <= k[l]
    {
      assert i > 0 ==> k[i - 1] < k[i];
      i := i + 1;
    }
    i := |k|;
    while i > 0
      invariant 0 <= i <= |k|
      invariant forall l :: i <= l < |k| ==> k[l] <= l
    {
      i := i - 1;
      assert i + 1 < |k| ==> k[i] < k[i + 1];
    }
  }

  /** Sorting by tag undoes the sort that the tags survived. */
  lemma {:induction false} UnsortRestores(p: seq<int>, done: seq<Rect>, last: seq<Rect>, q: seq<int>)
    requires Permutation(p, |done|)
    requires forall i :: 0 <= i < |done| ==> done[i].wasPacked == p[i]
    requires Sorted(Original, last) && Rearranged(last, done, q)
    ensures forall i :: 0 <= i < |last| ==> p[q[i]] == i
  {
    var k := seq(|last|, i requires 0 <= i < |last| => p[q[i]]);
    assert Permutation(k, |k|);
    forall i, j | 0 <= i < j < |k|
      ensures k[i] <= k[j]
    {
      assert Compare(Original, last[i], last[j]) <= 0;
    }
    SortedKeys(k);
    forall i | 0 <= i < |last|
      ensures p[q[i]] == i
    {
      assert k[i] == i;
    }
  }

  // ----- packing

  ghost predicate Sane(s: seq<Rect>) {
    forall i :: 0 <= i < |s| ==> 0 <= s[i].w && 0 <= s[i].h
  }

  predicate Empty(r: Rect) {
    r.w == 0 || r.h == 0
  }

  /** Same caller-owned data and same tag. */
  ghost predicate SameInput(r: Rect, r': Rect) {
    r'.id == r.id && r'.w == r.w && r'.h == r.h && r'.wasPacked == r.wasPacked
  }

  /** A context as a value: its dimensions, skyline and the boxes placed so far. */
  datatype World = World(width: int, height: int, numNodes: int, sky: seq<Corner>, placed: seq<Box>) {
    ghost predicate Ok() {
      1 <= width <= MAXVAL && WellFormed(sky, width) && Safe(placed, sky, width, height)
    }

    /** No placement can fail for want of a node. */
    predicate Roomy() {
      numNodes >= width
    }

    /** Later in the same packing: more boxes, and the skyline nowhere lower. */
    ghost predicate GrowsTo(v: World)
      requires Ok() && v.Ok()
    {
      && v.width == width && v.height == height && v.numNodes == numNodes
      && placed <= v.placed
      && (forall u :: 0 <= u < width ==> Height(sky, u) <= Height(v.sky, u))
    }
  }

  ghost function WorldOf(c: Context): (v: World)
    requires c.Valid()
    reads c, c.nodes
    ensures v.Ok()
  {
    World(c.width, c.height, c.numNodes, c.sky, c.placed)
  }

  /** How a rectangle came out: empty, placed as the slot-th box, or given up.  When nodes cannot
      run out, giving up means that it still fits nowhere on the skyline. */
  ghost predicate Outcome(v: World, r: Rect, slot: int)
    requires v.Ok()
  {
    if Empty(r) then slot == -1 && r.x == 0 && r.y == 0
    else if slot >= 0 then slot < |v.placed| && v.placed[slot] == BoxOf(r)
    else
      && slot == -1 && GivenUp(r)
      && (v.Roomy() ==> FitsNowhere(v.sky, r.w, r.h, v.width, Reach(v.height, r.h)))
  }

  predicate GivenUp(r: Rect) {
    r.x == MAXVAL && r.y == MAXVAL
  }

  lemma {:induction false} RestRises(s: seq<Corner>, s': seq<Corner>, width: int, x: int, w: int)
    requires WellFormed(s, width) && WellFormed(s', width) && 0 <= x && x + w <= width
    requires forall u :: 0 <= u < width ==> Height(s, u) <= Height(s', u)
    ensures Rest(s, x, w) <= Rest(s', x, w)
  {
    PeakNonNegative(s', x, x + w);
    forall u | x <= u < x + w
      ensures Height(s, u) <= Rest(s', x, w)
    {
      PeakBounds(s', x, x + w, u);
    }
    PeakLeast(s, x, x + w, Rest(s', x, w));
  }

  lemma {:induction false} FitsNowhereStays(s: seq<Corner>, s': seq<Corner>, w: int, h: int, width: int, height: int)
    requires WellFormed(s, width) && WellFormed(s', width) && w >= 1
    requires forall u :: 0 <= u < width ==> Height(s, u) <= Height(s', u)
    requires FitsNowhere(s, w, h, width, height)
    ensures FitsNowhere(s', w, h, width, height)
  {
    forall x
      ensures Fits(s', x, w, h, width, height) ==> Fits(s, x, w, h, width, height)
    {
      if 0 <= x && x + w <= width {
        RestRises(s, s', width, x, w);
      }
    }
  }

  /** What later placements leave true of a rectangle already dealt with. */
  lemma {:induction false} OutcomeStays(v: World, v': World, r: Rect, slot: int)
    requires v.Ok() && v'.Ok() && v.GrowsTo(v') && 0 <= r.w && 0 <= r.h && Outcome(v, r, slot)
    ensures Outcome(v', r, slot)
  {
    if !Empty(r) && slot < 0 && v.Roomy() {
      FitsNowhereStays(v.sky, v'.sky, r.w, r.h, v.width, Reach(v.height, r.h));
    }
  }

  /** What decides where a rectangle goes, apart from the skyline. */
  datatype Rules = Rules(hr: Heuristic, align: int, width: int, height: int, numNodes: int)

  ghost function RulesOf(c: Context): Rules
    reads c
  {
    Rules(c.heuristic, c.align, c.width, c.height, c.numNodes)
  }

  /** Where a w x h rectangle goes on the skyline s, which it makes s': an empty one to the origin, any other to the
      place that the heuristic chooses; it is given up only if all nodes are in use, one for each corner, or no
      place fits. */
  ghost predicate Went(k: Rules, s: seq<Corner>, s': seq<Corner>, w: int, h: int, x: int, y: int) {
    && |s| > 0 && |s'| > 0 && k.align >= 1 && w >= 0 && h >= 0
    && if w == 0 || h == 0 then x == 0 && y == 0 && s' == s
       else
         var aw := Rounded(w, k.align);
         if x == MAXVAL && y == MAXVAL then
           s' == s && (|s| == k.numNodes + 2 || FitsNowhere(s, aw, h, k.width, Reach(k.height, h)))
         else
           && |s| < k.numNodes + 2 && Chosen(k.hr, s, aw, h, k.width, k.height, x, y)
           && Placement(s, s', k.width, k.height, w, aw, h, x, y) && Spliced(s, s', k.width, x, y + h, x + w)
  }

  method PackOne(c: Context, r: Rect) returns (r': Rect, ghost slot: int)
    requires c.Valid() && 0 <= r.w && 0 <= r.h
    modifies c.nodes, c`activeHead, c`freeHead, c`active, c`free, c`placed, c`sky
    ensures c.Valid() && SameInput(r, r') && Outcome(WorldOf(c), r', slot)
    ensures old(WorldOf(c)).GrowsTo(WorldOf(c))
    ensures c.placed == if slot == -1 then old(c.placed) else old(c.placed) + [BoxOf(r')]
    ensures slot == -1 || slot == |old(c.placed)|
    ensures Went(RulesOf(c), old(c.sky), c.sky, r.w, r.h, r'.x, r'.y)
  {
    if r.w == 0 || r.h == 0 {
      r', slot := r.(x := 0, y := 0), -1;
    } else {
      r', slot := PackSized(c, r);
    }
  }

  lemma {:induction false} PlacedGrows(v: World, v': World, w: int, aw: int, h: int, x: int, y: int)
    requires v.Ok() && v'.Ok() && v'.width == v.width && v'.height == v.height && v'.numNodes == v.numNodes
    requires 1 <= w <= aw && h >= 1 && Placement(v.sky, v'.sky, v.width, v.height, w, aw, h, x, y)
    requires v'.placed == v.placed + [Box(x, y, w, h)]
    ensures v.GrowsTo(v')
  {
    PlacementRaises(v.sky, v'.sky, v.width, v.height, w, aw, h, x, y);
  }

  lemma {:induction false} GivenUpOutcome(v: World, r: Rect, aw: int)
    requires v.Ok() && r.w >= 1 && r.h >= 1 && GivenUp(r)
    requires v.Roomy() ==> aw == r.w && FitsNowhere(v.sky, aw, r.h, v.width, Reach(v.height, r.h))
    ensures Outcome(v, r, -1)
  {
  }

  lemma {:induction false} WentThere(k: Rules, s: seq<Corner>, s': seq<Corner>, w: int, h: int, x: int, y: int)
    requires 0 < |s| < k.numNodes + 2 && |s'| > 0 && k.align >= 1 && w >= 1 && h >= 1 && k.width <= MAXVAL
    requires Chosen(k.hr, s, Rounded(w, k.align), h, k.width, k.height, x, y)
    requires Placement(s, s', k.width, k.height, w, Rounded(w, k.align), h, x, y) && Spliced(s, s', k.width, x, y + h, x + w)
    ensures Went(k, s, s', w, h, x, y)
  {
    assert x < MAXVAL;
  }

  lemma {:induction false} WentNowhere(k: Rules, s: seq<Corner>, w: int, h: int)
    requires |s| > 0 && k.align >= 1 && w >= 1 && h >= 1
    requires |s| == k.numNodes + 2 || FitsNowhere(s, Rounded(w, k.align), h, k.width, Reach(k.height, h))
    ensures Went(k, s, s, w, h, MAXVAL, MAXVAL)
  {
  }

  /** What PackRectangle does, in terms of the skyline. */
  method PackOnSky(c: Context, w: int, h: int, ghost k: Rules, ghost s: seq<Corner>) returns (ok: bool, x: int, y: int)
    requires c.Valid() && 1 <= w && 1 <= h && k == RulesOf(c) && s == c.sky
    modifies c.nodes, c`activeHead, c`freeHead, c`active, c`free, c`placed, c`sky
    ensures c.Valid() && |s| > 0 && k.align >= 1
    ensures ok ==> Placement(s, c.sky, c.width, c.height, w, Rounded(w, k.align), h, x, y) && c.placed == old(c.placed) + [Box(x, y, w, h)]
    ensures !ok ==> c.sky == s && c.placed == old(c.placed) && x == MAXVAL && y == MAXVAL
    ensures Went(k, s, c.sky, w, h, x, y)
    ensures !ok && c.numNodes >= c.width ==> Rounded(w, k.align) == w && FitsNowhere(s, w, h, c.width, Reach(c.height, h))
  {
    assert |c.sky| == |c.active| && |c.active| + |c.free| == c.numNodes + 2;
    if c.numNodes >= c.width {
      c.NodesSuffice();
    }
    ok, x, y := c.PackRectangle(w, h);
    if ok {
      WentThere(k, s, c.sky, w, h, x, y);
    } else {
      x, y := MAXVAL, MAXVAL;
      WentNowhere(k, s, w, h);
    }
  }

  /** A rectangle that is not empty. */
  method PackSized(c: Context, r: Rect) returns (r': Rect, ghost slot: int)
    requires c.Valid() && 1 <= r.w && 1 <= r.h
    modifies c.nodes, c`activeHead, c`freeHead, c`active, c`free, c`placed, c`sky
    ensures c.Valid() && SameInput(r, r') && Outcome(WorldOf(c), r', slot)
    ensures old(WorldOf(c)).GrowsTo(WorldOf(c))
    ensures c.placed == if slot == -1 then old(c.placed) else old(c.placed) + [BoxOf(r')]
    ensures slot == -1 || slot == |old(c.placed)|
    ensures Went(RulesOf(c), old(c.sky), c.sky, r.w, r.h, r'.x, r'.y)
  {
    ghost var v, aw := WorldOf(c), Rounded(r.w, c.align);
    var ok, x, y := PackOnSky(c, r.w, r.h, RulesOf(c), c.sky);
    r', slot := r.(x := x, y := y), -1;
    if ok {
      PlacedGrows(v, WorldOf(c), r.w, aw, r.h, x, y);
      slot := |v.placed|;
    } else {
      assert WorldOf(c) == v;
      GivenUpOutcome(v, r', aw);
    }
  }

  /** After the first |slots| rectangles of rs (as they were: ins) have been dealt with, since v0:
      different rectangles have different slots, which are exactly the boxes placed since. */
  ghost predicate Progress(v0: World, v: World, ins: seq<Rect>, rs: seq<Rect>, slots: seq<int>)
    requires v0.Ok() && v.Ok() && Sane(ins)
  {
    && v0.GrowsTo(v) && |slots| <= |rs| == |ins|
    && (forall k :: 0 <= k < |rs| ==> SameInput(ins[k], rs[k]))
    && (forall k :: 0 <= k < |slots| ==> Outcome(v, rs[k], slots[k]))
    && (forall k, l :: 0 <= k < l < |slots| && slots[k] >= 0 ==> slots[k] != slots[l])
    && (forall k :: 0 <= k < |slots| ==> slots[k] == -1 || |v0.placed| <= slots[k] < |v.placed|)
    && (forall n :: |v0.placed| <= n < |v.placed| ==> n in slots)
  }

  lemma {:induction false} ProgressStep(v0: World, v: World, v': World, ins: seq<Rect>, rs: seq<Rect>, slots: seq<int>, r: Rect, slot: int)
    requires v0.Ok() && v.Ok() && v'.Ok() && Sane(ins) && Progress(v0, v, ins, rs, slots) && |slots| < |rs|
    requires SameInput(rs[|slots|], r) && Outcome(v', r, slot) && v.GrowsTo(v')
    requires v'.placed == if slot == -1 then v.placed else v.placed + [BoxOf(r)]
    requires slot == -1 || slot == |v.placed|
    ensures Progress(v0, v', ins, rs[|slots| := r], slots + [slot])
  {
    var rs', slots' := rs[|slots| := r], slots + [slot];
    forall k | 0 <= k < |slots'|
      ensures Outcome(v', rs'[k], slots'[k])
    {
      if k < |slots| {
        OutcomeStays(v, v', rs[k], slots[k]);
      }
    }
    forall n | |v0.placed| <= n < |v'.placed|
      ensures n in slots'
    {
      if n < |v.placed| {
        assert n in slots;
      } else {
        assert slots'[|slots|] == n;
      }
    }
  }

  /** The skylines that the first rectangles went through, one after the other. */
  ghost predicate Trail(k: Rules, skies: seq<seq<Corner>>, ins: seq<Rect>, rs: seq<Rect>) {
    && 1 <= |skies| <= |ins| + 1 && |ins| == |rs|
    && forall i :: 0 <= i < |skies| - 1 ==> Went(k, skies[i], skies[i + 1], ins[i].w, ins[i].h, rs[i].x, rs[i].y)
  }

  lemma {:induction false} TrailNext(k: Rules, skies: seq<seq<Corner>>, ins: seq<Rect>, rs: seq<Rect>, r: Rect, s: seq<Corner>,
                                     s': seq<Corner>)
    requires Trail(k, skies, ins, rs) && |skies| <= |ins| && skies[|skies| - 1] == s
    requires var o := rs[|skies| - 1]; SameInput(ins[|skies| - 1], o) && Went(k, s, s', o.w, o.h, r.x, r.y)
    ensures Trail(k, skies + [s'], ins, rs[|skies| - 1 := r])
  {
  }

  /** One round of the placing loop of stbrp_pack_rects. */
  method PackNext(c: Context, rects: array<Rect>, i: nat, ghost k: Rules, ghost v0: World, ghost ins: seq<Rect>,
                  ghost slots: seq<int>, ghost skies: seq<seq<Corner>>)
      returns (ghost slots': seq<int>, ghost skies': seq<seq<Corner>>)
    requires c.Valid() && v0.Ok() && Sane(ins) && i < rects.Length && |slots| == i && RulesOf(c) == k
    requires Progress(v0, WorldOf(c), ins, rects[..], slots)
    requires Trail(k, skies, ins, rects[..]) && |skies| == i + 1 && skies[0] == v0.sky && skies[i] == c.sky
    modifies rects, c.nodes, c`activeHead, c`freeHead, c`active, c`free, c`placed, c`sky
    ensures c.Valid() && |slots'| == i + 1 && RulesOf(c) == k
    ensures Progress(v0, WorldOf(c), ins, rects[..], slots')
    ensures Trail(k, skies', ins, rects[..]) && |skies'| == i + 2 && skies'[0] == v0.sky && skies'[i + 1] == c.sky
  {
    ghost var rs := rects[..];
    var r;
    r, slots', skies' := PackThis(c, rects[i], i, k, v0, ins, rs, slots, skies);
    rects[i] := r;
    assert rects[..] == rs[i := r];
  }

  /** ... for the rectangle that is next. */
  method PackThis(c: Context, r: Rect, i: nat, ghost k: Rules, ghost v0: World, ghost ins: seq<Rect>, ghost rs: seq<Rect>,
                  ghost slots: seq<int>, ghost skies: seq<seq<Corner>>)
      returns (r': Rect, ghost slots': seq<int>, ghost skies': seq<seq<Corner>>)
    requires c.Valid() && v0.Ok() && Sane(ins) && i < |rs| && rs[i] == r && |slots| == i && RulesOf(c) == k
    requires Progress(v0, WorldOf(c), ins, rs, slots)
    requires Trail(k, skies, ins, rs) && |skies| == i + 1 && skies[0] == v0.sky && skies[i] == c.sky
    modifies c.nodes, c`activeHead, c`freeHead, c`active, c`free, c`placed, c`sky
    ensures c.Valid() && |slots'| == i + 1 && RulesOf(c) == k
    ensures Progress(v0, WorldOf(c), ins, rs[i := r'], slots')
    ensures Trail(k, skies', ins, rs[i := r']) && |skies'| == i + 2 && skies'[0] == v0.sky && skies'[i + 1] == c.sky
  {
    ghost var v := WorldOf(c);
    assert SameInput(ins[i], rs[i]);
    ghost var slot;
    r', slot := PackOne(c, r);
    ghost var v' := WorldOf(c);
    ProgressStep(v0, v, v', ins, rs, slots, r', slot);
    TrailNext(k, skies, ins, rs, r', v.sky, v'.sky);
    slots', skies' := slots + [slot], skies + [v'.sky];
  }

  /** The placing loop, over the sorted array. */
  method PackSorted(c: Context, rects: array<Rect>) returns (ghost slots: seq<int>, ghost skies: seq<seq<Corner>>)
    requires c.Valid() && Sane(rects[..])
    modifies rects, c.nodes, c`activeHead, c`freeHead, c`active, c`free, c`placed, c`sky
    ensures c.Valid() && |slots| == rects.Length
    ensures Progress(old(WorldOf(c)), WorldOf(c), old(rects[..]), rects[..], slots)
    ensures Trail(RulesOf(c), skies, old(rects[..]), rects[..])
    ensures |skies| == rects.Length + 1 && skies[0] == old(c.sky) && skies[rects.Length] == c.sky
  {
    slots, skies := [], [c.sky];
    ghost var ins, v0, k := rects[..], WorldOf(c), RulesOf(c);
    var i := 0;
    while i < rects.Length
      invariant 0 <= i <= rects.Length && c.Valid() && |slots| == i && RulesOf(c) == k
      invariant Progress(v0, WorldOf(c), ins, rects[..], slots)
      invariant Trail(k, skies, ins, rects[..]) && |skies| == i + 1 && skies[0] == v0.sky && skies[i] == c.sky
    {
      slots, skies := PackNext(c, rects, i, k, v0, ins, slots, skies);
      i := i + 1;
    }
  }

  /** A rectangle that was packed and takes up space. */
  predicate Occupies(r: Rect) {
    r.wasPacked == 1 && !Empty(r)
  }

  /** The box is one of the rectangles. */
  ghost predicate TakesUp(rs: seq<Rect>, b: Box) {
    exists i :: 0 <= i < |rs| && Occupies(rs[i]) && BoxOf(rs[i]) == b
  }

  /** What a call promises about the rectangles ins it was given and rs it gives back. */
  ghost predicate Result(v0: World, v: World, ins: seq<Rect>, rs: seq<Rect>)
    requires v0.Ok() && v.Ok()
  {
    && v0.GrowsTo(v) && |rs| == |ins|
    // the caller's order and data are untouched, every flag is 0 or 1, empty ones need no space
    && (forall i :: 0 <= i < |rs| ==> rs[i].id == ins[i].id && rs[i].w == ins[i].w && rs[i].h == ins[i].h)
    && (forall i :: 0 <= i < |rs| ==> rs[i].wasPacked == 0 || rs[i].wasPacked == 1)
    && (forall i :: 0 <= i < |rs| && Empty(rs[i]) ==> rs[i].wasPacked == 1 && rs[i].x == 0 && rs[i].y == 0)
    // the packed ones are inside the target, apart from one another and from all earlier ones
    && (forall i :: 0 <= i < |rs| && Occupies(rs[i]) ==> Inside(BoxOf(rs[i]), v.width, v.height))
    && (forall i, j :: 0 <= i < j < |rs| && Occupies(rs[i]) && Occupies(rs[j]) ==> Disjoint(BoxOf(rs[i]), BoxOf(rs[j])))
    && (forall i, k :: 0 <= i < |rs| && Occupies(rs[i]) && 0 <= k < |v0.placed| ==> Disjoint(v0.placed[k], BoxOf(rs[i])))
    // they are exactly what the context has taken in
    && (forall i :: 0 <= i < |rs| && Occupies(rs[i]) ==> BoxOf(rs[i]) in v.placed)
    && (forall n :: |v0.placed| <= n < |v.placed| ==> TakesUp(rs, v.placed[n]))
    // one that was given up fits nowhere, not even now, unless nodes could have run out
    && (forall i :: 0 <= i < |rs| && rs[i].wasPacked == 0 ==>
          GivenUp(rs[i]) && (v.Roomy() ==> FitsNowhere(v.sky, rs[i].w, rs[i].h, v.width, Reach(v.height, rs[i].h))))
  }

  /** The order in which the rectangles are dealt with, taller ones first and of equally tall ones the wider, and
      the skylines on the way: each goes where the rules say on the skyline that the ones before it have left. */
  ghost predicate InOrder(k: Rules, p: seq<int>, skies: seq<seq<Corner>>, ins: seq<Rect>, rs: seq<Rect>) {
    && Permutation(p, |ins|) && |rs| == |ins| && |skies| == |ins| + 1
    && (forall i, j :: 0 <= i < j < |p| ==>
          ins[p[i]].h > ins[p[j]].h || (ins[p[i]].h == ins[p[j]].h && ins[p[i]].w >= ins[p[j]].w))
    && (forall i :: 0 <= i < |p| ==> Went(k, skies[i], skies[i + 1], ins[p[i]].w, ins[p[i]].h, rs[p[i]].x, rs[p[i]].y))
  }

  /** stbrp_pack_rects. */
  method PackRects(c: Context, rects: array<Rect>) returns (allPacked: bool, ghost p: seq<int>, ghost skies: seq<seq<Corner>>)
    requires c.Valid() && Sane(rects[..])
    modifies rects, c.nodes, c`activeHead, c`freeHead, c`active, c`free, c`placed, c`sky
    ensures c.Valid() && Result(old(WorldOf(c)), WorldOf(c), old(rects[..]), rects[..])
    ensures allPacked <==> forall i :: 0 <= i < rects.Length ==> rects[i].wasPacked == 1
    ensures InOrder(RulesOf(c), p, skies, old(rects[..]), rects[..])
    ensures skies[0] == old(c.sky) && skies[rects.Length] == c.sky
  {
    ghost var v0, ins := WorldOf(c), rects[..];
    ghost var sorted, slots;
    sorted, p, slots, skies := ArrangeAndPack(c, rects);
    ghost var v, done, last, q := WorldOf(c), rects[..], [], [];
    allPacked, last, q := Restore(rects, p);
    AllHolds(RulesOf(c), v0, v, skies, ins, sorted, p, done, slots, last, q, rects[..]);
  }

  lemma {:induction false} AllHolds(k: Rules, v0: World, v: World, skies: seq<seq<Corner>>, ins: seq<Rect>, sorted: seq<Rect>, p: seq<int>,
                                    done: seq<Rect>, slots: seq<int>, last: seq<Rect>, q: seq<int>, rs: seq<Rect>)
    requires v0.Ok() && v.Ok() && |sorted| == |done| == |ins| == |slots| && |skies| == |ins| + 1 && Sane(sorted)
    requires Permutation(p, |ins|) && Sorted(ByHeight, sorted)
    requires forall i :: 0 <= i < |p| ==> sorted[i] == ins[p[i]].(wasPacked := p[i])
    requires Progress(v0, v, sorted, done, slots) && Trail(k, skies, sorted, done)
    requires Rearranged(last, done, q) && |rs| == |last|
    requires forall i :: 0 <= i < |q| ==> p[q[i]] == i
    requires forall i :: 0 <= i < |rs| ==> rs[i] == last[i].(wasPacked := if GivenUp(last[i]) then 0 else 1)
    ensures Result(v0, v, ins, rs) && InOrder(k, p, skies, ins, rs)
  {
    ResultHolds(v0, v, ins, sorted, p, done, slots, last, q, rs);
    InOrderHolds(k, skies, ins, sorted, p, done, last, q, rs);
  }

  lemma {:induction false} InOrderHolds(k: Rules, skies: seq<seq<Corner>>, ins: seq<Rect>, sorted: seq<Rect>, p: seq<int>,
                                        done: seq<Rect>, last: seq<Rect>, q: seq<int>, rs: seq<Rect>)
    requires |sorted| == |done| == |ins| && |skies| == |ins| + 1 && Permutation(p, |ins|) && Sorted(ByHeight, sorted)
    requires forall i :: 0 <= i < |p| ==> sorted[i] == ins[p[i]].(wasPacked := p[i])
    requires Trail(k, skies, sorted, done)
    requires Rearranged(last, done, q) && |rs| == |last|
    requires forall i :: 0 <= i < |q| ==> p[q[i]] == i
    requires forall i :: 0 <= i < |rs| ==> rs[i] == last[i].(wasPacked := if GivenUp(last[i]) then 0 else 1)
    ensures InOrder(k, p, skies, ins, rs)
  {
    forall i, j | 0 <= i < j < |p|
      ensures ins[p[i]].h > ins[p[j]].h || (ins[p[i]].h == ins[p[j]].h && ins[p[i]].w >= ins[p[j]].w)
    {
      assert Compare(ByHeight, sorted[i], sorted[j]) <= 0;
    }
    forall i | 0 <= i < |p|
      ensures Went(k, skies[i], skies[i + 1], ins[p[i]].w, ins[p[i]].h, rs[p[i]].x, rs[p[i]].y)
    {
      BackInPlace(p, q, i);
      assert sorted[i].w == ins[p[i]].w && sorted[i].h == ins[p[i]].h;
      assert rs[p[i]].x == done[i].x && rs[p[i]].y == done[i].y;
      assert Went(k, skies[i], skies[i + 1], sorted[i].w, sorted[i].h, done[i].x, done[i].y);
    }
  }

  lemma {:induction false} BackInPlace(p: seq<int>, q: seq<int>, i: nat)
    requires Permutation(p, |q|) && Permutation(q, |q|) && i < |p| && forall j :: 0 <= j < |q| ==> p[q[j]] == j
    ensures q[p[i]] == i
  {
    assert p[q[p[i]]] == p[i];
  }

  /** The first two steps: sort, then place in that order. */
  method ArrangeAndPack(c: Context, rects: array<Rect>)
      returns (ghost sorted: seq<Rect>, ghost p: seq<int>, ghost slots: seq<int>, ghost skies: seq<seq<Corner>>)
    requires c.Valid() && Sane(rects[..])
    modifies rects, c.nodes, c`activeHead, c`freeHead, c`active, c`free, c`placed, c`sky
    ensures c.Valid() && Permutation(p, rects.Length)
    ensures |sorted| == |slots| == rects.Length && Sorted(ByHeight, sorted) && Sane(sorted)
    ensures forall i :: 0 <= i < rects.Length ==> sorted[i] == old(rects[..])[p[i]].(wasPacked := p[i])
    ensures Progress(old(WorldOf(c)), WorldOf(c), sorted, rects[..], slots)
    ensures Trail(RulesOf(c), skies, sorted, rects[..])
    ensures |skies| == rects.Length + 1 && skies[0] == old(c.sky) && skies[rects.Length] == c.sky
  {
    ghost var v, ins := WorldOf(c), rects[..];
    p := Arrange(rects);
    sorted := rects[..];
    assert forall i :: 0 <= i < |sorted| ==> sorted[i] == ins[p[i]].(wasPacked := p[i]);
    assert WorldOf(c) == v;
    slots, skies := PackSorted(c, rects);
  }

  /** Tags every rectangle with its place and sorts by height. */
  method Arrange(rects: array<Rect>) returns (ghost p: seq<int>)
    modifies rects
    ensures Permutation(p, rects.Length)
    ensures forall i :: 0 <= i < rects.Length ==> rects[i] == old(rects[..])[p[i]].(wasPacked := p[i])
    ensures Sorted(ByHeight, rects[..])
  {
    Tag(rects);
    p := Sort(rects, ByHeight);
  }

  /** Sorts back by tag, then turns the tags into flags. */
  method Restore(rects: array<Rect>, ghost p: seq<int>) returns (allPacked: bool, ghost last: seq<Rect>, ghost q: seq<int>)
    requires Permutation(p, rects.Length)
    requires forall i :: 0 <= i < rects.Length ==> rects[i].wasPacked == p[i]
    modifies rects
    ensures Rearranged(last, old(rects[..]), q)
    ensures forall i :: 0 <= i < |q| ==> p[q[i]] == i
    ensures forall i :: 0 <= i < rects.Length ==>
              rects[i] == last[i].(wasPacked := if GivenUp(last[i]) then 0 else 1)
    ensures allPacked <==> forall i :: 0 <= i < rects.Length ==> rects[i].wasPacked == 1
  {
    q := Sort(rects, Original);
    last := rects[..];
    UnsortRestores(p, old(rects[..]), last, q);
    allPacked := SetFlags(rects);
  }

  /** The rectangle given back at place i is the one that was dealt with at place q[i]. */
  ghost predicate Settled(v0: World, v: World, ins: seq<Rect>, rs: seq<Rect>, slot: seq<int>)
    requires v0.Ok() && v.Ok()
  {
    && v0.GrowsTo(v) && |rs| == |ins| == |slot|
    && (forall i :: 0 <= i < |rs| ==> rs[i].id == ins[i].id && rs[i].w == ins[i].w && rs[i].h == ins[i].h)
    && (forall i :: 0 <= i < |rs| ==> rs[i].wasPacked == if GivenUp(rs[i]) then 0 else 1)
    && (forall i :: 0 <= i < |rs| ==> Outcome(v, rs[i], slot[i]))
    && (forall i, j :: 0 <= i < j < |rs| && slot[i] >= 0 ==> slot[i] != slot[j])
    && (forall i :: 0 <= i < |rs| ==> slot[i] == -1 || |v0.placed| <= slot[i] < |v.placed|)
    && (forall n :: |v0.placed| <= n < |v.placed| ==> n in slot)
  }

  /** The rectangles that take up space are those with a slot, and have the boxes there. */
  ghost predicate InSlots(v: World, rs: seq<Rect>, slot: seq<int>) {
    && |rs| == |slot|
    && (forall i :: 0 <= i < |rs| ==> (Occupies(rs[i]) <==> slot[i] >= 0))
    && (forall i :: 0 <= i < |rs| && slot[i] >= 0 ==> slot[i] < |v.placed| && BoxOf(rs[i]) == v.placed[slot[i]])
  }

  lemma {:induction false} SettledInSlots(v0: World, v: World, ins: seq<Rect>, rs: seq<Rect>, slot: seq<int>)
    requires v0.Ok() && v.Ok() && Settled(v0, v, ins, rs, slot)
    ensures InSlots(v, rs, slot)
  {
    forall i | 0 <= i < |rs|
      ensures Occupies(rs[i]) <==> slot[i] >= 0
      ensures slot[i] >= 0 ==> slot[i] < |v.placed| && BoxOf(rs[i]) == v.placed[slot[i]]
    {
      assert Outcome(v, rs[i], slot[i]);
    }
  }

  lemma {:induction false} SlotsTaken(v: World, rs: seq<Rect>, slot: seq<int>, n: int)
    requires InSlots(v, rs, slot) && 0 <= n < |v.placed| && n in slot
    ensures TakesUp(rs, v.placed[n])
  {
    var k :| 0 <= k < |slot| && slot[k] == n;
    assert Occupies(rs[k]) && BoxOf(rs[k]) == v.placed[n];
  }

  lemma {:induction false} SlotsApart(v0: World, v: World, rs: seq<Rect>, slot: seq<int>)
    requires v0.Ok() && v.Ok() && v0.placed <= v.placed && InSlots(v, rs, slot)
    requires forall i, j :: 0 <= i < j < |rs| && slot[i] >= 0 ==> slot[i] != slot[j]
    requires forall i :: 0 <= i < |rs| ==> slot[i] == -1 || |v0.placed| <= slot[i] < |v.placed|
    ensures forall i, j :: 0 <= i < j < |rs| && Occupies(rs[i]) && Occupies(rs[j]) ==> Disjoint(BoxOf(rs[i]), BoxOf(rs[j]))
    ensures forall i, k :: 0 <= i < |rs| && Occupies(rs[i]) && 0 <= k < |v0.placed| ==> Disjoint(v0.placed[k], BoxOf(rs[i]))
  {
    forall i, k | 0 <= i < |rs| && Occupies(rs[i]) && 0 <= k < |v0.placed|
      ensures Disjoint(v0.placed[k], BoxOf(rs[i]))
    {
      assert Disjoint(v.placed[k], v.placed[slot[i]]);
    }
    forall i, j | 0 <= i < j < |rs| && Occupies(rs[i]) && Occupies(rs[j])
      ensures Disjoint(BoxOf(rs[i]), BoxOf(rs[j]))
    {
      assert slot[i] < slot[j] ==> Disjoint(v.placed[slot[i]], v.placed[slot[j]]);
      assert slot[j] < slot[i] ==> Disjoint(v.placed[slot[j]], v.placed[slot[i]]);
    }
  }

  lemma {:induction false} SettledResult(v0: World, v: World, ins: seq<Rect>, rs: seq<Rect>, slot: seq<int>)
    requires v0.Ok() && v.Ok() && Settled(v0, v, ins, rs, slot)
    ensures Result(v0, v, ins, rs)
  {
    SettledInSlots(v0, v, ins, rs, slot);
    SlotsApart(v0, v, rs, slot);
    forall n | |v0.placed| <= n < |v.placed| ensures TakesUp(rs, v.placed[n]) {
      SlotsTaken(v, rs, slot, n);
    }
    forall i | 0 <= i < |rs| && Empty(rs[i]) ensures rs[i].wasPacked == 1 && rs[i].x == 0 && rs[i].y == 0 {
      assert Outcome(v, rs[i], slot[i]);
    }
  }

  lemma {:induction false} OneResult(v: World, given: Rect, i: int, r: Rect, packed: Rect, slot: int, last: Rect)
    requires v.Ok() && SameInput(given.(wasPacked := i), r) && SameInput(r, packed) && Outcome(v, packed, slot)
    requires last == packed.(wasPacked := if GivenUp(packed) then 0 else 1)
    ensures last.id == given.id && last.w == given.w && last.h == given.h && Outcome(v, last, slot)
  {
    assert BoxOf(last) == BoxOf(packed);
  }

  lemma {:induction false} ResultHolds(v0: World, v: World, ins: seq<Rect>, sorted: seq<Rect>, p: seq<int>, done: seq<Rect>,
                    slots: seq<int>, last: seq<Rect>, q: seq<int>, rs: seq<Rect>)
    requires v0.Ok() && v.Ok() && |sorted| == |done| == |ins| == |p| == |slots| && Sane(sorted) && NoRepeats(p)
    requires forall i :: 0 <= i < |p| ==> 0 <= p[i] < |ins| && SameInput(ins[p[i]].(wasPacked := p[i]), sorted[i])
    requires Progress(v0, v, sorted, done, slots)
    requires Rearranged(last, done, q) && |rs| == |last|
    requires forall i :: 0 <= i < |q| ==> p[q[i]] == i
    requires forall i :: 0 <= i < |rs| ==> rs[i] == last[i].(wasPacked := if GivenUp(last[i]) then 0 else 1)
    ensures Result(v0, v, ins, rs)
  {
    var slot := seq(|rs|, i requires 0 <= i < |rs| => slots[q[i]]);
    forall i | 0 <= i < |rs|
      ensures rs[i].id == ins[i].id && rs[i].w == ins[i].w && rs[i].h == ins[i].h
      ensures Outcome(v, rs[i], slot[i])
    {
      assert SameInput(sorted[q[i]], done[q[i]]) && Outcome(v, done[q[i]], slots[q[i]]);
      OneResult(v, ins[i], i, sorted[q[i]], done[q[i]], slots[q[i]], rs[i]);
    }
    forall n | |v0.placed| <= n < |v.placed|
      ensures n in slot
    {
      assert n in slots;
      var k :| 0 <= k < |slots| && slots[k] == n;
      assert p[q[p[k]]] == p[k];
      assert slot[p[k]] == n;
    }
    SettledResult(v0, v, ins, rs, slot);
  }

  method Tag(rects: array<Rect>)
    modifies rects
    ensures forall i :: 0 <= i < rects.Length ==> rects[i] == old(rects[i]).(wasPacked := i)
  {
    var i := 0;
    while i < rects.Length
      invariant 0 <= i <= rects.Length
      invariant forall k :: 0 <= k < rects.Length ==>
                  rects[k] == if k < i then old(rects[k]).(wasPacked := k) else old(rects[k])
    {
      rects[i] := rects[i].(wasPacked := i);
      i := i + 1;
    }
  }

  method SetFlags(rects: array<Rect>) returns (allPacked: bool)
    modifies rects
    ensures forall i :: 0 <= i < rects.Length ==>
              rects[i] == old(rects[i]).(wasPacked := if GivenUp(old(rects[i])) then 0 else 1)
    ensures allPacked <==> forall i :: 0 <= i < rects.Length ==> rects[i].wasPacked == 1
  {
    allPacked := true;
    var i := 0;
    while i < rects.Length
      invariant 0 <= i <= rects.Length
      invariant forall k :: 0 <= k < rects.Length ==>
                  rects[k] == if k >= i then old(rects[k])
                              else old(rects[k]).(wasPacked := if GivenUp(old(rects[k])) then 0 else 1)
      invariant allPacked <==> forall k :: 0 <= k < i ==> rects[k].wasPacked == 1
    {
      var packed := !GivenUp(rects[i]);
      rects[i] := rects[i].(wasPacked := if packed then 1 else 0);
      if !packed {
        allPacked := false;
      }
      i := i + 1;
    }
  }
}
