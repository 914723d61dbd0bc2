/** The header promises that with the default setup the packer never runs out of nodes, because
    widths are quantized when there are fewer nodes than columns.  That holds with at least as many
    nodes as columns (Context.NodesSuffice), in a target without height, and in one of height 1 if a
    quantized width more than the number of nodes is wider than the target (NodesEnough).  In all
    others it fails, with either heuristic: RunOut is a run of unit squares after which a square
    that fits is refused. */
module SkylineNodes {
  import opened Skyline
  import opened SkylinePacker

  /** k unit squares side by side on the floor. */
  ghost function Row(k: nat, width: int): (s: seq<Corner>) {
    seq(k, i => Corner(i, 1)) + [Corner(k, 0), Corner(width, BIG)]
  }

  lemma {:induction false} RowEmpty(width: int)
    ensures Row(0, width) == [Corner(0, 0), Corner(width, BIG)]
  {
  }

  lemma {:induction false} RowHeights(k: nat, width: int)
    requires k < width
    ensures WellFormed(Row(k, width), width)
    ensures forall u :: 0 <= u < width ==> Height(Row(k, width), u) == if u < k then 1 else 0
  {
    var s := Row(k, width);
    assert forall i :: 0 <= i < k ==> s[i].x == i;
    forall u | 0 <= u < width
      ensures Height(s, u) == if u < k then 1 else 0
    {
      HeightAt(s, width, if u < k then u else k, u);
    }
  }

  lemma {:induction false} RowRest(k: nat, width: int, x: int, w: int)
    requires k < width && 0 <= x && 1 <= w && x + w <= width
    ensures Rest(Row(k, width), x, w) == if x < k then 1 else 0
  {
    var s := Row(k, width);
    RowHeights(k, width);
    PeakLeast(s, x, x + w, if x < k then 1 else 0);
    PeakNonNegative(s, x, x + w);
    PeakBounds(s, x, x + w, x);
  }

  /** The next free column is the only bottom-left choice. */
  lemma {:induction false} RowChoice(k: nat, width: int, w: int, x: int, y: int)
    requires 1 <= w && k + w <= width && BottomLeftmost(Row(k, width), w, x, y, width)
    ensures x == k && y == 0
  {
    RowRest(k, width, k, w);
    RowRest(k, width, x, w);
  }

  /** ... and the only choice of best fit: there no space is wasted. */
  lemma {:induction false} RowBestFit(k: nat, width: int, w: int, height: int, m: nat, x: int, y: int)
    requires 1 <= w && k + w <= width && 1 <= height && m < |Row(k, width)|
    requires BestFitChoice(Row(k, width), w, 1, width, height, m, x, y)
    ensures x == k && y == 0
  {
    var s := Row(k, width);
    RowHeights(k, width);
    RowRest(k, width, k, w);
    RowRest(k, width, x, w);
    NoWaste(k, width, w);
    WasteNonNegative(s, width, m, x, w);
    assert Candidate(s, w, k, k) && Fits(s, k, w, 1, width, height);
    assert Beats(s, w, 1, width, height, x, y, Waste(s, m, x, w), k, k);
  }

  lemma {:induction false} NoWaste(k: nat, width: int, w: int)
    requires 1 <= w && k + w <= width
    ensures Waste(Row(k, width), k, k, w) == 0
  {
    var s := Row(k, width);
    RowHeights(k, width);
    RowRest(k, width, k, w);
    SurveyExactIff(s, width, k, k, w);
    GapFlat(s, k, k, k + w, 0, 0);
  }

  lemma {:induction false} WasteNonNegative(s: seq<Corner>, width: int, m: nat, x: int, w: int)
    requires WellFormed(s, width) && Over(s, m, x) && 1 <= w && x + w <= width
    ensures Waste(s, m, x, w) >= 0
  {
    SurveyExactIff(s, width, m, x, w);
    GapNonNegative(s, x, x + w, x + w);
  }

  lemma {:induction false} GapNonNegative(s: seq<Corner>, lo: int, mid: int, hi: int)
    requires |s| > 0 && lo <= mid <= hi
    ensures Gap(s, lo, mid, Peak(s, lo, hi)) >= 0
    decreases mid - lo
  {
    if lo < mid {
      GapNonNegative(s, lo, mid - 1, hi);
      PeakBounds(s, lo, hi, mid - 1);
    }
  }

  lemma {:induction false} RowGrows(k: nat, width: int, s: seq<Corner>, s': seq<Corner>, x: int, y: int)
    requires k + 1 < width && s == Row(k, width) && x == k && y == 0 && Spliced(s, s', width, x, y + 1, x + 1)
    ensures s' == Row(k + 1, width)
  {
    var p: nat, c: nat :| RaiseOk(s, width, p, c, x, y + 1, x + 1) && s' == Raised(s, p, c, x, y + 1, x + 1);
    RowCut(k, width, p, c);
    RowRaised(k, width);
  }

  lemma {:induction false} RowCut(k: nat, width: int, p: nat, c: nat)
    requires k + 1 < width && RaiseOk(Row(k, width), width, p, c, k, 1, k + 1)
    ensures p == k && c == k
  {
    var s := Row(k, width);
    assert forall i :: 0 <= i <= k ==> s[i].x == i;
    assert |s| == k + 2 && s[k + 1].x == width;
    assert p > 0 ==> s[p - 1].x < k;
    assert k <= s[p].x;
  }

  lemma {:induction false} RowRaised(k: nat, width: int)
    ensures Raised(Row(k, width), k, k, k, 1, k + 1) == Row(k + 1, width)
  {
    var s, r, t := Row(k, width), Raised(Row(k, width), k, k, k, 1, k + 1), Row(k + 1, width);
    assert |r| == |t| == k + 3 && s[k] == Corner(k, 0);
    forall i | 0 <= i < |r|
      ensures r[i] == t[i]
    {
      if i < k {
        assert r[i] == s[i];
      }
    }
  }

  lemma {:induction false} RoomFor(width: int, n: int, q: int)
    requires 1 <= n < width && q >= 1 && q * n >= width && (q - 1) * n < width
    ensures q >= 2 && n - 1 + q <= width
  {
    assert q == 1 ==> q * n == n;
    var a, b := q - 2, n - 1;
    assert a * b >= 0;
    assert (a + 1) * (b + 1) == a * b + a + b + 1;
  }

  lemma {:induction false} QuantumLeavesRoom(width: int, n: int)
    requires 1 <= n < width
    ensures Quantum(width, n) >= 2 && n - 1 + Quantum(width, n) <= width
    ensures Rounded(1, Quantum(width, n)) == Quantum(width, n)
  {
    var q := Quantum(width, n);
    QuantumIs(width, n);
    RoomFor(width, n, q);
  }

  /** A target in which nodes can run out. */
  predicate TooFew(width: int, height: int, numNodes: int)
    requires 1 <= numNodes && 1 <= width
  {
    numNodes < width && (height >= 2 || (height == 1 && numNodes + Quantum(width, numNodes) <= width))
  }

  /** One more square on a row. */
  method AddSquare(c: Context, k: nat)
    requires c.Valid() && c.align == Quantum(c.width, c.numNodes)
    requires k < c.numNodes < c.width && 1 <= c.height && c.sky == Row(k, c.width)
    modifies c.nodes, c`activeHead, c`freeHead, c`active, c`free, c`placed, c`sky
    ensures c.Valid() && c.sky == Row(k + 1, c.width)
  {
    ghost var width, q, s := c.width, c.align, c.sky;
    QuantumLeavesRoom(width, c.numNodes);
    RowRest(k, width, k, q);
    assert Fits(s, k, q, 1, width, Reach(c.height, 1));
    assert |s| == k + 2;
    var ok, x, y := c.PackRectangle(1, 1);
    RowChosen(c.heuristic, k, width, s, q, c.height, x, y);
    RowGrows(k, width, s, c.sky, x, y);
  }

  lemma {:induction false} RowChosen(hr: Heuristic, k: nat, width: int, s: seq<Corner>, w: int, height: int, x: int, y: int)
    requires 1 <= w && k + w <= width && 1 <= height && s == Row(k, width) && Chosen(hr, s, w, 1, width, height, x, y)
    ensures x == k && y == 0
  {
    match hr
    case BottomLeft => RowChoice(k, width, w, x, y);
    case BestFit =>
      var m: nat :| m < |Row(k, width)| && BestFitChoice(Row(k, width), w, 1, width, height, m, x, y);
      RowBestFit(k, width, w, height, m, x, y);
  }

  /** As many unit squares as there are nodes use them all up, and the next one, which still fits, cannot be
      placed. */
  method FillRow(c: Context) returns (x: int)
    requires c.Valid() && c.align == Quantum(c.width, c.numNodes)
    requires TooFew(c.width, c.height, c.numNodes) && c.sky == Row(0, c.width)
    modifies c.nodes, c`activeHead, c`freeHead, c`active, c`free, c`placed, c`sky
    ensures c.Valid() && c.free == [] && Fits(c.sky, x, Rounded(1, c.align), 1, c.width, c.height)
    ensures c.align == old(c.align) && c.heuristic == old(c.heuristic)
  {
    var k := 0;
    while k < c.numNodes
      invariant 0 <= k <= c.numNodes && c.Valid() && c.sky == Row(k, c.width)
    {
      AddSquare(c, k);
      k := k + 1;
    }
    x := if c.height >= 2 then 0 else k;
    ghost var width, numNodes, align := c.width, c.numNodes, c.align;
    QuantumLeavesRoom(width, numNodes);
    RowRest(k, width, x, align);
    assert |Row(k, width)| == numNodes + 2;
  }

  method SetUp(width: int, height: int, numNodes: int, hr: Heuristic) returns (c: Context)
    requires 1 <= numNodes && 1 <= width <= MAXVAL && 0 <= height
    ensures c.Valid() && fresh(c) && fresh(c.nodes) && c.sky == Row(0, width)
    ensures c.width == width && c.height == height && c.numNodes == numNodes && c.heuristic == hr
    ensures c.align == Quantum(width, numNodes)
  {
    c := new Context(width, height, numNodes);
    RowEmpty(width);
    c.SetupHeuristic(hr);
  }

  method RunOut(width: int, height: int, numNodes: int, hr: Heuristic) returns (c: Context, x: int)
    requires 1 <= numNodes && 1 <= width <= MAXVAL && TooFew(width, height, numNodes)
    ensures c.Valid() && c.width == width && c.height == height && c.numNodes == numNodes && c.heuristic == hr
    ensures c.align == Quantum(width, numNodes)
    ensures c.free == [] && Fits(c.sky, x, Rounded(1, c.align), 1, width, height)
  {
    c := SetUp(width, height, numNodes, hr);
    x := FillRow(c);
  }

  // ----- the other targets

  ghost function Columns(bs: seq<Box>): set<int> {
    set i | 0 <= i < |bs| :: bs[i].x
  }

  ghost function Range(a: int, b: int): (r: set<int>)
    requires a <= b
    ensures |r| == b - a && forall u :: u in r <==> a <= u < b
    decreases b - a
  {
    if a == b then {} else Range(a, b - 1) + {b - 1}
  }

  lemma {:induction false} SubsetSize<T>(a: set<T>, b: set<T>)
    requires a <= b
    ensures |a| <= |b|
  {
    assert b == a + (b - a);
  }

  lemma {:induction false} DistinctColumns(bs: seq<Box>)
    requires forall i, j :: 0 <= i < j < |bs| ==> bs[i].x != bs[j].x
    ensures |Columns(bs)| == |bs|
    decreases |bs|
  {
    if bs != [] {
      var n := |bs| - 1;
      var rest := bs[..n];
      DistinctColumns(rest);
      assert forall i :: 0 <= i < n ==> rest[i].x == bs[i].x;
      assert Columns(bs) == Columns(rest) + {bs[n].x};
    }
  }

  /** On a single row, boxes leave no more columns free than are left. */
  lemma {:induction false} BoxesBeside(bs: seq<Box>, s: seq<Corner>, width: int, x: int, w: int)
    requires WellFormed(s, width) && Safe(bs, s, width, 1)
    requires 0 <= x && 1 <= w && x + w <= width && Rest(s, x, w) == 0
    ensures |bs| <= width - w
  {
    forall i | 0 <= i < |bs| ensures bs[i].x in Range(0, x) + Range(x + w, width) {
      assert Under(bs[i], s);
      if x <= bs[i].x < x + w {
        PeakBounds(s, x, x + w, bs[i].x);
      }
    }
    DistinctColumns(bs);
    SubsetSize(Columns(bs), Range(0, x) + Range(x + w, width));
  }

  /** ... so there is no room for one more. */
  lemma {:induction false} RowIsFull(bs: seq<Box>, s: seq<Corner>, width: int, height: int, n: int, q: int, w: int, h: int)
    requires WellFormed(s, width) && Safe(bs, s, width, height) && 0 <= height <= 1 && h >= 1
    requires 1 <= q <= w && n <= |bs| && (height == 1 ==> n + q > width)
    ensures FitsNowhere(s, w, h, width, height)
  {
    forall x ensures !Fits(s, x, w, h, width, height) {
      PeakNonNegative(s, x, x + w);
      if Fits(s, x, w, h, width, height) {
        BoxesBeside(bs, s, width, x, w);
      }
    }
  }

  /** In a target of one row whose columns are fewer than a quantum more than the nodes, nothing fits any more
      once the nodes are used up; without height nothing ever fits. */
  lemma {:induction false} NodesEnough(c: Context, w: int, h: int)
    requires c.Valid() && w >= 1 && h >= 1 && c.align == Quantum(c.width, c.numNodes)
    requires c.free == [] && !TooFew(c.width, c.height, c.numNodes)
    ensures FitsNowhere(c.sky, Rounded(w, c.align), h, c.width, c.height)
  {
    if c.numNodes >= c.width {
      c.NodesSuffice();
    } else {
      RowIsFull(c.placed, c.sky, c.width, c.height, c.numNodes, c.align, Rounded(w, c.align), h);
    }
  }
}
