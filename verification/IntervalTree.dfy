/** The interval index the terminal uses for its pattern matches.  Its scalars are buffer positions:
    ordered by row, then by column, but added and halved component by component.  Plain integers
    are the positions of column 0. */
module IntervalTree {
  import opened Basics
  import opened Viewport

  const SIZE_MAX := 0xffff_ffff_ffff_ffff

  datatype Interval = Interval(start: Point, stop: Point, value: int)

  predicate Leq(p: Point, q: Point) {
    !Before(q, p)
  }

  function MinP(p: Point, q: Point): Point {
    if Before(q, p) then q else p
  }

  function MaxP(p: Point, q: Point): Point {
    if Before(p, q) then q else p
  }

  /** The constructor of Interval puts its ends in order. */
  function MakeInterval(s: Point, e: Point, v: int): (i: Interval)
    ensures Proper(i)
  {
    Interval(MinP(s, e), MaxP(s, e), v)
  }

  predicate Proper(i: Interval) {
    Leq(i.start, i.stop)
  }

  /** Integer division by two, rounding towards zero. */
  function Half(n: int): int {
    if n >= 0 then n / 2 else -((-n) / 2)
  }

  function Middle(p: Point, q: Point): Point {
    Point(Half(p.x + q.x), Half(p.y + q.y))
  }

  // ----- the tree

  datatype Tree = Null | Node(intervals: seq<Interval>, left: Tree, right: Tree, center: Point)

  /** Every interval of the tree, in the order in which an unrestricted visit meets them. */
  function All(t: Tree): (s: seq<Interval>) {
    match t
    case Null => []
    case Node(own, l, r, _) => own + All(l) + All(r)
  }

  ghost predicate SortedByStart(s: seq<Interval>) {
    forall i, j :: 0 <= i < j < |s| ==> Leq(s[i].start, s[j].start)
  }

  ghost predicate AllProper(s: seq<Interval>) {
    forall i :: i in s ==> Proper(i)
  }

  /** What the searches rely on: sorted lists, everything left of the center strictly before it and
      everything right of it strictly after. */
  ghost predicate Ordered(t: Tree) {
    match t
    case Null => true
    case Node(own, l, r, c) =>
      && SortedByStart(own)
      && (forall i :: i in All(l) ==> Before(i.stop, c))
      && (forall i :: i in All(r) ==> Before(c, i.start))
      && Ordered(l) && Ordered(r)
  }

  // ----- filters

  function Filter(s: seq<Interval>, p: Interval -> bool): (r: seq<Interval>) {
    if s == [] then [] else (if p(s[0]) then [s[0]] else []) + Filter(s[1..], p)
  }

  lemma {:induction false} FilterConcat(s: seq<Interval>, t: seq<Interval>, p: Interval -> bool)
    ensures Filter(s + t, p) == Filter(s, p) + Filter(t, p)
  {
    if s == [] {
      assert s + t == t;
    } else {
      FilterConcat(s[1..], t, p);
      assert (s + t)[0] == s[0] && (s + t)[1..] == s[1..] + t;
      JoinMore(if p(s[0]) then [s[0]] else [], Filter(s[1..], p), Filter(t, p));
    }
  }

  lemma {:induction false} FilterNothing(s: seq<Interval>, p: Interval -> bool)
    requires forall i :: i in s ==> !p(i)
    ensures Filter(s, p) == []
  {
    if s != [] {
      FilterNothing(s[1..], p);
    }
  }

  lemma {:induction false} FilterCounts(s: seq<Interval>, p: Interval -> bool, i: Interval)
    ensures multiset(Filter(s, p))[i] == if p(i) then multiset(s)[i] else 0
  {
    if s != [] {
      FilterCounts(s[1..], p, i);
      assert s == [s[0]] + s[1..];
    }
  }

  /** A filter of the same intervals in another order gives the same intervals. */
  lemma {:induction false} FilterSame(s: seq<Interval>, t: seq<Interval>, p: Interval -> bool)
    requires multiset(s) == multiset(t)
    ensures multiset(Filter(s, p)) == multiset(Filter(t, p))
  {
    forall i: Interval
      ensures multiset(Filter(s, p))[i] == multiset(Filter(t, p))[i]
    {
      FilterCounts(s, p, i);
      FilterCounts(t, p, i);
    }
  }

  lemma {:induction false} FilterIn(s: seq<Interval>, p: Interval -> bool, i: Interval)
    ensures i in Filter(s, p) <==> i in s && p(i)
  {
    if s != [] {
      FilterIn(s[1..], p, i);
    }
  }

  // ----- searching

  /** visit_near. */
  function VisitNear(t: Tree, start: Point, stop: Point): (s: seq<Interval>) {
    match t
    case Null => []
    case Node(own, l, r, c) =>
      (if own != [] && !Before(stop, own[0].start) then own else [])
      + (if l.Node? && Leq(start, c) then VisitNear(l, start, stop) else [])
      + (if r.Node? && Leq(c, stop) then VisitNear(r, start, stop) else [])
  }

  function Overlaps(start: Point, stop: Point): Interval -> bool {
    (i: Interval) => Leq(start, i.stop) && Leq(i.start, stop)
  }

  function Contained(start: Point, stop: Point): Interval -> bool {
    (i: Interval) => Leq(start, i.start) && Leq(i.stop, stop)
  }

  function FindOverlapping(t: Tree, start: Point, stop: Point): (s: seq<Interval>) {
    Filter(VisitNear(t, start, stop), Overlaps(start, stop))
  }

  function FindContained(t: Tree, start: Point, stop: Point): (s: seq<Interval>) {
    Filter(VisitNear(t, start, stop), Contained(start, stop))
  }

  /** A question whose answers all reach into [start, stop]. */
  ghost predicate Near(p: Interval -> bool, start: Point, stop: Point) {
    forall i: Interval :: Proper(i) && p(i) ==> Leq(start, i.stop) && Leq(i.start, stop)
  }

  /** No pruning test loses a match: a pruned search answers as a search of everything. */
  lemma {:induction false} NoMatchLost(t: Tree, start: Point, stop: Point, p: Interval -> bool)
    requires Ordered(t) && AllProper(All(t)) && Near(p, start, stop)
    ensures Filter(VisitNear(t, start, stop), p) == Filter(All(t), p)
  {
    match t
    case Null =>
    case Node(own, l, r, c) =>
      assert forall i :: i in All(t) <==> i in own || i in All(l) || i in All(r);
      NoMatchLost(l, start, stop, p);
      NoMatchLost(r, start, stop, p);
      var near := if own != [] && !Before(stop, own[0].start) then own else [];
      var nearL := if l.Node? && Leq(start, c) then VisitNear(l, start, stop) else [];
      var nearR := if r.Node? && Leq(c, stop) then VisitNear(r, start, stop) else [];
      if near != own {
        OwnListMisses(own, start, stop, p);
      }
      if !Leq(start, c) {
        FilterNothing(All(l), p);
      }
      if !Leq(c, stop) {
        FilterNothing(All(r), p);
      }
      FilterConcat(near, nearL, p);
      FilterConcat(near + nearL, nearR, p);
      FilterConcat(own, All(l), p);
      FilterConcat(own + All(l), All(r), p);
  }

  lemma {:induction false} OwnListMisses(own: seq<Interval>, start: Point, stop: Point, p: Interval -> bool)
    requires SortedByStart(own) && AllProper(own) && Near(p, start, stop)
    requires own != [] && Before(stop, own[0].start)
    ensures Filter(own, p) == []
  {
    forall i | i in own
      ensures !p(i)
    {
      var k :| 0 <= k < |own| && own[k] == i;
      assert k > 0 ==> Leq(own[0].start, own[k].start);
    }
    FilterNothing(own, p);
  }

  /** Both searches return exactly what a scan of the original intervals would, for every query,
      also one whose start lies after its stop. */
  lemma {:induction false} SearchesAgreeWithScan(t: Tree, ivals: seq<Interval>, start: Point, stop: Point)
    requires Ordered(t) && multiset(All(t)) == multiset(ivals) && AllProper(ivals)
    ensures multiset(FindOverlapping(t, start, stop)) == multiset(Filter(ivals, Overlaps(start, stop)))
    ensures multiset(FindContained(t, start, stop)) == multiset(Filter(ivals, Contained(start, stop)))
  {
    forall i | i in All(t)
      ensures Proper(i)
    {
      assert i in multiset(ivals);
    }
    NoMatchLost(t, start, stop, Overlaps(start, stop));
    NoMatchLost(t, start, stop, Contained(start, stop));
    FilterSame(All(t), ivals, Overlaps(start, stop));
    FilterSame(All(t), ivals, Contained(start, stop));
  }

  /** p is above q, or on the same row left of it. */
  predicate Earlier(p: Point, q: Point) {
    p.y < q.y || (p.y == q.y && p.x < q.x)
  }

  /** How often each interval is found, said in rows and columns: as often as it was given if it does not end before
      the query starts, nor starts after the query stops; or, for the other search, if it lies within the query. */
  lemma {:induction false} SearchesExact(t: Tree, ivals: seq<Interval>, start: Point, stop: Point, i: Interval)
    requires Ordered(t) && multiset(All(t)) == multiset(ivals) && AllProper(ivals)
    ensures multiset(FindOverlapping(t, start, stop))[i]
         == if !Earlier(i.stop, start) && !Earlier(stop, i.start) then multiset(ivals)[i] else 0
    ensures multiset(FindContained(t, start, stop))[i]
         == if !Earlier(i.start, start) && !Earlier(stop, i.stop) then multiset(ivals)[i] else 0
  {
    SearchesAgreeWithScan(t, ivals, start, stop);
    FilterCounts(ivals, Overlaps(start, stop), i);
    FilterCounts(ivals, Contained(start, stop), i);
  }

  /** For a query that does not start after it stops, an interval is found exactly if some position lies in both. */
  lemma {:induction false} FoundIffShared(t: Tree, ivals: seq<Interval>, start: Point, stop: Point, i: Interval)
    requires Ordered(t) && multiset(All(t)) == multiset(ivals) && AllProper(ivals)
    requires !Earlier(stop, start) && i in ivals
    ensures i in FindOverlapping(t, start, stop) <==> exists q: Point :: Shared(q, start, stop, i)
  {
    SearchesExact(t, ivals, start, stop, i);
    assert Proper(i);
    if !Earlier(i.stop, start) && !Earlier(stop, i.start) {
      assert Shared(if Earlier(i.start, start) then start else i.start, start, stop, i);
    }
  }

  ghost predicate Shared(q: Point, start: Point, stop: Point, i: Interval) {
    !Earlier(q, start) && !Earlier(stop, q) && !Earlier(q, i.start) && !Earlier(i.stop, q)
  }

  // ----- building

  /** size_t arithmetic: the counter of levels wraps below zero. */
  function Dec(depth: nat): nat {
    if depth == 0 then SIZE_MAX else depth - 1
  }

  /** The least start, as minmax_element finds it. */
  function LeastStart(s: seq<Interval>): (p: Point)
    requires s != []
    ensures (forall i :: i in s ==> Leq(p, i.start)) && exists i :: i in s && i.start == p
  {
    if |s| == 1 then assert s[0] in s; s[0].start
    else
      var rest := LeastStart(s[1..]);
      assert s == [s[0]] + s[1..] && s[0] in s;
      MinP(rest, s[0].start)
  }

  function GreatestStop(s: seq<Interval>): (p: Point)
    requires s != []
    ensures (forall i :: i in s ==> Leq(i.stop, p)) && exists i :: i in s && i.stop == p
  {
    if |s| == 1 then assert s[0] in s; s[0].stop
    else
      var rest := GreatestStop(s[1..]);
      assert s == [s[0]] + s[1..] && s[0] in s;
      MaxP(rest, s[0].stop)
  }

  /** std::sort by start: nothing is promised about the order of equal starts. */
  method SortByStart(s: seq<Interval>) returns (t: seq<Interval>)
    ensures SortedByStart(t) && multiset(t) == multiset(s)
  {
    t := [];
    var n := 0;
    while n < |s|
      invariant 0 <= n <= |s| && |t| == n
      invariant SortedByStart(t) && multiset(t) == multiset(s[..n])
    {
      var k := 0;
      while k < |t| && Leq(t[k].start, s[n].start)
        invariant 0 <= k <= |t|
        invariant forall i :: 0 <= i < k ==> Leq(t[i].start, s[n].start)
      {
        k := k + 1;
      }
      InsertSorted(t, k, s[n]);
      assert s[..n + 1] == s[..n] + [s[n]];
      t := t[..k] + [s[n]] + t[k..];
      n := n + 1;
    }
    assert s[..n] == s;
  }

  lemma {:induction false} InsertSorted(t: seq<Interval>, k: nat, x: Interval)
    requires k <= |t| && SortedByStart(t)
    requires forall i :: 0 <= i < k ==> Leq(t[i].start, x.start)
    requires k < |t| ==> Leq(x.start, t[k].start)
    ensures SortedByStart(t[..k] + [x] + t[k..])
    ensures multiset(t[..k] + [x] + t[k..]) == multiset(t) + multiset{x}
  {
    assert t == t[..k] + t[k..];
    var r := t[..k] + [x] + t[k..];
    forall i, j | 0 <= i < j < |r|
      ensures Leq(r[i].start, r[j].start)
    {
      if i == k && j > k {
        assert r[j] == t[j - 1] && Leq(t[k].start, t[j - 1].start);
      }
    }
  }

  function LeftOf(c: Point): Interval -> bool {
    (i: Interval) => Before(i.stop, c)
  }

  function RightOf(c: Point): Interval -> bool {
    (i: Interval) => !Before(i.stop, c) && Before(c, i.start)
  }

  function Across(c: Point): Interval -> bool {
    (i: Interval) => !Before(i.stop, c) && !Before(c, i.start)
  }

  /** The partition loop of the constructor. */
  method Deal(s: seq<Interval>, c: Point) returns (lefts: seq<Interval>, mids: seq<Interval>, rights: seq<Interval>)
    ensures lefts == Filter(s, LeftOf(c)) && mids == Filter(s, Across(c)) && rights == Filter(s, RightOf(c))
  {
    lefts, mids, rights := [], [], [];
    var n := 0;
    while n < |s|
      invariant 0 <= n <= |s|
      invariant lefts == Filter(s[..n], LeftOf(c)) && mids == Filter(s[..n], Across(c)) && rights == Filter(s[..n], RightOf(c))
    {
      var i := s[n];
      assert s[..n + 1] == s[..n] + [i];
      FilterPush(s[..n], i, LeftOf(c));
      FilterPush(s[..n], i, Across(c));
      FilterPush(s[..n], i, RightOf(c));
      if Before(i.stop, c) {
        lefts := lefts + [i];
      } else if Before(c, i.start) {
        rights := rights + [i];
      } else {
        mids := mids + [i];
      }
      n := n + 1;
    }
    assert s[..n] == s;
  }

  lemma {:induction false} FilterPush(s: seq<Interval>, i: Interval, p: Interval -> bool)
    ensures Filter(s + [i], p) == if p(i) then Filter(s, p) + [i] else Filter(s, p)
  {
    FilterConcat(s, [i], p);
    assert Filter([i], p) == if p(i) then [i] else [];
  }

  lemma {:induction false} FilterSorted(s: seq<Interval>, p: Interval -> bool)
    requires SortedByStart(s)
    ensures SortedByStart(Filter(s, p))
  {
    if s != [] {
      FilterSorted(s[1..], p);
      forall i | i in Filter(s[1..], p)
        ensures Leq(s[0].start, i.start)
      {
        FilterIn(s[1..], p, i);
        var k :| 1 <= k < |s| && s[k] == i;
      }
    }
  }

  /** Every interval is dealt to exactly one of the three lists. */
  lemma {:induction false} DealConserves(s: seq<Interval>, c: Point)
    ensures multiset(s) == multiset(Filter(s, Across(c))) + multiset(Filter(s, LeftOf(c))) + multiset(Filter(s, RightOf(c)))
  {
    forall i: Interval
      ensures multiset(s)[i] == multiset(Filter(s, Across(c)))[i] + multiset(Filter(s, LeftOf(c)))[i]
                                + multiset(Filter(s, RightOf(c)))[i]
    {
      FilterCounts(s, Across(c), i);
      FilterCounts(s, LeftOf(c), i);
      FilterCounts(s, RightOf(c), i);
    }
  }

  /** The tree holds what it was built from, is ordered for the searches, and has no empty subtree. */
  ghost predicate Built(t: Tree, ivals: seq<Interval>) {
    && t.Node? && Ordered(t) && multiset(All(t)) == multiset(ivals)
    && Inhabited(t.left) && Inhabited(t.right)
  }

  ghost predicate Inhabited(t: Tree) {
    t.Node? ==> All(t) != [] && Inhabited(t.left) && Inhabited(t.right)
  }

  /** A position other than the default-constructed one. */
  predicate Given(p: Point) {
    p != Point(0, 0)
  }

  /** The building constructor.  Terminates for every input, because every level uses up one of the
      counted levels; and if all centers lie between the ends, because every child is smaller. */
  method Build(ivals0: seq<Interval>, depth0: nat, minbucket: nat, maxbucket: nat, leftextent: Point, rightextent: Point)
      returns (t: Tree)
    requires depth0 <= SIZE_MAX
    requires ivals0 != [] || (minbucket >= 1 && maxbucket >= 1) || depth0 == 1
    requires Given(leftextent) || Given(rightextent) ==> SortedByStart(ivals0)
    ensures Built(t, ivals0)
    ensures ivals0 != [] ==> t.center == Middle(LeastStart(ivals0), GreatestStop(ivals0))
    ensures Levels(t) <= if depth0 == 0 then SIZE_MAX + 1 else depth0
    ensures ivals0 != [] && AllProper(ivals0) && Divisible(ivals0) ==> Levels(t) <= |ivals0|
    decreases if depth0 == 0 then SIZE_MAX + 1 else depth0, 0
  {
    var ivals, depth := ivals0, Dec(depth0);
    var center := Point(0, 0);
    if ivals != [] {
      center := Middle(LeastStart(ivals), GreatestStop(ivals));
    }
    if !Given(leftextent) && !Given(rightextent) {
      ivals := SortByStart(ivals);
    } else {
      assert SortedByStart(ivals);
    }
    assert |multiset(ivals)| == |multiset(ivals0)|;
    SameInput(ivals0, ivals);
    if depth == 0 || (|ivals| < minbucket && |ivals| < maxbucket) {
      ivals := SortByStart(ivals);
      t := Node(ivals, Null, Null, center);
      LeafBuilt(ivals, ivals0, center);
    } else {
      var leftp, rightp := leftextent, rightextent;
      if !(Given(leftextent) || Given(rightextent)) {
        leftp, rightp := ivals[0].start, GreatestStop(ivals);
      }
      t := BuildInner(ivals, depth, minbucket, maxbucket, leftp, rightp, center);
    }
  }

  lemma {:induction false} LeafBuilt(own: seq<Interval>, ivals: seq<Interval>, c: Point)
    requires SortedByStart(own) && multiset(own) == multiset(ivals)
    ensures Built(Node(own, Null, Null, c), ivals) && Levels(Node(own, Null, Null, c)) == 1
  {
    assert All(Node(own, Null, Null, c)) == own;
  }

  /** The branch that splits: deals the intervals out and builds the children. */
  method BuildInner(ivals: seq<Interval>, depth: nat, minbucket: nat, maxbucket: nat, leftp: Point, rightp: Point, center: Point)
      returns (t: Tree)
    requires SortedByStart(ivals) && 1 <= depth <= SIZE_MAX
    ensures Built(t, ivals) && t.center == center && Levels(t) <= depth + 1
    ensures ivals != [] && AllProper(ivals) && Divisible(ivals) && CenterOf(ivals, center) ==> Levels(t) <= |ivals|
    decreases depth, 2
  {
    var lefts, mids, rights := Deal(ivals, center);
    PartsDivisible(ivals, center);
    PartsSorted(ivals, center);
    var left := BuildChild(lefts, depth, minbucket, maxbucket, leftp, center);
    var right := BuildChild(rights, depth, minbucket, maxbucket, center, rightp);
    t := Node(mids, left, right, center);
    assert Levels(t) <= 1 + Max(Levels(left), Levels(right));
    NodeBuilt(ivals, center, mids, left, right);
  }

  lemma {:induction false} PartsSorted(s: seq<Interval>, c: Point)
    requires SortedByStart(s)
    ensures SortedByStart(Filter(s, LeftOf(c))) && SortedByStart(Filter(s, RightOf(c))) && SortedByStart(Filter(s, Across(c)))
  {
    FilterSorted(s, LeftOf(c));
    FilterSorted(s, RightOf(c));
    FilterSorted(s, Across(c));
  }

  /** The child for one part, if there is anything in it. */
  method BuildChild(part: seq<Interval>, depth: nat, minbucket: nat, maxbucket: nat, leftp: Point, rightp: Point)
      returns (t: Tree)
    requires SortedByStart(part) && 1 <= depth <= SIZE_MAX
    ensures BuiltFrom(t, part) && Levels(t) <= depth
    ensures AllProper(part) && Divisible(part) ==> Levels(t) <= |part|
    decreases depth, 1
  {
    t := Null;
    if part != [] {
      t := Build(part, depth, minbucket, maxbucket, leftp, rightp);
    }
  }

  ghost predicate CenterOf(s: seq<Interval>, c: Point)
    requires s != []
  {
    c == Middle(LeastStart(s), GreatestStop(s))
  }

  /** The middle of every start and every later stop lies between them. */
  ghost predicate Divisible(s: seq<Interval>) {
    forall i, j :: i in s && j in s && Leq(i.start, j.stop) ==> Between(i.start, j.stop)
  }

  predicate Between(s: Point, g: Point) {
    Leq(s, Middle(s, g)) && Leq(Middle(s, g), g)
  }

  /** Sorting changes neither the ends nor what holds of all intervals. */
  lemma {:induction false} SameInput(a: seq<Interval>, b: seq<Interval>)
    requires multiset(a) == multiset(b)
    ensures |a| == |b| && (AllProper(a) <==> AllProper(b)) && (Divisible(a) <==> Divisible(b))
    ensures a != [] ==> LeastStart(a) == LeastStart(b) && GreatestStop(a) == GreatestStop(b)
  {
    assert |multiset(a)| == |a| && |multiset(b)| == |b|;
    forall i ensures i in a <==> i in b {
      assert i in multiset(a) <==> i in multiset(b);
    }
    if a != [] {
      assert a[0] in b;
      EndsWithin(a, b);
      EndsWithin(b, a);
    }
  }

  lemma {:induction false} EndsWithin(a: seq<Interval>, b: seq<Interval>)
    requires a != [] && b != [] && forall i :: i in a ==> i in b
    ensures Leq(LeastStart(b), LeastStart(a)) && Leq(GreatestStop(a), GreatestStop(b))
  {
    var p, q := LeastStart(a), GreatestStop(a);
    assert exists i :: i in a && i.start == p;
    var i :| i in a && i.start == p;
    var k :| k in a && k.stop == q;
    assert i in b && k in b;
  }

  /** The parts that go to the children are smaller, and can be split in turn. */
  lemma {:induction false} PartsDivisible(s: seq<Interval>, c: Point)
    ensures s != [] && AllProper(s) && Divisible(s) && CenterOf(s, c) ==>
      && |Filter(s, LeftOf(c))| < |s| && |Filter(s, RightOf(c))| < |s|
      && AllProper(Filter(s, LeftOf(c))) && Divisible(Filter(s, LeftOf(c)))
      && AllProper(Filter(s, RightOf(c))) && Divisible(Filter(s, RightOf(c)))
  {
    if s != [] && AllProper(s) && Divisible(s) && CenterOf(s, c) {
      var i :| i in s && i.start == LeastStart(s);
      var j :| j in s && j.stop == GreatestStop(s);
      assert Leq(i.start, i.stop) && Leq(i.stop, j.stop);
      assert Between(i.start, j.stop);
      ChildrenSmallerIff(s, c);
      PartDivisible(s, LeftOf(c));
      PartDivisible(s, RightOf(c));
    }
  }

  lemma {:induction false} PartDivisible(s: seq<Interval>, p: Interval -> bool)
    requires AllProper(s) && Divisible(s)
    ensures AllProper(Filter(s, p)) && Divisible(Filter(s, p))
  {
    forall i | i in Filter(s, p) ensures i in s {
      FilterIn(s, p, i);
    }
  }

  /** Integers can always be split. */
  lemma {:induction false} IntegersDivisible(s: seq<Interval>)
    requires forall i :: i in s ==> i.start.x == 0 && i.stop.x == 0
    ensures Divisible(s)
  {
    forall i, j | i in s && j in s && Leq(i.start, j.stop) ensures Between(i.start, j.stop) {
      MiddleBetweenIntegers(i.start, j.stop);
    }
  }

  /** Buffer positions exactly if no interval stops on the row below another one's start, and left of it. */
  lemma {:induction false} PositionsDivisibleIff(s: seq<Interval>)
    requires forall i :: i in s ==> i.start.x >= 0 && i.start.y >= 0 && i.stop.x >= 0 && i.stop.y >= 0
    ensures Divisible(s) <==> forall i, j :: i in s && j in s ==> !(j.stop.y == i.start.y + 1 && j.stop.x < i.start.x)
  {
    forall i, j | i in s && j in s && Leq(i.start, j.stop)
      ensures Between(i.start, j.stop) <==> !(j.stop.y == i.start.y + 1 && j.stop.x < i.start.x)
    {
      MiddleBetweenIff(i.start, j.stop);
    }
  }

  function Levels(t: Tree): nat {
    if t.Null? then 0 else 1 + (if Levels(t.left) > Levels(t.right) then Levels(t.left) else Levels(t.right))
  }

  /** A subtree built from the intervals a filter lets through, or none if there are none. */
  ghost predicate BuiltFrom(t: Tree, ivals: seq<Interval>) {
    if ivals == [] then t == Null else Built(t, ivals)
  }

  lemma {:induction false} BuiltFromIn(t: Tree, ivals: seq<Interval>, p: Interval -> bool)
    requires BuiltFrom(t, Filter(ivals, p))
    ensures multiset(All(t)) == multiset(Filter(ivals, p)) && Ordered(t) && Inhabited(t)
    ensures forall i :: i in All(t) ==> p(i)
  {
    var f := Filter(ivals, p);
    if f != [] {
      assert f[0] in multiset(f);
      assert f[0] in multiset(All(t));
    }
    forall i | i in All(t)
      ensures p(i)
    {
      assert i in multiset(All(t));
      assert i in f;
      FilterIn(ivals, p, i);
    }
  }

  lemma {:induction false} NodeBuilt(ivals: seq<Interval>, c: Point, mids: seq<Interval>, left: Tree, right: Tree)
    requires SortedByStart(mids) && mids == Filter(ivals, Across(c))
    requires BuiltFrom(left, Filter(ivals, LeftOf(c))) && BuiltFrom(right, Filter(ivals, RightOf(c)))
    ensures Built(Node(mids, left, right, c), ivals)
  {
    BuiltFromIn(left, ivals, LeftOf(c));
    BuiltFromIn(right, ivals, RightOf(c));
    DealConserves(ivals, c);
    JoinedMultisets(mids, All(left), All(right));
    assert Ordered(Node(mids, left, right, c));
  }

  lemma {:induction false} JoinedMultisets(a: seq<Interval>, b: seq<Interval>, c: seq<Interval>)
    ensures multiset(a + b + c) == multiset(a) + multiset(b) + multiset(c)
  {
  }

  // ----- the size of the children

  /** The children of a node are smaller than it exactly when its center lies between its ends. */
  lemma {:induction false} ChildrenSmallerIff(s: seq<Interval>, c: Point)
    requires s != [] && AllProper(s)
    ensures (|Filter(s, LeftOf(c))| < |s| && |Filter(s, RightOf(c))| < |s|)
            <==> (Leq(LeastStart(s), c) && Leq(c, GreatestStop(s)))
  {
    FilterFull(s, LeftOf(c));
    FilterFull(s, RightOf(c));
    var a :| a in s && a.start == LeastStart(s);
    var b :| b in s && b.stop == GreatestStop(s);
    assert !LeftOf(c)(b) ==> Leq(c, GreatestStop(s));
  }

  lemma {:induction false} FilterFull(s: seq<Interval>, p: Interval -> bool)
    ensures |Filter(s, p)| <= |s|
    ensures |Filter(s, p)| == |s| <==> forall i :: i in s ==> p(i)
  {
    if s != [] {
      FilterFull(s[1..], p);
      assert s == [s[0]] + s[1..];
    }
  }

  /** For buffer positions, when the center lies between its ends: unless the intervals span two
      adjacent rows and the last of them stops left of where the first one starts. */
  lemma {:induction false} MiddleBetweenIff(s: Point, g: Point)
    requires 0 <= s.x && 0 <= s.y && 0 <= g.x && 0 <= g.y && Leq(s, g)
    ensures (Leq(s, Middle(s, g)) && Leq(Middle(s, g), g)) <==> !(g.y == s.y + 1 && g.x < s.x)
  {
  }

  /** Plain integers, of either sign: the center always lies between. */
  lemma {:induction false} MiddleBetweenIntegers(s: Point, g: Point)
    requires s.x == 0 && g.x == 0 && Leq(s, g)
    ensures Leq(s, Middle(s, g)) && Leq(Middle(s, g), g)
  {
  }

  /** A match that starts at column 10 of row 0 and stops at column 0 of row 1 is handed to the right
      child as a whole, so only the count of levels ends the descent. */
  lemma {:induction false} WrappedMatchDescends()
    ensures var i := Interval(Point(10, 0), Point(0, 1), 7);
            var s := [i];
            var c := Middle(LeastStart(s), GreatestStop(s));
            Proper(i) && c == Point(5, 0) && Filter(s, RightOf(c)) == s
  {
    var i := Interval(Point(10, 0), Point(0, 1), 7);
    var s := [i];
    assert LeastStart(s) == i.start && GreatestStop(s) == i.stop;
    assert Filter(s, RightOf(Point(5, 0))) == [i] + Filter([], RightOf(Point(5, 0)));
  }

  // ----- the tree's own check

  datatype Check = Check(ok: bool, first: Point, second: Point)

  /** is_valid, where hi and lo are what numeric_limits gives for the scalar type. */
  ghost function IsValid(t: Tree, hi: Point, lo: Point): (r: Check)
    requires t.Node?
  {
    var own := t.intervals;
    var r0 := if own == [] then Check(true, hi, lo)
              else Check(true, MinP(hi, LeastStart(own)), MinP(lo, GreatestStop(own)));
    var r1 := if t.left.Null? then r0
              else
                var v := IsValid(t.left, hi, lo);
                Check(v.ok && Before(v.second, t.center), MinP(r0.first, v.first), MinP(r0.second, v.second));
    if !r1.ok || t.right.Null? then r1.(ok := r1.ok && SortedByStart(own))
    else
      var v := IsValid(t.right, hi, lo);
      var r2 := Check(v.ok && Before(t.center, v.first), MinP(r1.first, v.first), MinP(r1.second, v.second));
      r2.(ok := r2.ok && SortedByStart(own))
  }

  ghost predicate RightCentersBelow(t: Tree, hi: Point) {
    t.Node? ==>
      && (t.right.Node? ==> Before(t.center, hi))
      && RightCentersBelow(t.left, hi) && RightCentersBelow(t.right, hi)
  }

  /** A report about the intervals s: its first part is the upper limit or one of the starts and not
      above the limit, its second is not above some stop. */
  ghost predicate Fair(r: Check, s: seq<Interval>, hi: Point) {
    && Leq(r.first, hi) && (r.first == hi || exists i :: i in s && i.start == r.first)
    && (s != [] ==> exists i :: i in s && Leq(r.second, i.stop))
  }

  lemma {:induction false} FairMerge(a: Check, s: seq<Interval>, b: Check, t: seq<Interval>, hi: Point, ok: bool)
    requires Fair(a, s, hi) && Fair(b, t, hi)
    ensures Fair(Check(ok, MinP(a.first, b.first), MinP(a.second, b.second)), s + t, hi)
  {
    assert forall i :: i in s || i in t <==> i in s + t;
  }

  lemma {:induction false} OwnFair(own: seq<Interval>, hi: Point, lo: Point)
    requires own != []
    ensures Fair(Check(true, MinP(hi, LeastStart(own)), MinP(lo, GreatestStop(own))), own, hi)
  {
    var p, q := LeastStart(own), GreatestStop(own);
    assert exists i :: i in own && i.start == p;
    var b :| b in own && b.stop == q;
  }

  /** The check accepts an ordered tree exactly when every center with something to its right lies
      below the upper limit. */
  lemma {:induction false} IsValidIff(t: Tree, hi: Point, lo: Point)
    requires t.Node? && Ordered(t) && Inhabited(t.left) && Inhabited(t.right)
    ensures IsValid(t, hi, lo).ok <==> RightCentersBelow(t, hi)
    ensures IsValid(t, hi, lo).ok ==> Fair(IsValid(t, hi, lo), All(t), hi)
  {
    var own := t.intervals;
    var r0 := if own == [] then Check(true, hi, lo)
              else Check(true, MinP(hi, LeastStart(own)), MinP(lo, GreatestStop(own)));
    if own != [] {
      OwnFair(own, hi, lo);
    }
    assert Fair(r0, own, hi);
    var r1, s1 := r0, own;
    if t.left.Node? {
      IsValidIff(t.left, hi, lo);
      var v := IsValid(t.left, hi, lo);
      r1, s1 := Check(v.ok && Before(v.second, t.center), MinP(r0.first, v.first), MinP(r0.second, v.second)), own + All(t.left);
      if v.ok {
        FairMerge(r0, own, v, All(t.left), hi, r1.ok);
        assert Before(v.second, t.center);
      }
    } else {
      assert own + All(t.left) == own;
    }
    if t.right.Node? {
      IsValidIff(t.right, hi, lo);
      var v := IsValid(t.right, hi, lo);
      if r1.ok && v.ok {
        FairMerge(r1, s1, v, All(t.right), hi, Before(t.center, v.first));
        assert Before(t.center, v.first) <==> Before(t.center, hi);
      }
    } else {
      assert s1 + All(t.right) == s1;
    }
  }

  /** With a true upper limit, as integers have, every built tree passes its own check. */
  lemma {:induction false} TrueLimitPasses(t: Tree, ivals: seq<Interval>, hi: Point, lo: Point)
    requires Built(t, ivals) && forall i :: i in ivals ==> Leq(i.start, hi)
    ensures IsValid(t, hi, lo).ok
  {
    forall i | i in All(t) ensures Leq(i.start, hi) {
      assert i in multiset(All(t));
      assert i in multiset(ivals);
    }
    CentersBelowLimit(t, hi);
    IsValidIff(t, hi, lo);
  }

  lemma {:induction false} CentersBelowLimit(t: Tree, hi: Point)
    requires t.Node? ==> Ordered(t) && Inhabited(t.left) && Inhabited(t.right)
    requires forall i :: i in All(t) ==> Leq(i.start, hi)
    ensures RightCentersBelow(t, hi)
  {
    if t.Node? {
      assert forall i :: i in All(t.left) || i in All(t.right) ==> i in All(t);
      CentersBelowLimit(t.left, hi);
      CentersBelowLimit(t.right, hi);
      if t.right.Node? {
        var i := All(t.right)[0];
        assert i in All(t.right);
      }
    }
  }

  /** numeric_limits is not specialised for buffer positions and gives the origin for both limits:
      then a tree over the buffer passes its check exactly when no node of it has a right child. */
  lemma {:induction false} PointLimitIff(t: Tree)
    requires t.Node? && Ordered(t) && Inhabited(t.left) && Inhabited(t.right) && CentersInBuffer(t)
    ensures IsValid(t, Point(0, 0), Point(0, 0)).ok <==> NoRightChild(t)
  {
    IsValidIff(t, Point(0, 0), Point(0, 0));
    NoRightChildIff(t);
  }

  ghost predicate CentersInBuffer(t: Tree) {
    t.Node? ==> t.center.x >= 0 && t.center.y >= 0 && CentersInBuffer(t.left) && CentersInBuffer(t.right)
  }

  ghost predicate NoRightChild(t: Tree) {
    t.Node? ==> t.right.Null? && NoRightChild(t.left)
  }

  lemma {:induction false} NoRightChildIff(t: Tree)
    requires CentersInBuffer(t)
    ensures RightCentersBelow(t, Point(0, 0)) <==> NoRightChild(t)
  {
    if t.Node? {
      NoRightChildIff(t.left);
    }
  }
}
