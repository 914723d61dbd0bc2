/** The skyline as a value: a sequence of corners, each giving the height of the
    profile from its own x up to the x of the next corner.  The last corner is the
    sentinel at the right edge of the target.  Everything the packer promises is
    stated over this view; the linked list that holds it is in SkylinePacker. */
module Skyline {
  import opened Basics

  datatype Corner = Corner(x: int, y: int)

  ghost predicate WellFormed(s: seq<Corner>, width: int) {
    && |s| >= 2
    && s[0].x == 0
    && s[|s| - 1].x == width
    && (forall i, j :: 0 <= i < j < |s| ==> s[i].x < s[j].x)
    && (forall i :: 0 <= i < |s| - 1 ==> 0 <= s[i].y)
  }

  ghost function HeightFrom(s: seq<Corner>, k: nat, u: int): (h: int)
    requires k < |s|
    decreases |s| - k
  {
    if k + 1 < |s| && s[k + 1].x <= u then HeightFrom(s, k + 1, u) else s[k].y
  }

  /** The height of the profile over column u. */
  ghost function Height(s: seq<Corner>, u: int): (h: int)
    requires |s| > 0
  {
    HeightFrom(s, 0, u)
  }

  /** The highest profile over columns lo .. hi-1 (heights are never negative). */
  ghost function Peak(s: seq<Corner>, lo: int, hi: int): (h: int)
    requires |s| > 0
    decreases hi - lo
  {
    if hi <= lo then 0 else Max(Peak(s, lo, hi - 1), Height(s, hi - 1))
  }

  /** The area between height y and the profile over columns lo .. hi-1. */
  ghost function Gap(s: seq<Corner>, lo: int, hi: int, y: int): (a: int)
    requires |s| > 0
    decreases hi - lo
  {
    if hi <= lo then 0 else Gap(s, lo, hi - 1, y) + (y - Height(s, hi - 1))
  }

  // ----- heights and segments

  lemma {:induction false} HeightFromSkips(s: seq<Corner>, width: int, j: nat, k: nat, u: int)
    requires WellFormed(s, width) && j <= k < |s| - 1
    requires s[k].x <= u < s[k + 1].x
    ensures HeightFrom(s, j, u) == s[k].y
    decreases k - j
  {
    if j < k {
      HeightFromSkips(s, width, j + 1, k, u);
    }
  }

  lemma {:induction false} HeightAt(s: seq<Corner>, width: int, k: nat, u: int)
    requires WellFormed(s, width) && k < |s| - 1
    requires s[k].x <= u < s[k + 1].x
    ensures Height(s, u) == s[k].y
  {
    HeightFromSkips(s, width, 0, k, u);
  }

  /** Every column of the target lies over exactly one segment. */
  lemma {:induction false} FindSegment(s: seq<Corner>, width: int, u: int) returns (k: nat)
    requires WellFormed(s, width) && 0 <= u < width
    ensures k < |s| - 1 && s[k].x <= u < s[k + 1].x && Height(s, u) == s[k].y
  {
    k := 0;
    while s[k + 1].x <= u
      invariant k < |s| - 1 && s[k].x <= u
      decreases |s| - k
    {
      k := k + 1;
    }
    HeightAt(s, width, k, u);
  }

  // ----- the peak is a maximum

  lemma {:induction false} PeakBounds(s: seq<Corner>, lo: int, hi: int, u: int)
    requires |s| > 0 && lo <= u < hi
    ensures Height(s, u) <= Peak(s, lo, hi)
    decreases hi - lo
  {
    if u < hi - 1 {
      PeakBounds(s, lo, hi - 1, u);
    }
  }

  lemma {:induction false} PeakNonNegative(s: seq<Corner>, lo: int, hi: int)
    requires |s| > 0
    ensures 0 <= Peak(s, lo, hi)
    decreases hi - lo
  {
    if lo < hi {
      PeakNonNegative(s, lo, hi - 1);
    }
  }

  /** Together with PeakBounds: the peak is the least upper bound. */
  lemma {:induction false} PeakLeast(s: seq<Corner>, lo: int, hi: int, b: int)
    requires |s| > 0 && 0 <= b
    requires forall u :: lo <= u < hi ==> Height(s, u) <= b
    ensures Peak(s, lo, hi) <= b
    decreases hi - lo
  {
    if lo < hi {
      PeakLeast(s, lo, hi - 1, b);
    }
  }

  /** Over a non-empty window of a well-formed skyline the peak is one of its heights. */
  lemma {:induction false} PeakAttained(s: seq<Corner>, width: int, lo: int, hi: int) returns (u: int)
    requires WellFormed(s, width) && 0 <= lo < hi <= width
    ensures lo <= u < hi && Height(s, u) == Peak(s, lo, hi)
    decreases hi - lo
  {
    if hi == lo + 1 {
      u := lo;
      var k := FindSegment(s, width, u);
      assert Peak(s, lo, lo) == 0;
    } else {
      u := PeakAttained(s, width, lo, hi - 1);
      if Height(s, u) < Height(s, hi - 1) {
        u := hi - 1;
      }
    }
  }

  lemma {:induction false} PeakFlat(s: seq<Corner>, lo: int, a: int, b: int, y: int)
    requires |s| > 0 && lo <= a < b
    requires forall u :: a <= u < b ==> Height(s, u) == y
    ensures Peak(s, lo, b) == Max(Peak(s, lo, a), y)
    decreases b - a
  {
    if a < b - 1 {
      PeakFlat(s, lo, a, b - 1, y);
    }
  }

  // ----- areas

  lemma {:induction false} GapFlat(s: seq<Corner>, lo: int, a: int, b: int, h: int, y: int)
    requires |s| > 0 && lo <= a <= b
    requires forall u :: a <= u < b ==> Height(s, u) == h
    ensures Gap(s, lo, b, y) == Gap(s, lo, a, y) + (b - a) * (y - h)
    decreases b - a
  {
    if a < b {
      GapFlat(s, lo, a, b - 1, h, y);
      assert (b - a) * (y - h) == (b - 1 - a) * (y - h) + (y - h);
    }
  }

  lemma {:induction false} GapRaise(s: seq<Corner>, lo: int, hi: int, y: int, y': int)
    requires |s| > 0 && lo <= hi
    ensures Gap(s, lo, hi, y') == Gap(s, lo, hi, y) + (hi - lo) * (y' - y)
    decreases hi - lo
  {
    if lo < hi {
      GapRaise(s, lo, hi - 1, y, y');
      assert (hi - lo) * (y' - y) == (hi - 1 - lo) * (y' - y) + (y' - y);
    }
  }

  // ----- surveying a window

  /** The running totals of a walk along the corners: peak, waste, visited width. */
  datatype Tally = Tally(minY: int, waste: int, visited: int)

  /** The walk passes the j-th segment under the window of width w at x0. */
  function SurveyRound(s: seq<Corner>, j: nat, x0: int, w: int, t: Tally): (r: Tally)
    requires j + 1 < |s|
  {
    if s[j].y > t.minY then
      var seen := t.visited + s[j + 1].x - (if s[j].x < x0 then x0 else s[j].x);
      Tally(s[j].y, t.waste + t.visited * (s[j].y - t.minY), seen)
    else
      var wide := s[j + 1].x - s[j].x;
      var under := if wide + t.visited > w then w - t.visited else wide;
      Tally(t.minY, t.waste + under * (t.minY - s[j].y), t.visited + under)
  }

  ghost function Survey(s: seq<Corner>, j: nat, x0: int, w: int, t: Tally): (r: Tally)
    requires j < |s|
    decreases |s| - j
  {
    if s[j].x >= x0 + w || j + 1 == |s| then t
    else Survey(s, j + 1, x0, w, SurveyRound(s, j, x0, w, t))
  }

  /** The waste reported for a window that starts at x0 over the k-th segment. */
  ghost function Waste(s: seq<Corner>, k: nat, x0: int, w: int): (a: int)
    requires k < |s|
  {
    Survey(s, k, x0, w, Tally(0, 0, 0)).waste
  }

  /** The height at which a w-wide rectangle comes to rest at column x. */
  ghost function Rest(s: seq<Corner>, x: int, w: int): (y: int)
    requires |s| > 0
  {
    Peak(s, x, x + w)
  }

  /** One more segment, covering columns v .. v'-1 of the window. */
  lemma {:induction false} SurveySegment(s: seq<Corner>, width: int, j: nat, x0: int, v: int, v': int, minY: int)
    requires WellFormed(s, width) && j + 1 < |s|
    requires x0 <= v < v' && s[j].x <= v && v' <= s[j + 1].x && minY == Peak(s, x0, v)
    ensures Peak(s, x0, v') == Max(minY, s[j].y)
    ensures Gap(s, x0, v', Max(minY, s[j].y)) == Gap(s, x0, v, minY)
              + if s[j].y > minY then (v - x0) * (s[j].y - minY) else (v' - v) * (minY - s[j].y)
  {
    var y := s[j].y;
    forall u | v <= u < v'
      ensures Height(s, u) == y
    {
      HeightAt(s, width, j, u);
    }
    PeakFlat(s, x0, v, v', y);
    if y > minY {
      GapFlat(s, x0, v, v', y, y);
      GapRaise(s, x0, v, minY, y);
    } else {
      GapFlat(s, x0, v, v', y, minY);
    }
  }

  /** The survey of the window at x0, begun on the k-th segment, has reached the j-th corner. */
  ghost predicate Surveyed(s: seq<Corner>, k: nat, j: nat, x0: int, w: int, t: Tally, exact: bool)
    requires k <= j < |s|
  {
    var v := if j == k then x0 else Min(s[j].x, x0 + w);
    && t.minY == Peak(s, x0, v)
    && (exact ==> t.waste == Gap(s, x0, v, t.minY) && (v < x0 + w ==> t.visited == v - x0))
  }

  ghost predicate StartsOver(s: seq<Corner>, width: int, k: nat, x0: int, w: int, exact: bool) {
    && WellFormed(s, width) && k + 1 < |s|
    && s[k].x <= x0 < s[k + 1].x && w >= 1 && x0 + w <= width
    && (exact ==> s[k].x == x0 || s[k].y > 0)
  }

  lemma {:induction false} SurveyRoundKeeps(s: seq<Corner>, width: int, k: nat, j: nat, x0: int, w: int, t: Tally, exact: bool)
    requires StartsOver(s, width, k, x0, w, exact) && k <= j && j + 1 < |s| && s[j].x < x0 + w
    requires Surveyed(s, k, j, x0, w, t, exact)
    ensures Surveyed(s, k, j + 1, x0, w, SurveyRound(s, j, x0, w, t), exact)
  {
    var v, v' := if j == k then x0 else Min(s[j].x, x0 + w), Min(s[j + 1].x, x0 + w);
    SurveySegment(s, width, j, x0, v, v', t.minY);
    if s[j].y <= t.minY {
      var wide := s[j + 1].x - s[j].x;
      var under := if wide + t.visited > w then w - t.visited else wide;
      assert exact ==> under == v' - v;
    }
  }

  lemma {:induction false} SurveyFrom(s: seq<Corner>, width: int, k: nat, j: nat, x0: int, w: int, t: Tally, exact: bool)
    requires StartsOver(s, width, k, x0, w, exact) && k <= j < |s|
    requires Surveyed(s, k, j, x0, w, t, exact)
    ensures var r := Survey(s, j, x0, w, t);
            && r.minY == Peak(s, x0, x0 + w)
            && (exact ==> r.waste == Gap(s, x0, x0 + w, r.minY))
    decreases |s| - j
  {
    if s[j].x < x0 + w {
      SurveyRoundKeeps(s, width, k, j, x0, w, t, exact);
      SurveyFrom(s, width, k, j + 1, x0, w, SurveyRound(s, j, x0, w, t), exact);
    }
  }

  // ----- windows that start inside a segment on the floor

  /** The columns that such a window is charged for outside of it. */
  function Excess(s: seq<Corner>, k: nat, x0: int, w: int): int
    requires k + 1 < |s|
  {
    Min(s[k + 1].x - s[k].x, w) - (s[k + 1].x - x0)
  }

  /** The j-th segment does not matter for them: it ends before the window's last `over` columns, or it is on
      the floor, or it rises above everything before it and is not the last under the window. */
  ghost predicate Harmless(s: seq<Corner>, j: nat, x0: int, w: int, over: int)
    requires j + 1 < |s|
  {
    s[j].x < x0 + w && s[j + 1].x > x0 + w - over ==>
      s[j].y == 0 || (s[j].y > Peak(s, x0, s[j].x) && s[j + 1].x < x0 + w)
  }

  ghost predicate AllHarmless(s: seq<Corner>, k: nat, j: nat, x0: int, w: int, over: int)
    requires j < |s|
  {
    forall i {:trigger Harmless(s, i, x0, w, over)} :: k < i < j ==> Harmless(s, i, x0, w, over)
  }

  /** The waste is the area under the window exactly if it starts on a corner or above the floor, or every other
      segment under it is harmless. */
  ghost predicate CountsRight(s: seq<Corner>, k: nat, x0: int, w: int)
    requires k + 1 < |s|
  {
    s[k].x == x0 || s[k].y > 0 || AllHarmless(s, k, |s| - 1, x0, w, Excess(s, k, x0, w))
  }

  /** The survey has reached the j-th corner with e columns too many; `lost` is what they have cost for good. */
  ghost predicate Overcharged(s: seq<Corner>, k: nat, j: nat, x0: int, w: int, t: Tally, e: int, lost: int, over: int)
    requires j < |s|
  {
    && k < j && s[j].x < x0 + w
    && t.minY == Peak(s, x0, s[j].x) && t.visited == s[j].x - x0 + e
    && 1 <= e <= over && (e == over || e >= x0 + w - s[j].x)
    && t.waste == Gap(s, x0, s[j].x, t.minY) + t.minY * e + lost
    && 0 <= lost && (lost == 0 <==> AllHarmless(s, k, j, x0, w, over))
  }

  ghost predicate FloorStart(s: seq<Corner>, width: int, k: nat, x0: int, w: int) {
    && WellFormed(s, width) && k + 1 < |s|
    && s[k].x < x0 < s[k + 1].x && w >= 1 && x0 + w <= width && s[k].y == 0
  }

  lemma {:induction false} OverchargedStart(s: seq<Corner>, width: int, k: nat, x0: int, w: int)
    requires FloorStart(s, width, k, x0, w) && s[k + 1].x < x0 + w
    ensures var over := Excess(s, k, x0, w);
      Overcharged(s, k, k + 1, x0, w, SurveyRound(s, k, x0, w, Tally(0, 0, 0)), over, 0, over)
  {
    assert Peak(s, x0, x0) == 0 && Gap(s, x0, x0, 0) == 0;
    SurveySegment(s, width, k, x0, x0, s[k + 1].x, 0);
  }

  /** One more segment that ends inside the window. */
  lemma {:induction false} OverchargedStep(s: seq<Corner>, width: int, k: nat, j: nat, x0: int, w: int, t: Tally,
                                           e: int, lost: int, over: int) returns (e': int, lost': int)
    requires FloorStart(s, width, k, x0, w) && j + 1 < |s| && s[j + 1].x < x0 + w
    requires Overcharged(s, k, j, x0, w, t, e, lost, over)
    ensures Overcharged(s, k, j + 1, x0, w, SurveyRound(s, j, x0, w, t), e', lost', over)
  {
    var v, v', y, m := s[j].x, s[j + 1].x, s[j].y, t.minY;
    assert 0 <= y && j + 1 < |s| - 1;
    PeakNonNegative(s, x0, v);
    SurveySegment(s, width, j, x0, v, v', m);
    if y > m {
      e', lost' := e, lost;
      RaiseCharge(v - x0, e, m, y);
    } else {
      e' := Min(e, x0 + w - v');
      lost' := lost + (e - e') * y;
      PassCharge(v' - v, e, e', m, y);
      ProductZero(e - e', y);
    }
    HarmlessStep(s, k, j, x0, w, over);
  }

  lemma {:induction false} RaiseCharge(n: int, e: int, m: int, y: int)
    ensures (n + e) * (y - m) + m * e == n * (y - m) + y * e
  {
  }

  lemma {:induction false} PassCharge(n: int, e: int, e': int, m: int, y: int)
    ensures (n + e' - e) * (m - y) + m * e == n * (m - y) + m * e' + (e - e') * y
  {
  }

  lemma {:induction false} ProductZero(a: int, b: int)
    requires 0 <= a && 0 <= b
    ensures 0 <= a * b && (a * b == 0 <==> a == 0 || b == 0)
  {
  }

  lemma {:induction false} HarmlessStep(s: seq<Corner>, k: nat, j: nat, x0: int, w: int, over: int)
    requires k < j && j + 1 < |s|
    ensures AllHarmless(s, k, j + 1, x0, w, over) <==> AllHarmless(s, k, j, x0, w, over) && Harmless(s, j, x0, w, over)
  {
  }

  /** The last segment under the window. */
  lemma {:induction false} OverchargedEnd(s: seq<Corner>, width: int, k: nat, j: nat, x0: int, w: int, t: Tally,
                                          e: int, lost: int, over: int)
    requires FloorStart(s, width, k, x0, w) && j + 1 < |s| && s[j + 1].x >= x0 + w
    requires Overcharged(s, k, j, x0, w, t, e, lost, over)
    ensures var waste, area := SurveyRound(s, j, x0, w, t).waste, Gap(s, x0, x0 + w, Rest(s, x0, w));
      waste >= area && (waste == area <==> AllHarmless(s, k, j + 1, x0, w, over))
  {
    var v, y, m := s[j].x, s[j].y, t.minY;
    PeakNonNegative(s, x0, v);
    SurveySegment(s, width, j, x0, v, x0 + w, m);
    HarmlessStep(s, k, j, x0, w, over);
    if y > m {
      RaiseCharge(v - x0, e, m, y);
      ProductZero(e, y);
    } else {
      PassCharge(x0 + w - v, e, 0, m, y);
      ProductZero(e, y);
    }
  }

  lemma {:induction false} OverchargedFrom(s: seq<Corner>, width: int, k: nat, j: nat, x0: int, w: int, t: Tally,
                                           e: int, lost: int, over: int)
    requires FloorStart(s, width, k, x0, w) && j + 1 < |s|
    requires Overcharged(s, k, j, x0, w, t, e, lost, over)
    ensures var waste, area := Survey(s, j, x0, w, t).waste, Gap(s, x0, x0 + w, Rest(s, x0, w));
      waste >= area && (waste == area <==> AllHarmless(s, k, |s| - 1, x0, w, over))
    decreases |s| - j
  {
    var r := SurveyRound(s, j, x0, w, t);
    if s[j + 1].x < x0 + w {
      var e', lost' := OverchargedStep(s, width, k, j, x0, w, t, e, lost, over);
      OverchargedFrom(s, width, k, j + 1, x0, w, r, e', lost', over);
    } else {
      OverchargedEnd(s, width, k, j, x0, w, t, e, lost, over);
      BeyondHarmless(s, width, k, j, x0, w, over);
      assert Survey(s, j + 1, x0, w, r) == r;
    }
  }

  lemma {:induction false} BeyondHarmless(s: seq<Corner>, width: int, k: nat, j: nat, x0: int, w: int, over: int)
    requires WellFormed(s, width) && j + 1 < |s| && s[j + 1].x >= x0 + w
    ensures AllHarmless(s, k, |s| - 1, x0, w, over) <==> AllHarmless(s, k, j + 1, x0, w, over)
  {
    forall i | j < i < |s| - 1 ensures Harmless(s, i, x0, w, over) {
      assert s[i].x >= s[j + 1].x;
    }
  }

  /** The survey finds the peak, and never less waste than there is area under it; and exactly that area if and
      only if the window starts on a corner or above the floor, or every other segment is harmless. */
  lemma {:induction false} SurveyExactIff(s: seq<Corner>, width: int, k: nat, x0: int, w: int)
    requires WellFormed(s, width) && k < |s| - 1
    requires s[k].x <= x0 < s[k + 1].x && w >= 1 && x0 + w <= width
    ensures Survey(s, k, x0, w, Tally(0, 0, 0)).minY == Rest(s, x0, w)
    ensures Waste(s, k, x0, w) >= Gap(s, x0, x0 + w, Rest(s, x0, w))
    ensures Waste(s, k, x0, w) == Gap(s, x0, x0 + w, Rest(s, x0, w)) <==> CountsRight(s, k, x0, w)
  {
    var exact := s[k].x == x0 || s[k].y > 0;
    SurveyFrom(s, width, k, k, x0, w, Tally(0, 0, 0), exact);
    if !exact {
      var t, over := SurveyRound(s, k, x0, w, Tally(0, 0, 0)), Excess(s, k, x0, w);
      if s[k + 1].x < x0 + w {
        OverchargedStart(s, width, k, x0, w);
        OverchargedFrom(s, width, k, k + 1, x0, w, t, over, 0, over);
      } else {
        assert Peak(s, x0, x0) == 0 && Gap(s, x0, x0, 0) == 0;
        SurveySegment(s, width, k, x0, x0, x0 + w, 0);
        BeyondHarmless(s, width, k, k, x0, w, over);
        assert Survey(s, k + 1, x0, w, t) == t;
      }
    }
  }

  /** A window that starts inside a segment on the floor is charged for columns it does not
      cover: over heights 0, 0, 1 the window of columns 1 and 2 leaves one unit of waste and
      two are reported. */
  lemma {:induction false} SurveyInexact()
    ensures var s := [Corner(0, 0), Corner(2, 1), Corner(3, 9)];
            WellFormed(s, 3) && Gap(s, 1, 3, Rest(s, 1, 2)) == 1 && Waste(s, 0, 1, 2) == 2
  {
    var s := [Corner(0, 0), Corner(2, 1), Corner(3, 9)];
    HeightAt(s, 3, 0, 1);
    HeightAt(s, 3, 1, 2);
    assert Peak(s, 1, 1) == 0 && Peak(s, 1, 2) == 0 && Peak(s, 1, 3) == 1;
    assert Gap(s, 1, 1, 1) == 0 && Gap(s, 1, 2, 1) == 1;
    assert Survey(s, 1, 1, 2, Tally(0, 0, 2)) == Survey(s, 2, 1, 2, Tally(1, 2, 3)) == Tally(1, 2, 3);
  }

  /** Sliding a window left to the corner of the segment it starts on never raises its peak. */
  lemma {:induction false} SlideLeft(s: seq<Corner>, width: int, k: nat, x: int, w: int)
    requires WellFormed(s, width) && k < |s| - 1 && w >= 1
    requires s[k].x <= x < s[k + 1].x && x + w <= width
    ensures Rest(s, s[k].x, w) <= Rest(s, x, w)
  {
    var b := Rest(s, x, w);
    PeakNonNegative(s, x, x + w);
    HeightAt(s, width, k, x);
    PeakBounds(s, x, x + w, x);
    forall u | s[k].x <= u < s[k].x + w
      ensures Height(s, u) <= b
    {
      if u < x {
        HeightAt(s, width, k, u);
      } else {
        PeakBounds(s, x, x + w, u);
      }
    }
    PeakLeast(s, s[k].x, s[k].x + w, b);
  }

  // ----- placing a rectangle

  /** The skyline after the corners from p up to (not including) c have been replaced by
      a new corner at x, and corner c has been moved right to the edge if it was left of it. */
  ghost function Raised(s: seq<Corner>, p: nat, c: nat, x: int, top: int, edge: int): (r: seq<Corner>)
    requires p <= c < |s|
  {
    s[..p] + [Corner(x, top), Corner(Max(s[c].x, edge), s[c].y)] + s[c + 1..]
  }

  /** What the list surgery of one placement has to meet. */
  ghost predicate RaiseOk(s: seq<Corner>, width: int, p: nat, c: nat, x: int, top: int, edge: int) {
    && WellFormed(s, width)
    && p <= c < |s|
    && 0 <= x < edge <= width
    && 0 <= top
    && (p == 0 ==> x == 0)
    && (p > 0 ==> s[p - 1].x < x)
    && (x <= s[p].x)
    && (c + 1 < |s| ==> edge < s[c + 1].x)
    && (c > p ==> s[c].x <= edge)
  }

  lemma {:induction false} Increasing(r: seq<Corner>)
    requires forall i :: 0 <= i < |r| - 1 ==> r[i].x < r[i + 1].x
    ensures forall i, j :: 0 <= i < j < |r| ==> r[i].x < r[j].x
  {
    forall i, j | 0 <= i < j < |r|
      ensures r[i].x < r[j].x
    {
      var k := i + 1;
      while k < j
        invariant i < k <= j && r[i].x < r[k].x
      {
        assert r[k].x < r[k + 1].x;
        k := k + 1;
      }
    }
  }

  lemma {:induction false} RaisedWellFormed(s: seq<Corner>, width: int, p: nat, c: nat, x: int, top: int, edge: int)
    requires RaiseOk(s, width, p, c, x, top, edge)
    ensures WellFormed(Raised(s, p, c, x, top, edge), width)
  {
    var r := Raised(s, p, c, x, top, edge);
    assert forall i :: p + 1 < i < |r| ==> r[i] == s[i - p - 1 + c];
    forall i | 0 <= i < |r| - 1
      ensures r[i].x < r[i + 1].x && 0 <= r[i].y
    {
    }
    Increasing(r);
    assert r[|r| - 1].x == width;
  }

  /** A placement raises exactly the columns from x to the moved corner, and no other. */
  lemma {:induction false} RaisedHeight(s: seq<Corner>, width: int, p: nat, c: nat, x: int, top: int, edge: int, u: int)
    requires RaiseOk(s, width, p, c, x, top, edge)
    requires WellFormed(Raised(s, p, c, x, top, edge), width)
    requires 0 <= u < width
    ensures Height(Raised(s, p, c, x, top, edge), u)
         == if x <= u < Max(s[c].x, edge) then top else Height(s, u)
  {
    var r := Raised(s, p, c, x, top, edge);
    var k := FindSegment(r, width, u);
    if k < p {
      RaisedBefore(s, width, p, c, x, top, edge, u, k);
    } else if k > p {
      RaisedBehind(s, width, p, c, x, top, edge, u, k);
    }
  }

  lemma {:induction false} RaisedBefore(s: seq<Corner>, width: int, p: nat, c: nat, x: int, top: int, edge: int, u: int, k: nat)
    requires RaiseOk(s, width, p, c, x, top, edge) && k < p
    requires var r := Raised(s, p, c, x, top, edge); k + 1 < |r| && r[k].x <= u < r[k + 1].x
    ensures u < x && Height(s, u) == Raised(s, p, c, x, top, edge)[k].y
  {
    var r := Raised(s, p, c, x, top, edge);
    assert r[k] == s[k];
    if k == p - 1 {
      assert r[k + 1].x == x;
    }
    HeightAt(s, width, k, u);
  }

  lemma {:induction false} RaisedBehind(s: seq<Corner>, width: int, p: nat, c: nat, x: int, top: int, edge: int, u: int, k: nat)
    requires RaiseOk(s, width, p, c, x, top, edge) && k > p
    requires var r := Raised(s, p, c, x, top, edge); k + 1 < |r| && r[k].x <= u < r[k + 1].x
    ensures u >= Max(s[c].x, edge) && Height(s, u) == Raised(s, p, c, x, top, edge)[k].y
  {
    var r, j := Raised(s, p, c, x, top, edge), k - p - 1 + c;
    assert r[k + 1] == s[j + 1];
    if k == p + 1 {
      assert r[k] == Corner(Max(s[c].x, edge), s[c].y);
    } else {
      assert r[k] == s[j];
    }
    HeightAt(s, width, j, u);
  }
}
