/** Laying the text of a line editor out in rows of a page. */
module CookedLayout {
  import opened Basics

  /** What the text consists of: glyphs of one or two columns, tabs, and other control characters. */
  datatype Unit = Glyph(id: int, wide: bool) | Tab | Control(ch: int)

  /** What a row shows: units with the columns they take, and blanks that fill up a row. */
  datatype Item = Shown(of: Unit, columns: nat) | Blank(columns: nat)

  /** Where the layout of a row stops, in the text and on the row; and whether the last glyph was skipped. */
  datatype Result = Result(offset: nat, column: nat, items: seq<Item>, skipped: bool)

  function Width(u: Unit): nat
    requires u.Glyph?
  {
    if u.wide then 2 else 1
  }

  /** The columns of a control character: up to the next tab stop, or as ^X. */
  function ControlWidth(u: Unit, col: nat, limit: nat): nat
    requires !u.Glyph? && col <= limit
  {
    if u.Tab? then Min(8 - col % 8, limit - col) else 2
  }

  /** The text from i up to end, laid out from a column on.  `first` tells whether i is where a run of glyphs
      starts: there a glyph that does not fit is skipped; within a run it goes to the next row. */
  function Line(text: seq<Unit>, i: nat, end: nat, col: nat, limit: nat, first: bool): Result
    requires i <= end <= |text|
    decreases end - i
  {
    if i == end || col >= limit then Result(i, col, [], false)
    else if text[i].Glyph? then
      if col + Width(text[i]) <= limit then
        Then(Shown(text[i], Width(text[i])), Line(text, i + 1, end, col + Width(text[i]), limit, false))
      else if first then Result(i + 1, col, [], true)
      else Result(i, limit, [], false)
    else
      var n := ControlWidth(text[i], col, limit);
      if col + n > limit then Result(i, limit, [Blank(limit - col)], false)
      else Then(Shown(text[i], n), Line(text, i + 1, end, col + n, limit, true))
  }

  function Then(item: Item, r: Result): Result {
    r.(items := [item] + r.items)
  }

  /** What has been shown, and what is laid out from here, are the whole. */
  ghost predicate OnTrack(goal: Result, items: seq<Item>, rest: Result) {
    && goal.offset == rest.offset && goal.column == rest.column && goal.skipped == rest.skipped
    && goal.items == items + rest.items
  }

  lemma {:induction false} OnTrackStart(goal: Result)
    ensures OnTrack(goal, [], goal)
  {
    assert [] + goal.items == goal.items;
  }

  lemma {:induction false} OnTrackStep(goal: Result, items: seq<Item>, item: Item, rest: Result)
    requires OnTrack(goal, items, Then(item, rest))
    ensures OnTrack(goal, items + [item], rest)
  {
    assert items + ([item] + rest.items) == items + [item] + rest.items;
  }

  method FindControl(text: seq<Unit>, from: nat, end: nat) returns (k: nat)
    requires from <= end <= |text|
    ensures from <= k <= end && (k < end ==> !text[k].Glyph?)
    ensures forall i :: from <= i < k ==> text[i].Glyph?
  {
    k := from;
    while k < end && text[k].Glyph?
      invariant from <= k <= end
      invariant forall i :: from <= i < k ==> text[i].Glyph?
    {
      k := k + 1;
    }
  }

  method FindPlain(text: seq<Unit>, from: nat, end: nat) returns (k: nat)
    requires from <= end <= |text|
    ensures from <= k <= end && (k < end ==> text[k].Glyph?)
    ensures forall i :: from <= i < k ==> !text[i].Glyph?
  {
    k := from;
    while k < end && !text[k].Glyph?
      invariant from <= k <= end
      invariant forall i :: from <= i < k ==> !text[i].Glyph?
    {
      k := k + 1;
    }
  }

  /** Shows as many of the glyphs up to `stop` as fit. */
  method FitText(text: seq<Unit>, from: nat, stop: nat, column0: nat, limit: nat, items0: seq<Item>,
                 ghost end: nat, ghost goal: Result)
    returns (it: nat, column: nat, items: seq<Item>)
    requires from < stop <= end <= |text| && column0 < limit
    requires forall i :: from <= i < stop ==> text[i].Glyph?
    requires OnTrack(goal, items0, Line(text, from, end, column0, limit, true))
    ensures from <= it <= stop && column <= limit
    ensures it < stop ==> column + Width(text[it]) > limit
    ensures it == from ==> column == column0 && items == items0
    ensures OnTrack(goal, items, Line(text, it, end, column, limit, it == from))
  {
    it, column, items := from, column0, items0;
    while it < stop && column + Width(text[it]) <= limit
      invariant from <= it <= stop && column <= limit
      invariant it == from ==> column == column0 && items == items0
      invariant OnTrack(goal, items, Line(text, it, end, column, limit, it == from))
    {
      var item := Shown(text[it], Width(text[it]));
      OnTrackStep(goal, items, item, Line(text, it + 1, end, column + Width(text[it]), limit, false));
      items := items + [item];
      column := column + Width(text[it]);
      it := it + 1;
    }
  }

  /** Shows the control characters up to `stop`, until the row is full. */
  method ShowControls(text: seq<Unit>, from: nat, stop: nat, column0: nat, limit: nat, items0: seq<Item>,
                      ghost end: nat, ghost goal: Result)
    returns (it: nat, column: nat, items: seq<Item>)
    requires from <= stop <= end <= |text| && column0 < limit
    requires forall i :: from <= i < stop ==> !text[i].Glyph?
    requires OnTrack(goal, items0, Line(text, from, end, column0, limit, true))
    ensures from <= it <= stop && column <= limit
    ensures if column < limit then it == stop && OnTrack(goal, items, Line(text, it, end, column, limit, true))
            else goal == Result(it, column, items, false)
  {
    it, column, items := from, column0, items0;
    while it < stop
      invariant from <= it <= stop && column < limit
      invariant OnTrack(goal, items, Line(text, it, end, column, limit, true))
    {
      var len := if text[it].Tab? then Min(8 - column % 8, limit - column) else 2;
      if column + len > limit {
        items := items + [Blank(limit - column)];
        column := limit;
        return;
      }
      OnTrackStep(goal, items, Shown(text[it], len), Line(text, it + 1, end, column + len, limit, true));
      items := items + [Shown(text[it], len)];
      column := column + len;
      it := it + 1;
      if column >= limit {
        assert items + [] == items;
        return;
      }
    }
  }

  /** _layoutLine. */
  method LayoutLine(text: seq<Unit>, inputOffset: nat, end: nat, columnBegin: nat, limit: nat)
    returns (offset: nat, column: nat, items: seq<Item>, ghost skipped: bool)
    requires inputOffset <= end <= |text|
    ensures offset == Line(text, inputOffset, end, Min(columnBegin, limit), limit, true).offset
    ensures column == Line(text, inputOffset, end, Min(columnBegin, limit), limit, true).column
    ensures items == Line(text, inputOffset, end, Min(columnBegin, limit), limit, true).items
    ensures skipped == Line(text, inputOffset, end, Min(columnBegin, limit), limit, true).skipped
  {
    var it := inputOffset;
    column, items, skipped := Min(columnBegin, limit), [], false;
    ghost var goal := Line(text, it, end, column, limit, true);
    OnTrackStart(goal);
    while it != end && column < limit
      invariant inputOffset <= it <= end && column <= limit && !skipped
      invariant OnTrack(goal, items, Line(text, it, end, column, limit, true))
      decreases end - it
    {
      var nextControl := FindControl(text, it, end);
      if it != nextControl {
        var beg := it;
        it, column, items := FitText(text, it, nextControl, column, limit, items, end, goal);
        assert items + [] == items;
        if it == beg {
          return it + 1, column, items, true;
        }
        if it != nextControl {
          return it, limit, items, false;
        }
        if column >= limit {
          break;
        }
        assert Line(text, it, end, column, limit, false) == Line(text, it, end, column, limit, true);
      }
      var nextPlain := FindPlain(text, it, end);
      it, column, items := ShowControls(text, it, nextPlain, column, limit, items, end, goal);
      if column >= limit {
        return it, column, items, false;
      }
    }
    assert items + [] == items;
    offset := it;
  }

  // ----- one row

  function Units(items: seq<Item>): seq<Unit> {
    if items == [] then []
    else (if items[0].Shown? then [items[0].of] else []) + Units(items[1..])
  }

  function Columns(items: seq<Item>): nat {
    if items == [] then 0 else items[0].columns + Columns(items[1..])
  }

  function Next(u: Unit, col: nat, limit: nat): nat
    requires col <= limit
  {
    col + if u.Glyph? then Width(u) else ControlWidth(u, col, limit)
  }

  lemma {:induction false} LineStep(text: seq<Unit>, i: nat, end: nat, col: nat, limit: nat, first: bool)
    requires i < end <= |text| && col < limit && Next(text[i], col, limit) <= limit
    ensures var c := Next(text[i], col, limit);
      Line(text, i, end, col, limit, first) == Then(Shown(text[i], c - col), Line(text, i + 1, end, c, limit, !text[i].Glyph?))
  {
  }

  /** A row never gets wider than the page, and is full unless the text ends; only a wide glyph before the last
      column is skipped. */
  lemma {:induction false} LineBounds(text: seq<Unit>, i: nat, end: nat, col: nat, limit: nat, first: bool)
    requires i <= end <= |text| && col <= limit
    ensures var r := Line(text, i, end, col, limit, first);
      && i <= r.offset <= end && col <= r.column <= limit
      && (r.skipped ==> i < r.offset && text[r.offset - 1].Glyph? && text[r.offset - 1].wide && r.column + 1 == limit)
      && (r.offset < end && !r.skipped ==> r.column == limit)
    decreases end - i
  {
    if i < end && col < limit && Next(text[i], col, limit) <= limit {
      LineStep(text, i, end, col, limit, first);
      LineBounds(text, i + 1, end, Next(text[i], col, limit), limit, !text[i].Glyph?);
    }
  }

  /** The first position that a row does not show. */
  function Stop(r: Result): int {
    if r.skipped then r.offset - 1 else r.offset
  }

  /** A row shows exactly the text up to where it stops, but for a skipped glyph. */
  lemma {:induction false} LineShows(text: seq<Unit>, i: nat, end: nat, col: nat, limit: nat, first: bool)
    requires i <= end <= |text| && col <= limit
    ensures var r := Line(text, i, end, col, limit, first);
      i <= Stop(r) <= |text| && Units(r.items) == text[i..Stop(r)]
    decreases end - i
  {
    if i < end && col < limit && Next(text[i], col, limit) <= limit {
      var c := Next(text[i], col, limit);
      LineStep(text, i, end, col, limit, first);
      LineShows(text, i + 1, end, c, limit, !text[i].Glyph?);
      ShowsMore(text, i, Shown(text[i], c - col), Line(text, i + 1, end, c, limit, !text[i].Glyph?));
    } else {
      assert text[i..i] == [];
      UnitsCons(Blank(limit - col), []);
    }
  }

  lemma {:induction false} ShowsMore(text: seq<Unit>, i: nat, item: Item, r: Result)
    requires i + 1 <= Stop(r) <= |text| && Units(r.items) == text[i + 1..Stop(r)] && item.Shown? && item.of == text[i]
    ensures Stop(Then(item, r)) == Stop(r) && Units(Then(item, r).items) == text[i..Stop(r)]
  {
    UnitsCons(item, r.items);
    assert [text[i]] + text[i + 1..Stop(r)] == text[i..Stop(r)];
  }

  lemma {:induction false} UnitsCons(item: Item, items: seq<Item>)
    ensures Units([item] + items) == (if item.Shown? then [item.of] else []) + Units(items)
  {
    assert ([item] + items)[1..] == items;
  }

  /** The column is at least as far as what is shown goes. */
  lemma {:induction false} LineColumns(text: seq<Unit>, i: nat, end: nat, col: nat, limit: nat, first: bool)
    requires i <= end <= |text| && col <= limit
    ensures var r := Line(text, i, end, col, limit, first); col + Columns(r.items) <= r.column <= limit
    decreases end - i
  {
    var r := Line(text, i, end, col, limit, first);
    if i < end && col < limit {
      var c := Next(text[i], col, limit);
      if c <= limit {
        LineStep(text, i, end, col, limit, first);
        LineColumns(text, i + 1, end, c, limit, !text[i].Glyph?);
        assert r.items[1..] == Line(text, i + 1, end, c, limit, !text[i].Glyph?).items;
      } else if !text[i].Glyph? {
        assert r.items[1..] == [];
      }
    }
  }

  /** A fresh row takes something in, exactly if it has two columns or need not show ^X. */
  lemma {:induction false} FreshRowIff(text: seq<Unit>, i: nat, end: nat, limit: nat)
    requires i < end <= |text| && limit > 0
    ensures Line(text, i, end, 0, limit, true).offset > i <==> limit >= 2 || !text[i].Control?
  {
    var n := Next(text[i], 0, limit);
    if n <= limit {
      LineBounds(text, i + 1, end, n, limit, !text[i].Glyph?);
    }
  }

  // ----- the loop over the text

  /** One turn of the loop: a row that is full is followed by a fresh one. */
  function Turn(text: seq<Unit>, i: nat, end: nat, col: nat, limit: nat): (nat, nat)
    requires i <= end <= |text|
  {
    var r := Line(text, i, end, if col >= limit then 0 else col, limit, true);
    (r.offset, r.column)
  }

  ghost predicate NoControl(text: seq<Unit>, i: nat, end: nat)
    requires i <= end <= |text|
  {
    forall k :: i <= k < end ==> !text[k].Control?
  }

  /** Where the text is at after n turns. */
  ghost function Turns(text: seq<Unit>, i: nat, end: nat, col: nat, limit: nat, n: nat): nat
    requires i <= end <= |text|
    decreases n
  {
    if n == 0 || i == end then i
    else
      var (i', col') := Turn(text, i, end, col, limit);
      LineBounds(text, i, end, if col >= limit then 0 else col, limit, true);
      Turns(text, i', end, col', limit, n - 1)
  }

  /** The loop ends exactly if rows have at least two columns, or there is no control character to show as ^X. */
  lemma {:induction false} LoopEndsIff(text: seq<Unit>, i: nat, end: nat, col: nat, limit: nat)
    requires i <= end <= |text| && limit > 0
    ensures (exists n: nat :: Turns(text, i, end, col, limit, n) == end) <==> limit >= 2 || NoControl(text, i, end)
  {
    if limit >= 2 || NoControl(text, i, end) {
      var n := LoopEnds(text, i, end, col, limit);
    } else {
      forall n: nat ensures Turns(text, i, end, col, limit, n) != end {
        LoopStays(text, i, end, col, n);
      }
    }
  }

  /** Remaining text, and then whether the row is fresh, go down with every turn. */
  lemma {:induction false} LoopEnds(text: seq<Unit>, i: nat, end: nat, col: nat, limit: nat) returns (n: nat)
    requires i <= end <= |text| && limit > 0 && (limit >= 2 || NoControl(text, i, end))
    ensures Turns(text, i, end, col, limit, n) == end
    decreases end - i, if col >= limit then 0 else 1
  {
    if i == end {
      n := 0;
    } else {
      var c := if col >= limit then 0 else col;
      LineBounds(text, i, end, c, limit, true);
      FreshRowIff(text, i, end, limit);
      var (i', col') := Turn(text, i, end, col, limit);
      n := LoopEnds(text, i', end, col', limit);
      n := n + 1;
    }
  }

  /** With a single column, the loop never gets past a control character. */
  lemma {:induction false} LoopStays(text: seq<Unit>, i: nat, end: nat, col: nat, n: nat)
    requires i <= end <= |text| && !NoControl(text, i, end)
    ensures Turns(text, i, end, col, 1, n) != end
    decreases n
  {
    if n > 0 {
      var (i', col') := Turn(text, i, end, col, 1);
      LineBounds(text, i, end, 0, 1, true);
      NotPast(text, i, end);
      LoopStays(text, i', end, col', n - 1);
    }
  }

  lemma {:induction false} NotPast(text: seq<Unit>, i: nat, end: nat)
    requires i <= end <= |text| && !NoControl(text, i, end)
    ensures var i' := Line(text, i, end, 0, 1, true).offset; i' <= end && !NoControl(text, i', end)
  {
    var k :| i <= k < end && text[k].Control?;
    if !text[i].Control? {
      assert k > i;
      assert Line(text, i, end, 0, 1, true).offset == i + 1;
    }
  }

  // ----- rows

  datatype Row = Row(items: seq<Item>, columns: nat)

  /** The rows after one turn of the loop. */
  function Extended(rows: seq<Row>, r: Result, limit: nat): seq<Row>
    requires rows != []
  {
    var open := Opened(rows, limit);
    var n := |open| - 1;
    open[..n] + [Row(open[n].items + r.items, r.column)]
  }

  /** A full row is followed by a fresh one. */
  function Opened(rows: seq<Row>, limit: nat): (open: seq<Row>)
    requires rows != []
    ensures open != []
  {
    if rows[|rows| - 1].columns >= limit then rows + [Row([], 0)] else rows
  }

  function Column(rows: seq<Row>): nat
    requires rows != []
  {
    rows[|rows| - 1].columns
  }

  ghost predicate Ends(text: seq<Unit>, i: nat, end: nat, limit: nat) {
    i <= end <= |text| && limit > 0 && (limit >= 2 || NoControl(text, i, end))
  }

  function LineAt(text: seq<Unit>, i: nat, end: nat, rows: seq<Row>, limit: nat): Result
    requires i <= end <= |text| && rows != []
  {
    Line(text, i, end, Column(Opened(rows, limit)), limit, true)
  }

  lemma {:induction false} LineAtGoesOn(text: seq<Unit>, i: nat, end: nat, rows: seq<Row>, limit: nat)
    requires Ends(text, i, end, limit) && rows != [] && i < end
    ensures var r := LineAt(text, i, end, rows, limit);
      && i <= r.offset <= end && Ends(text, r.offset, end, limit) && r.column <= limit
      && (r.offset == i ==> r.column == limit && Column(rows) < limit)
  {
    LineBounds(text, i, end, Column(Opened(rows, limit)), limit, true);
    if Column(rows) >= limit {
      FreshRowIff(text, i, end, limit);
    }
  }

  /** The text from i up to end, laid out after the rows that there are. */
  function Lay(text: seq<Unit>, i: nat, end: nat, rows: seq<Row>, limit: nat): (all: seq<Row>)
    requires Ends(text, i, end, limit) && rows != []
    ensures all != []
    decreases end - i, if Column(rows) >= limit then 0 else 1
  {
    if i == end then rows
    else
      LineAtGoesOn(text, i, end, rows, limit);
      var r := LineAt(text, i, end, rows, limit);
      Lay(text, r.offset, end, Extended(rows, r, limit), limit)
  }

  /** ... and whether a glyph is skipped. */
  ghost predicate Skips(text: seq<Unit>, i: nat, end: nat, rows: seq<Row>, limit: nat)
    requires Ends(text, i, end, limit) && rows != []
    decreases end - i, if Column(rows) >= limit then 0 else 1
  {
    i < end &&
    (LineAtGoesOn(text, i, end, rows, limit);
     var r := LineAt(text, i, end, rows, limit);
     r.skipped || Skips(text, r.offset, end, Extended(rows, r, limit), limit))
  }

  function AllUnits(rows: seq<Row>): seq<Unit> {
    if rows == [] then [] else AllUnits(rows[..|rows| - 1]) + Units(rows[|rows| - 1].items)
  }

  lemma {:induction false} UnitsJoin(a: seq<Item>, b: seq<Item>)
    ensures Units(a + b) == Units(a) + Units(b)
    decreases |a|
  {
    if a == [] {
      assert a + b == b;
    } else {
      assert (a + b)[0] == a[0] && (a + b)[1..] == a[1..] + b;
      UnitsJoin(a[1..], b);
    }
  }

  lemma {:induction false} ExtendedUnits(rows: seq<Row>, r: Result, limit: nat)
    requires rows != []
    ensures AllUnits(Extended(rows, r, limit)) == AllUnits(rows) + Units(r.items)
  {
    var open := Opened(rows, limit);
    var n := |open| - 1;
    var after := Extended(rows, r, limit);
    assert after[..n] == open[..n];
    UnitsJoin(open[n].items, r.items);
    if open != rows {
      assert open[..n] == rows;
      assert AllUnits(open) == AllUnits(rows) + [] == AllUnits(rows);
    }
    assert AllUnits(open[..n]) + (Units(open[n].items) + Units(r.items)) == AllUnits(open[..n]) + Units(open[n].items) + Units(r.items);
  }

  lemma {:induction false} TurnShows(text: seq<Unit>, i: nat, end: nat, rows: seq<Row>, limit: nat)
    requires Ends(text, i, end, limit) && rows != [] && i < end
    ensures var r := LineAt(text, i, end, rows, limit);
      && i <= Stop(r) <= |text| && (r.skipped <==> Stop(r) != r.offset) && Stop(r) <= r.offset
      && AllUnits(Extended(rows, r, limit)) == AllUnits(rows) + text[i..Stop(r)]
  {
    var r, c := LineAt(text, i, end, rows, limit), Column(Opened(rows, limit));
    LineShows(text, i, end, c, limit, true);
    ExtendedUnits(rows, r, limit);
  }

  lemma {:induction false} LayShowsAll(text: seq<Unit>, i: nat, end: nat, rows: seq<Row>, limit: nat)
    requires Ends(text, i, end, limit) && rows != [] && !Skips(text, i, end, rows, limit)
    ensures AllUnits(Lay(text, i, end, rows, limit)) == AllUnits(rows) + text[i..end]
    decreases end - i, if Column(rows) >= limit then 0 else 1
  {
    if i == end {
      assert AllUnits(rows) + [] == AllUnits(rows);
    } else {
      LineAtGoesOn(text, i, end, rows, limit);
      TurnShows(text, i, end, rows, limit);
      var r := LineAt(text, i, end, rows, limit);
      LayShowsAll(text, r.offset, end, Extended(rows, r, limit), limit);
      JoinText(AllUnits(rows), text, i, r.offset, end);
    }
  }

  lemma {:induction false} JoinText(a: seq<Unit>, text: seq<Unit>, i: nat, k: nat, end: nat)
    requires i <= k <= end <= |text|
    ensures a + text[i..k] + text[k..end] == a + text[i..end]
  {
    assert text[i..k] + text[k..end] == text[i..end];
  }

  lemma {:induction false} LaySkipsSome(text: seq<Unit>, i: nat, end: nat, rows: seq<Row>, limit: nat)
    requires Ends(text, i, end, limit) && rows != []
    ensures |AllUnits(Lay(text, i, end, rows, limit))| + (if Skips(text, i, end, rows, limit) then 1 else 0)
         <= |AllUnits(rows)| + (end - i)
    decreases end - i, if Column(rows) >= limit then 0 else 1
  {
    if i < end {
      LineAtGoesOn(text, i, end, rows, limit);
      TurnShows(text, i, end, rows, limit);
      var r := LineAt(text, i, end, rows, limit);
      LaySkipsSome(text, r.offset, end, Extended(rows, r, limit), limit);
    }
  }

  /** A wide glyph comes to the last column of a row, where a segment begins, or after a control character, or on a
      page of one column: it is not shown. */
  ghost predicate Lost(text: seq<Unit>, i: nat, k: nat, rows: seq<Row>, limit: nat)
    requires rows != []
  {
    && Ends(text, i, k, limit) && k < |text| && text[k].Glyph? && text[k].wide
    && Column(Opened(Lay(text, i, k, rows, limit), limit)) + 1 == limit
    && (k == i || !text[k - 1].Glyph? || limit == 1)
  }

  ghost predicate Loses(text: seq<Unit>, i: nat, end: nat, rows: seq<Row>, limit: nat)
    requires rows != []
  {
    exists k :: i <= k < end && Lost(text, i, k, rows, limit)
  }

  /** All the text is shown, in order, exactly if no wide glyph comes to such a place. */
  lemma {:induction false} LayShowsIff(text: seq<Unit>, i: nat, end: nat, rows: seq<Row>, limit: nat)
    requires Ends(text, i, end, limit) && rows != []
    ensures AllUnits(Lay(text, i, end, rows, limit)) == AllUnits(rows) + text[i..end] <==> !Loses(text, i, end, rows, limit)
    ensures |AllUnits(Lay(text, i, end, rows, limit))| <= |AllUnits(rows)| + (end - i)
    ensures |AllUnits(Lay(text, i, end, rows, limit))| == |AllUnits(rows)| + (end - i) <==> !Loses(text, i, end, rows, limit)
  {
    SkipsIff(text, i, end, rows, limit);
    LaySkipsSome(text, i, end, rows, limit);
    if Skips(text, i, end, rows, limit) {
      assert |AllUnits(rows) + text[i..end]| == |AllUnits(rows)| + (end - i);
    } else {
      LayShowsAll(text, i, end, rows, limit);
    }
  }

  /** The rows are as wide as the page, the last one excepted, and none is wider. */
  ghost predicate Filled(rows: seq<Row>, limit: nat) {
    && rows != []
    && forall k :: 0 <= k < |rows| ==> rows[k].columns <= limit && (k < |rows| - 1 ==> rows[k].columns == limit)
  }

  lemma {:induction false} LayFills(text: seq<Unit>, i: nat, end: nat, rows: seq<Row>, limit: nat)
    requires Ends(text, i, end, limit) && Filled(rows, limit)
    ensures Filled(Lay(text, i, end, rows, limit), limit) && |Lay(text, i, end, rows, limit)| >= |rows|
    ensures i < end && Column(rows) == limit ==> |Lay(text, i, end, rows, limit)| > |rows|
    decreases end - i, if Column(rows) >= limit then 0 else 1
  {
    if i < end {
      LineAtGoesOn(text, i, end, rows, limit);
      var r := LineAt(text, i, end, rows, limit);
      LayFills(text, r.offset, end, Extended(rows, r, limit), limit);
    }
  }

  // ----- laying out in two parts

  /** The row ends in a glyph. */
  predicate AfterGlyph(items: seq<Item>) {
    items != [] && items[|items| - 1].Shown? && items[|items| - 1].of.Glyph?
  }

  /** A call of the layout may start here, as far as skipping is concerned. */
  predicate RunStart(rows: seq<Row>, limit: nat)
    requires rows != []
  {
    Column(rows) < limit ==> !AfterGlyph(rows[|rows| - 1].items)
  }

  /** The row is open at the end of the part that was laid out. */
  predicate Open(a: Result, k: nat, limit: nat) {
    a.offset == k && !a.skipped && a.column < limit
  }

  /** A part that does not leave the row open is all that comes on it. */
  lemma {:induction false} LineCutShort(text: seq<Unit>, i: nat, k: nat, end: nat, col: nat, limit: nat, first: bool)
    requires i <= k <= end <= |text| && col <= limit && !Open(Line(text, i, k, col, limit, first), k, limit)
    ensures Line(text, i, end, col, limit, first) == Line(text, i, k, col, limit, first)
    decreases k - i
  {
    if i < k && col < limit && Next(text[i], col, limit) <= limit {
      LineStep(text, i, k, col, limit, first);
      LineStep(text, i, end, col, limit, first);
      LineCutShort(text, i + 1, k, end, Next(text[i], col, limit), limit, !text[i].Glyph?);
    }
  }

  /** Otherwise the rest follows; only the memory of being within a run of glyphs is lost. */
  lemma {:induction false} LineInParts(text: seq<Unit>, i: nat, k: nat, end: nat, col: nat, limit: nat, first: bool)
    requires i <= k <= end <= |text| && col <= limit && Open(Line(text, i, k, col, limit, first), k, limit)
    ensures var a := Line(text, i, k, col, limit, first);
      var b := Line(text, k, end, a.column, limit, if i == k then first else !text[k - 1].Glyph?);
      Line(text, i, end, col, limit, first) == b.(items := a.items + b.items)
    decreases k - i
  {
    if i == k {
      var r := Line(text, i, end, col, limit, first);
      assert [] + r.items == r.items;
    } else {
      LineOpenFits(text, i, k, col, limit, first);
      var c := Next(text[i], col, limit);
      LineStep(text, i, k, col, limit, first);
      LineStep(text, i, end, col, limit, first);
      LineInParts(text, i + 1, k, end, c, limit, !text[i].Glyph?);
      var a := Line(text, i + 1, k, c, limit, !text[i].Glyph?);
      var b := Line(text, k, end, a.column, limit, !text[k - 1].Glyph?);
      ThenParts(Shown(text[i], c - col), a, b);
    }
  }

  lemma {:induction false} LineOpenFits(text: seq<Unit>, i: nat, k: nat, col: nat, limit: nat, first: bool)
    requires i < k <= |text| && col <= limit && Open(Line(text, i, k, col, limit, first), k, limit)
    ensures col < limit && Next(text[i], col, limit) <= limit
  {
  }

  lemma {:induction false} ThenParts(item: Item, a: Result, b: Result)
    ensures Then(item, b.(items := a.items + b.items)) == b.(items := Then(item, a).items + b.items)
  {
    assert [item] + (a.items + b.items) == [item] + a.items + b.items;
  }

  /** What the last item of a part is. */
  lemma {:induction false} LineLast(text: seq<Unit>, i: nat, k: nat, col: nat, limit: nat, first: bool)
    requires i < k <= |text| && col <= limit
    ensures var a := Line(text, i, k, col, limit, first);
      && (Open(a, k, limit) ==> a.items != [] && (AfterGlyph(a.items) <==> text[k - 1].Glyph?))
      && (a.skipped && a.items != [] ==> !AfterGlyph(a.items))
      && (a.skipped && a.items == [] ==> first)
    decreases k - i
  {
    if col < limit && Next(text[i], col, limit) <= limit {
      var c := Next(text[i], col, limit);
      LineStep(text, i, k, col, limit, first);
      if i + 1 < k {
        LineLast(text, i + 1, k, c, limit, !text[i].Glyph?);
      }
    }
  }

  // ----- which glyphs are skipped

  /** The column that the text up to k leaves, if the row is open there. */
  lemma {:induction false} OpenColumn(text: seq<Unit>, i: nat, k: nat, rows: seq<Row>, limit: nat)
    requires Ends(text, i, k, limit) && rows != [] && Open(LineAt(text, i, k, rows, limit), k, limit)
    ensures Column(Opened(Lay(text, i, k, rows, limit), limit)) == LineAt(text, i, k, rows, limit).column
  {
    if i < k {
      LineAtGoesOn(text, i, k, rows, limit);
    }
  }

  /** A row that goes beyond k is open there, and goes on with what comes at k. */
  lemma {:induction false} RowAt(text: seq<Unit>, i: nat, k: nat, end: nat, rows: seq<Row>, limit: nat)
    requires Ends(text, i, end, limit) && rows != [] && i <= k < end && k < LineAt(text, i, end, rows, limit).offset
    ensures Ends(text, i, k, limit)
    ensures var r, c := LineAt(text, i, end, rows, limit), Column(Opened(Lay(text, i, k, rows, limit), limit));
      var b := Line(text, k, end, c, limit, i == k || !text[k - 1].Glyph?);
      c < limit && b.offset == r.offset && b.skipped == r.skipped && b.column == r.column
  {
    var a, c := LineAt(text, i, k, rows, limit), Column(Opened(rows, limit));
    LineBounds(text, i, k, c, limit, true);
    if !Open(a, k, limit) {
      LineCutShort(text, i, k, end, c, limit, true);
      assert false;
    }
    LineInParts(text, i, k, end, c, limit, true);
    OpenColumn(text, i, k, rows, limit);
  }

  /** Where a row stops, nothing is lost on a page of two columns or more: a glyph that does not fit goes on to
      the next row. */
  lemma {:induction false} NotLostAtStop(text: seq<Unit>, i: nat, end: nat, rows: seq<Row>, limit: nat)
    requires Ends(text, i, end, limit) && rows != [] && i < end && limit >= 2
    requires var r := LineAt(text, i, end, rows, limit); !r.skipped && r.offset < end
    ensures !Lost(text, i, LineAt(text, i, end, rows, limit).offset, rows, limit)
  {
    var r, c := LineAt(text, i, end, rows, limit), Column(Opened(rows, limit));
    LineAtGoesOn(text, i, end, rows, limit);
    LineBounds(text, i, end, c, limit, true);
    var k := r.offset;
    var a := LineAt(text, i, k, rows, limit);
    if Open(a, k, limit) {
      LineInParts(text, i, k, end, c, limit, true);
      OpenColumn(text, i, k, rows, limit);
    } else {
      LineCutShort(text, i, k, end, c, limit, true);
    }
  }

  /** Behind a row, the layout goes on from there. */
  lemma {:induction false} BehindRow(text: seq<Unit>, i: nat, k: nat, end: nat, rows: seq<Row>, limit: nat)
    requires Ends(text, i, end, limit) && rows != [] && i < end && LineAt(text, i, end, rows, limit).offset < k < end
    requires !LineAt(text, i, end, rows, limit).skipped
    ensures Ends(text, i, k, limit)
    ensures var r := LineAt(text, i, end, rows, limit);
      Lost(text, i, k, rows, limit) <==> Lost(text, r.offset, k, Extended(rows, r, limit), limit)
  {
    LineAtGoesOn(text, i, end, rows, limit);
    var a, c := LineAt(text, i, k, rows, limit), Column(Opened(rows, limit));
    if Open(a, k, limit) {
      LineInParts(text, i, k, end, c, limit, true);
      LineBounds(text, k, end, a.column, limit, i == k || !text[k - 1].Glyph?);
      assert false;
    }
    LineCutShort(text, i, k, end, c, limit, true);
  }

  /** The glyph that a row skips is lost. */
  lemma {:induction false} SkippedIsLost(text: seq<Unit>, i: nat, end: nat, rows: seq<Row>, limit: nat)
    requires Ends(text, i, end, limit) && rows != [] && i < end && LineAt(text, i, end, rows, limit).skipped
    ensures Loses(text, i, end, rows, limit)
  {
    var r, c := LineAt(text, i, end, rows, limit), Column(Opened(rows, limit));
    LineBounds(text, i, end, c, limit, true);
    var k := r.offset - 1;
    RowAt(text, i, k, end, rows, limit);
    SkippedAtOnce(text, k, end, Column(Opened(Lay(text, i, k, rows, limit), limit)), limit, i == k || !text[k - 1].Glyph?);
    assert Lost(text, i, k, rows, limit);
  }

  lemma {:induction false} SkippedAtOnce(text: seq<Unit>, k: nat, end: nat, col: nat, limit: nat, first: bool)
    requires k < end <= |text| && col < limit && text[k].Glyph?
    requires var b := Line(text, k, end, col, limit, first); b.skipped && b.offset == k + 1
    ensures first && Line(text, k, end, col, limit, first).column == col
  {
    if col + Width(text[k]) <= limit {
      LineBounds(text, k + 1, end, col + Width(text[k]), limit, false);
    }
  }

  /** A glyph that a row shows is not lost. */
  lemma {:induction false} ShownNotLost(text: seq<Unit>, i: nat, k: nat, end: nat, rows: seq<Row>, limit: nat)
    requires Ends(text, i, end, limit) && rows != [] && i <= k < end
    requires var r := LineAt(text, i, end, rows, limit); !r.skipped && k < r.offset
    ensures !Lost(text, i, k, rows, limit)
  {
    RowAt(text, i, k, end, rows, limit);
  }

  /** On a page of one column, a wide glyph is lost wherever it comes. */
  lemma {:induction false} OneColumn(text: seq<Unit>, i: nat, k: nat, rows: seq<Row>)
    requires Ends(text, i, k, 1) && rows != [] && k < |text|
    ensures Lost(text, i, k, rows, 1) <==> text[k].Glyph? && text[k].wide
  {
  }

  lemma {:induction false} SkipsIff(text: seq<Unit>, i: nat, end: nat, rows: seq<Row>, limit: nat)
    requires Ends(text, i, end, limit) && rows != []
    ensures Skips(text, i, end, rows, limit) <==> Loses(text, i, end, rows, limit)
    decreases end - i, if Column(rows) >= limit then 0 else 1
  {
    if i < end {
      LineAtGoesOn(text, i, end, rows, limit);
      var r := LineAt(text, i, end, rows, limit);
      if r.skipped {
        SkippedIsLost(text, i, end, rows, limit);
      } else {
        SkipsIff(text, r.offset, end, Extended(rows, r, limit), limit);
        LosesFurther(text, i, end, rows, limit);
      }
    }
  }

  lemma {:induction false} LosesFurther(text: seq<Unit>, i: nat, end: nat, rows: seq<Row>, limit: nat)
    requires Ends(text, i, end, limit) && rows != [] && i < end && !LineAt(text, i, end, rows, limit).skipped
    ensures var r := LineAt(text, i, end, rows, limit);
      Loses(text, i, end, rows, limit) <==> Loses(text, r.offset, end, Extended(rows, r, limit), limit)
  {
    LineAtGoesOn(text, i, end, rows, limit);
    var r := LineAt(text, i, end, rows, limit);
    forall k | i <= k < end
      ensures Lost(text, i, k, rows, limit) <==> k >= r.offset && Lost(text, r.offset, k, Extended(rows, r, limit), limit)
    {
      if k < r.offset {
        ShownNotLost(text, i, k, end, rows, limit);
      } else if k > r.offset {
        BehindRow(text, i, k, end, rows, limit);
      } else {
        LostAtStop(text, i, end, rows, limit);
      }
    }
  }

  lemma {:induction false} LostAtStop(text: seq<Unit>, i: nat, end: nat, rows: seq<Row>, limit: nat)
    requires Ends(text, i, end, limit) && rows != [] && i < end
    requires var r := LineAt(text, i, end, rows, limit); !r.skipped && r.offset < end
    ensures var r := LineAt(text, i, end, rows, limit);
      Lost(text, i, r.offset, rows, limit) <==> Lost(text, r.offset, r.offset, Extended(rows, r, limit), limit)
  {
    var r := LineAt(text, i, end, rows, limit);
    LineAtGoesOn(text, i, end, rows, limit);
    LineBounds(text, i, end, Column(Opened(rows, limit)), limit, true);
    if limit >= 2 {
      NotLostAtStop(text, i, end, rows, limit);
    } else {
      OneColumn(text, i, r.offset, rows);
      OneColumn(text, r.offset, r.offset, Extended(rows, r, limit));
    }
  }

  /** After a control character that leaves one column, wide glyphs are gone, all that follow. */
  lemma {:induction false} LostExample(c: int, a: int, b: int)
    ensures Lay([Control(c), Glyph(a, true), Glyph(b, true)], 0, 3, [Row([], 0)], 3) == [Row([Shown(Control(c), 2)], 2)]
  {
    var text, rows := [Control(c), Glyph(a, true), Glyph(b, true)], [Row([], 0)];
    var item := Shown(text[0], 2);
    assert Line(text, 1, 3, 2, 3, true) == Result(2, 2, [], true);
    assert LineAt(text, 0, 3, rows, 3) == Result(2, 2, [item], true);
    assert rows[..0] == [] && rows[0].items + [item] == [item];
    var next := Extended(rows, Result(2, 2, [item], true), 3);
    assert next == [Row([item], 2)];
    assert LineAt(text, 2, 3, next, 3) == Result(3, 2, [], true);
    assert next[..0] == [] && [item] + [] == [item];
    assert Extended(next, Result(3, 2, [], true), 3) == next;
  }

  /** Laying out more text does not touch the rows before the last one, and only adds to that; a full row stays
      as it is. */
  lemma {:induction false} LayKeeps(text: seq<Unit>, i: nat, end: nat, rows: seq<Row>, limit: nat)
    requires Ends(text, i, end, limit) && rows != []
    ensures var all, n := Lay(text, i, end, rows, limit), |rows| - 1;
      && |all| > n && rows[n].items <= all[n].items
      && (Column(rows) >= limit ==> all[n] == rows[n])
      && (forall k :: 0 <= k < n ==> all[k] == rows[k])
    decreases end - i, if Column(rows) >= limit then 0 else 1
  {
    if i < end {
      LineAtGoesOn(text, i, end, rows, limit);
      var r := LineAt(text, i, end, rows, limit);
      ExtendedKeeps(rows, r, limit);
      LayKeeps(text, r.offset, end, Extended(rows, r, limit), limit);
    }
  }

  lemma {:induction false} ExtendedKeeps(rows: seq<Row>, r: Result, limit: nat)
    requires rows != []
    ensures var all, n := Extended(rows, r, limit), |rows| - 1;
      && |all| > n && rows[n].items <= all[n].items
      && (Column(rows) >= limit ==> |all| > n + 1 && all[n] == rows[n])
      && (forall k :: 0 <= k < n ==> all[k] == rows[k])
  {
  }

  /** A glyph that would go to the next row comes first in its part, where it is skipped. */
  predicate Squeezed(text: seq<Unit>, k: nat, end: nat, rows: seq<Row>, limit: nat)
    requires rows != []
  {
    && k < end <= |text| && text[k].Glyph? && text[k].wide
    && Column(rows) + 1 == limit && AfterGlyph(rows[|rows| - 1].items)
  }

  /** On the last column of a row, everything but a wide glyph leaves an item. */
  lemma {:induction false} LastColumn(text: seq<Unit>, i: nat, end: nat, limit: nat)
    requires i < end <= |text| && 1 <= limit
    ensures var r := Line(text, i, end, limit - 1, limit, true);
      if text[i].Glyph? && text[i].wide then r == Result(i + 1, limit - 1, [], true) else r.items != []
  {
  }

  /** A row that is continued differs from what it was. */
  lemma {:induction false} ContinuedDiffers(text: seq<Unit>, k: nat, end: nat, rows: seq<Row>, r: Result, limit: nat)
    requires Ends(text, k, end, limit) && rows != [] && Column(rows) < limit && r.items != []
    ensures var all, n := Lay(text, k, end, Extended(rows, r, limit), limit), |rows| - 1;
      |all| > n && all[n] != Row(rows[n].items, limit)
  {
    var next, n := Extended(rows, r, limit), |rows| - 1;
    LayKeeps(text, k, end, next, limit);
    assert |next[n].items| > |rows[n].items|;
  }

  /** A row with one column left does not become full without anything more on it. */
  lemma {:induction false} LayNotPadded(text: seq<Unit>, i: nat, end: nat, rows: seq<Row>, limit: nat)
    requires Ends(text, i, end, limit) && rows != [] && Column(rows) + 1 == limit
    ensures var all, n := Lay(text, i, end, rows, limit), |rows| - 1;
      |all| > n && all[n] != Row(rows[n].items, limit)
    decreases end - i
  {
    if i < end {
      LineAtGoesOn(text, i, end, rows, limit);
      LastColumn(text, i, end, limit);
      var r := LineAt(text, i, end, rows, limit);
      if text[i].Glyph? && text[i].wide {
        ExtendedNothing(rows, r, limit);
        LayNotPadded(text, i + 1, end, rows, limit);
      } else {
        ContinuedDiffers(text, r.offset, end, rows, r, limit);
      }
    }
  }

  /** Laying text out in two parts gives the same rows as laying it out at once, exactly if no glyph is
      squeezed where it is cut. */
  lemma {:induction false} LayInPartsIff(text: seq<Unit>, i: nat, k: nat, end: nat, rows: seq<Row>, limit: nat)
    requires i <= k && Ends(text, i, end, limit) && k <= end && rows != [] && RunStart(rows, limit)
    ensures Ends(text, i, k, limit) && Ends(text, k, end, limit)
    ensures var mid := Lay(text, i, k, rows, limit);
      Lay(text, k, end, mid, limit) == Lay(text, i, end, rows, limit) <==> !Squeezed(text, k, end, mid, limit)
    decreases end - i, if Column(rows) >= limit then 0 else 1
  {
    if i < k {
      var a := LineAt(text, i, k, rows, limit);
      LineAtGoesOn(text, i, k, rows, limit);
      if Open(a, k, limit) {
        LayOpenIff(text, i, k, end, rows, limit);
      } else {
        LineCutShort(text, i, k, end, Column(Opened(rows, limit)), limit, true);
        LineAtGoesOn(text, i, end, rows, limit);
        StillRunStart(text, i, k, rows, limit);
        LayInPartsIff(text, a.offset, k, end, Extended(rows, a, limit), limit);
      }
    }
  }

  lemma {:induction false} StillRunStart(text: seq<Unit>, i: nat, k: nat, rows: seq<Row>, limit: nat)
    requires i < k <= |text| && rows != [] && RunStart(rows, limit) && limit > 0
    requires !Open(LineAt(text, i, k, rows, limit), k, limit)
    ensures RunStart(Extended(rows, LineAt(text, i, k, rows, limit), limit), limit)
  {
    var c := Column(Opened(rows, limit));
    LineBounds(text, i, k, c, limit, true);
    LineLast(text, i, k, c, limit, true);
  }

  /** The case in which the row is open at the cut. */
  lemma {:induction false} LayOpenIff(text: seq<Unit>, i: nat, k: nat, end: nat, rows: seq<Row>, limit: nat)
    requires i < k && Ends(text, i, end, limit) && Ends(text, i, k, limit) && k <= end && rows != [] && RunStart(rows, limit)
    requires Open(LineAt(text, i, k, rows, limit), k, limit)
    ensures var mid := Lay(text, i, k, rows, limit);
      Lay(text, k, end, mid, limit) == Lay(text, i, end, rows, limit) <==> !Squeezed(text, k, end, mid, limit)
  {
    var a := LineAt(text, i, k, rows, limit);
    LayToCut(text, i, k, end, rows, limit);
    LineLast(text, i, k, Column(Opened(rows, limit)), limit, true);
    ExtendedLast(rows, a, limit);
    LayFromCutIff(text, k, end, Extended(rows, a, limit), limit, !text[k - 1].Glyph?);
  }

  lemma {:induction false} ExtendedLast(rows: seq<Row>, a: Result, limit: nat)
    requires rows != [] && a.items != []
    ensures var mid := Extended(rows, a, limit);
      && Column(mid) == a.column && (AfterGlyph(mid[|mid| - 1].items) <==> AfterGlyph(a.items))
  {
  }

  /** What the layout at once makes of the text from the cut on. */
  lemma {:induction false} LayToCut(text: seq<Unit>, i: nat, k: nat, end: nat, rows: seq<Row>, limit: nat)
    requires i < k && Ends(text, i, end, limit) && Ends(text, i, k, limit) && k <= end && rows != []
    requires Open(LineAt(text, i, k, rows, limit), k, limit)
    ensures var mid := Extended(rows, LineAt(text, i, k, rows, limit), limit);
      var b := Line(text, k, end, Column(mid), limit, !text[k - 1].Glyph?);
      && Lay(text, i, k, rows, limit) == mid
      && k <= b.offset <= end && Ends(text, b.offset, end, limit)
      && Lay(text, i, end, rows, limit) == Lay(text, b.offset, end, Extended(mid, b, limit), limit)
  {
    var a := LineAt(text, i, k, rows, limit);
    LineAtGoesOn(text, i, k, rows, limit);
    LineAtGoesOn(text, i, end, rows, limit);
    LineInParts(text, i, k, end, Column(Opened(rows, limit)), limit, true);
    var b := Line(text, k, end, a.column, limit, !text[k - 1].Glyph?);
    LineBounds(text, k, end, a.column, limit, !text[k - 1].Glyph?);
    ExtendedTwice(rows, a, b, limit);
  }

  /** ... and that the layout in parts makes the same of it, or not. */
  lemma {:induction false} LayFromCutIff(text: seq<Unit>, k: nat, end: nat, mid: seq<Row>, limit: nat, first: bool)
    requires Ends(text, k, end, limit) && mid != [] && Column(mid) < limit
    requires first == !AfterGlyph(mid[|mid| - 1].items)
    ensures var b := Line(text, k, end, Column(mid), limit, first);
      && k <= b.offset <= end && Ends(text, b.offset, end, limit)
      && (Lay(text, b.offset, end, Extended(mid, b, limit), limit) == Lay(text, k, end, mid, limit)
          <==> !Squeezed(text, k, end, mid, limit))
  {
    var b := Line(text, k, end, Column(mid), limit, first);
    LineBounds(text, k, end, Column(mid), limit, first);
    if k == end {
      ExtendedNothing(mid, b, limit);
    } else {
      LineAtGoesOn(text, k, end, mid, limit);
      if Squeezed(text, k, end, mid, limit) {
        assert b == Result(k, limit, [], false);
        SqueezedDiffers(text, k, end, mid, limit);
      } else {
        assert b == LineAt(text, k, end, mid, limit);
      }
    }
  }

  lemma {:induction false} ExtendedNothing(rows: seq<Row>, r: Result, limit: nat)
    requires rows != [] && Column(rows) < limit && r.items == [] && r.column == Column(rows)
    ensures Extended(rows, r, limit) == rows
  {
    var n := |rows| - 1;
    assert rows[n].items + [] == rows[n].items;
  }

  lemma {:induction false} SqueezedDiffers(text: seq<Unit>, k: nat, end: nat, mid: seq<Row>, limit: nat)
    requires Ends(text, k, end, limit) && mid != [] && Squeezed(text, k, end, mid, limit)
    ensures Lay(text, k, end, Extended(mid, Result(k, limit, [], false), limit), limit) != Lay(text, k, end, mid, limit)
  {
    var n := |mid| - 1;
    var full := Extended(mid, Result(k, limit, [], false), limit);
    assert mid[n].items + [] == mid[n].items;
    assert full[n] == Row(mid[n].items, limit) && Column(full) == limit && |full| == n + 1;
    LayKeeps(text, k, end, full, limit);
    LayNotPadded(text, k, end, mid, limit);
  }

  lemma {:induction false} ExtendedTwice(rows: seq<Row>, a: Result, b: Result, limit: nat)
    requires rows != [] && a.column < limit
    ensures Extended(Extended(rows, a, limit), b, limit) == Extended(rows, b.(items := a.items + b.items), limit)
  {
    var open := Opened(rows, limit);
    var n := |open| - 1;
    assert open[n].items + a.items + b.items == open[n].items + (a.items + b.items);
  }

  /** A narrow and a wide glyph on a page of two columns: laid out at once both are shown, and with the cursor
      between them the wide one disappears. */
  lemma {:induction false} SqueezeExample(a: int, b: int)
    ensures var text := [Glyph(a, false), Glyph(b, true)]; var rows := [Row([], 0)];
      && AllUnits(Lay(text, 0, 2, rows, 2)) == text
      && Squeezed(text, 1, 2, Lay(text, 0, 1, rows, 2), 2)
      && AllUnits(Lay(text, 1, 2, Lay(text, 0, 1, rows, 2), 2)) == [Glyph(a, false)]
  {
    var text, rows := [Glyph(a, false), Glyph(b, true)], [Row([], 0)];
    var item, wide := Shown(text[0], 1), Shown(text[1], 2);
    FirstGlyph(text, rows, item);
    assert Line(text, 1, 1, 1, 2, false) == Result(1, 1, [], false);
    assert LineAt(text, 0, 2, rows, 2) == Result(1, 2, [item], false);
    assert rows[..0] == [] && rows[0].items + [item] == [item];
    var next := Extended(rows, Result(1, 2, [item], false), 2);
    assert next == [Row([item], 2)];
    assert Line(text, 2, 2, 2, 2, false) == Result(2, 2, [], false);
    assert LineAt(text, 1, 2, next, 2) == Result(2, 2, [wide], false);
    assert !Skips(text, 0, 2, rows, 2);
    LayShowsAll(text, 0, 2, rows, 2);
    OneRow(rows[0]);
    assert [] + text[0..2] == text;
  }

  /** ... in two parts. */
  lemma {:induction false} FirstGlyph(text: seq<Unit>, rows: seq<Row>, item: Item)
    requires |text| == 2 && text[0].Glyph? && !text[0].wide && text[1].Glyph? && text[1].wide
    requires rows == [Row([], 0)] && item == Shown(text[0], 1)
    ensures Lay(text, 0, 1, rows, 2) == [Row([item], 1)] && Squeezed(text, 1, 2, [Row([item], 1)], 2)
    ensures Lay(text, 1, 2, [Row([item], 1)], 2) == [Row([item], 1)] && AllUnits([Row([item], 1)]) == [text[0]]
  {
    assert Line(text, 1, 1, 1, 2, false) == Result(1, 1, [], false);
    assert LineAt(text, 0, 1, rows, 2) == Result(1, 1, [item], false);
    assert rows[..0] == [] && rows[0].items + [item] == [item];
    var mid := Extended(rows, Result(1, 1, [item], false), 2);
    assert mid == [Row([item], 1)];
    assert LineAt(text, 1, 2, mid, 2) == Result(2, 1, [], true);
    assert mid[..0] == [] && [item] + [] == [item];
    assert Extended(mid, Result(2, 1, [], true), 2) == mid;
    OneItem(item);
    OneRow(mid[0]);
  }

  lemma {:induction false} OneItem(item: Item)
    requires item.Shown?
    ensures Units([item]) == [item.of]
  {
    assert [item][1..] == [];
  }

  lemma {:induction false} OneRow(row: Row)
    ensures AllUnits([row]) == Units(row.items)
  {
    assert [row][..0] == [];
  }
}
