/** The rows of a line editor, column by column: where every unit stands, why a row ends, and where the text up to
    the cursor ends. */
module CookedRows {
  import opened Basics
  import opened CookedLayout

  /** The columns that a unit takes from where it starts: one or two for a glyph, two for ^X, and up to the next
      multiple of eight or the edge of the page for a tab. */
  ghost predicate Occupies(u: Unit, from: nat, to: nat, width: nat) {
    match u
    case Glyph(_, wide) => to == from + if wide then 2 else 1
    case Control(_) => to == from + 2
    case Tab => from < to <= width && (to % 8 == 0 || to == width) && forall m :: from < m < to ==> m % 8 != 0
  }

  /** The items stand side by side on the page from a column on; a blank goes up to its edge. */
  ghost predicate Sits(items: seq<Item>, start: nat, width: nat) {
    items == [] ||
    (var next := start + items[0].columns;
     && start < width && next <= width
     && (if items[0].Shown? then Occupies(items[0].of, start, next, width) else next == width)
     && Sits(items[1..], next, width))
  }

  predicate EndsBlank(items: seq<Item>) {
    items != [] && items[|items| - 1].Blank?
  }

  /** The row ends where its text does. */
  ghost predicate NotEarly(row: Row, start: nat) {
    start + Columns(row.items) == row.columns && !EndsBlank(row.items)
  }

  /** The row was ended one column before the edge, since the unit does not fit there: a wide glyph, for which the
      column is left alone, or ^X, for which it is a blank. */
  ghost predicate EndedFor(row: Row, start: nat, width: nat, u: Unit) {
    && width >= 2 && row.columns == width
    && (if EndsBlank(row.items) then
          && u.Control? && row.items[|row.items| - 1] == Blank(1) && start + Columns(row.items) == width
        else
          u.Glyph? && u.wide && start + Columns(row.items) + 1 == width)
  }

  /** The first row starts behind the prompt. */
  function StartOf(k: nat, x: nat): nat {
    if k == 0 then x else 0
  }

  ghost predicate RowSits(rows: seq<Row>, k: nat, x: nat, width: nat)
    requires k < |rows|
  {
    rows[k].columns <= width && Sits(rows[k].items, StartOf(k, x), width)
  }

  /** A row that another one follows is full, or ends early for what that one begins with. */
  ghost predicate RowFollowed(rows: seq<Row>, k: nat, x: nat, width: nat)
    requires k + 1 < |rows|
  {
    && rows[k].columns == width
    && (|| NotEarly(rows[k], StartOf(k, x))
        || (rows[k + 1].items != [] && rows[k + 1].items[0].Shown?
            && EndedFor(rows[k], StartOf(k, x), width, rows[k + 1].items[0].of)))
  }

  ghost predicate RowsSit(rows: seq<Row>, x: nat, width: nat) {
    && rows != []
    && (forall k :: 0 <= k < |rows| ==> RowSits(rows, k, x, width))
    && (forall k :: 0 <= k < |rows| - 1 ==> RowFollowed(rows, k, x, width))
  }

  /** ... and the last one ends where its text does. */
  ghost predicate Arranged(rows: seq<Row>, x: nat, width: nat) {
    RowsSit(rows, x, width) && NotEarly(rows[|rows| - 1], StartOf(|rows| - 1, x))
  }

  /** The last row is open for what comes next. */
  ghost predicate Awaits(rows: seq<Row>, text: seq<Unit>, i: nat, end: nat, x: nat, width: nat) {
    && RowsSit(rows, x, width)
    && var n := |rows| - 1;
       NotEarly(rows[n], StartOf(n, x)) || (i < end <= |text| && EndedFor(rows[n], StartOf(n, x), width, text[i]))
  }

  // ----- one row

  lemma {:induction false} NextOccupies(u: Unit, col: nat, limit: nat)
    requires col < limit
    ensures Occupies(u, col, Next(u, col, limit), limit)
  {
    if u.Tab? {
      TabStop(col, Next(u, col, limit));
    }
  }

  lemma {:induction false} TabStop(col: nat, to: nat)
    requires col < to <= col + (8 - col % 8)
    ensures forall m :: col < m < to ==> m % 8 != 0
    ensures to == col + (8 - col % 8) ==> to % 8 == 0
  {
  }

  lemma {:induction false} ColumnsCons(item: Item, items: seq<Item>)
    ensures Columns([item] + items) == item.columns + Columns(items)
  {
    assert ([item] + items)[1..] == items;
  }

  lemma {:induction false} SitsCons(item: Item, items: seq<Item>, start: nat, width: nat)
    requires start < width && start + item.columns <= width && Sits(items, start + item.columns, width)
    requires if item.Shown? then Occupies(item.of, start, start + item.columns, width) else start + item.columns == width
    ensures Sits([item] + items, start, width)
  {
    assert ([item] + items)[1..] == items;
  }

  lemma {:induction false} SitsJoin(a: seq<Item>, b: seq<Item>, start: nat, width: nat)
    requires Sits(a, start, width) && Sits(b, start + Columns(a), width)
    ensures Sits(a + b, start, width) && Columns(a + b) == Columns(a) + Columns(b)
    decreases |a|
  {
    if a == [] {
      assert a + b == b;
    } else {
      SitsJoin(a[1..], b, start + a[0].columns, width);
      assert a + b == [a[0]] + (a[1..] + b);
      SitsCons(a[0], a[1..] + b, start, width);
      ColumnsCons(a[0], a[1..] + b);
    }
  }

  /** Where a row ends, on the page and in the text. */
  ghost predicate LineSits(r: Result, text: seq<Unit>, end: nat, col: nat, limit: nat) {
    && Sits(r.items, col, limit) && col <= r.column <= limit
    && (|| NotEarly(Row(r.items, r.column), col)
        || (r.offset < end <= |text| && EndedFor(Row(r.items, r.column), col, limit, text[r.offset])))
  }

  lemma {:induction false} LineStands(text: seq<Unit>, i: nat, end: nat, col: nat, limit: nat, first: bool)
    requires Ends(text, i, end, limit) && col <= limit && (first || col > 0)
    ensures LineSits(Line(text, i, end, col, limit, first), text, end, col, limit)
    decreases end - i
  {
    if i < end && col < limit && Next(text[i], col, limit) <= limit {
      var c := Next(text[i], col, limit);
      LineStep(text, i, end, col, limit, first);
      LineStands(text, i + 1, end, c, limit, !text[i].Glyph?);
      StandsNext(text, i, end, col, limit, c, Line(text, i + 1, end, c, limit, !text[i].Glyph?));
    } else {
      LineStops(text, i, end, col, limit, first);
    }
  }

  lemma {:induction false} StandsNext(text: seq<Unit>, i: nat, end: nat, col: nat, limit: nat, c: nat, r: Result)
    requires i < end <= |text| && col < limit && c == Next(text[i], col, limit) <= limit && LineSits(r, text, end, c, limit)
    ensures LineSits(Then(Shown(text[i], c - col), r), text, end, col, limit)
  {
    NextOccupies(text[i], col, limit);
    StandsThen(text, end, col, limit, Shown(text[i], c - col), r);
  }

  lemma {:induction false} LineStops(text: seq<Unit>, i: nat, end: nat, col: nat, limit: nat, first: bool)
    requires Ends(text, i, end, limit) && col <= limit && (first || col > 0)
    requires i == end || col == limit || Next(text[i], col, limit) > limit
    ensures LineSits(Line(text, i, end, col, limit, first), text, end, col, limit)
  {
    if i < end && col < limit && !text[i].Glyph? {
      SitsCons(Blank(limit - col), [], col, limit);
      ColumnsCons(Blank(limit - col), []);
      assert [Blank(limit - col)] + [] == [Blank(limit - col)];
    }
  }

  lemma {:induction false} StandsThen(text: seq<Unit>, end: nat, col: nat, limit: nat, item: Item, r: Result)
    requires item.Shown? && col < limit && col + item.columns <= limit && Occupies(item.of, col, col + item.columns, limit)
    requires LineSits(r, text, end, col + item.columns, limit)
    ensures LineSits(Then(item, r), text, end, col, limit)
  {
    SitsCons(item, r.items, col, limit);
    ColumnsCons(item, r.items);
    assert EndsBlank([item] + r.items) <==> EndsBlank(r.items);
  }

  // ----- all rows

  /** A row that was ended early begins the next one with what it was ended for. */
  lemma {:induction false} BeginsNext(text: seq<Unit>, i: nat, end: nat, limit: nat)
    requires i < end <= |text| && limit >= 2
    ensures var r := Line(text, i, end, 0, limit, true); r.items != [] && r.items[0].Shown? && r.items[0].of == text[i]
  {
    LineStep(text, i, end, 0, limit, true);
  }

  /** The row before one that is written on stays as it is. */
  lemma {:induction false} FollowedStill(rows: seq<Row>, row: Row, x: nat, limit: nat)
    requires |rows| >= 2 && RowFollowed(rows, |rows| - 2, x, limit) && rows[|rows| - 1].items <= row.items
    ensures RowFollowed(rows[..|rows| - 1] + [row], |rows| - 2, x, limit)
  {
    var n := |rows| - 1;
    var all := rows[..n] + [row];
    assert all[n - 1] == rows[n - 1] && all[n] == row;
    assert rows[n].items != [] ==> rows[n].items[0] == row.items[0];
  }

  /** ... also if it is a fresh one. */
  lemma {:induction false} FollowedFresh(text: seq<Unit>, i: nat, end: nat, rows: seq<Row>, x: nat, limit: nat)
    requires Ends(text, i, end, limit) && i < end && Awaits(rows, text, i, end, x, limit) && Column(rows) >= limit
    ensures var r := Line(text, i, end, 0, limit, true);
      RowFollowed(rows + [Row(r.items, r.column)], |rows| - 1, x, limit)
  {
    var n := |rows| - 1;
    assert RowSits(rows, n, x, limit);
    if !NotEarly(rows[n], StartOf(n, x)) {
      BeginsNext(text, i, end, limit);
    }
  }

  /** The row that is written next: the last one, or a fresh one. */
  lemma {:induction false} OpenedSits(text: seq<Unit>, i: nat, end: nat, rows: seq<Row>, x: nat, limit: nat)
    requires limit > 0 && Awaits(rows, text, i, end, x, limit)
    ensures var open := Opened(rows, limit); var n := |open| - 1;
      && NotEarly(open[n], StartOf(n, x)) && Sits(open[n].items, StartOf(n, x), limit) && open[n].columns < limit
      && n <= |rows| && (forall k :: 0 <= k < n ==> open[k] == rows[k])
  {
    if Column(rows) < limit {
      assert RowSits(rows, |rows| - 1, x, limit);
    }
  }

  /** ... and the row before it. */
  lemma {:induction false} OpenedFollowed(text: seq<Unit>, i: nat, end: nat, rows: seq<Row>, x: nat, limit: nat)
    requires Ends(text, i, end, limit) && i < end && Awaits(rows, text, i, end, x, limit)
    ensures var n, r := |Opened(rows, limit)| - 1, LineAt(text, i, end, rows, limit);
      n > 0 ==> RowFollowed(Extended(rows, r, limit), n - 1, x, limit)
  {
    var open := Opened(rows, limit);
    var n := |open| - 1;
    var r := LineAt(text, i, end, rows, limit);
    if Column(rows) < limit {
      if n > 0 {
        FollowedStill(rows, Row(open[n].items + r.items, r.column), x, limit);
      }
    } else {
      FollowedFresh(text, i, end, rows, x, limit);
      assert [] + r.items == r.items && open[..n] == rows;
    }
  }

  lemma {:induction false} ExtendedAwaits(text: seq<Unit>, i: nat, end: nat, rows: seq<Row>, x: nat, limit: nat)
    requires Ends(text, i, end, limit) && i < end && Awaits(rows, text, i, end, x, limit)
    ensures var r := LineAt(text, i, end, rows, limit); Awaits(Extended(rows, r, limit), text, r.offset, end, x, limit)
  {
    var r := LineAt(text, i, end, rows, limit);
    var open, all := Opened(rows, limit), Extended(rows, r, limit);
    var n := |open| - 1;
    var start := StartOf(n, x);
    OpenedSits(text, i, end, rows, x, limit);
    OpenedFollowed(text, i, end, rows, x, limit);
    LineStands(text, i, end, open[n].columns, limit, true);
    SitsJoin(open[n].items, r.items, start, limit);
    LastJoined(open[n], r, start, limit);
    assert all[n] == Row(open[n].items + r.items, r.column);
    forall k | 0 <= k < |all| ensures RowSits(all, k, x, limit) {
      if k < n {
        assert all[k] == rows[k] && RowSits(rows, k, x, limit);
      }
    }
    forall k | 0 <= k < n ensures RowFollowed(all, k, x, limit) {
      if k < n - 1 {
        assert all[k] == rows[k] && all[k + 1] == rows[k + 1];
        assert RowFollowed(rows, k, x, limit);
      }
    }
  }

  /** The row ends as the part that was added to it does. */
  lemma {:induction false} LastJoined(row: Row, r: Result, start: nat, limit: nat)
    requires NotEarly(row, start) && Columns(row.items + r.items) == Columns(row.items) + Columns(r.items)
    ensures var all := Row(row.items + r.items, r.column);
      && (NotEarly(Row(r.items, r.column), row.columns) ==> NotEarly(all, start))
      && (forall u :: EndedFor(Row(r.items, r.column), row.columns, limit, u) ==> EndedFor(all, start, limit, u))
  {
    assert r.items == [] ==> row.items + r.items == row.items;
  }

  /** Whatever is laid out, every unit stands where it should and every row is as full as it can be. */
  lemma {:induction false} LayArranged(text: seq<Unit>, i: nat, end: nat, rows: seq<Row>, x: nat, limit: nat)
    requires Ends(text, i, end, limit) && Awaits(rows, text, i, end, x, limit)
    ensures Arranged(Lay(text, i, end, rows, limit), x, limit)
    decreases end - i, if Column(rows) >= limit then 0 else 1
  {
    if i < end {
      LineAtGoesOn(text, i, end, rows, limit);
      var r := LineAt(text, i, end, rows, limit);
      ExtendedAwaits(text, i, end, rows, x, limit);
      LayArranged(text, r.offset, end, Extended(rows, r, limit), x, limit);
    }
  }

  // ----- the cursor

  /** The text that is shown before a place of the layout. */
  ghost predicate EndsAt(rows: seq<Row>, x: nat, p: Point, before: seq<Unit>) {
    && 0 <= p.y < |rows|
    && exists m :: 0 <= m <= |rows[p.y].items| && p.x == StartOf(p.y, x) + Columns(rows[p.y].items[..m])
                   && AllUnits(rows[..p.y]) + Units(rows[p.y].items[..m]) == before
  }

  /** The rows up to the cursor end where the text before it does, also when more is laid out after them. */
  lemma {:induction false} StillEndsAt(mid: seq<Row>, rows: seq<Row>, x: nat, width: nat)
    requires Arranged(mid, x, width)
    requires var n := |mid| - 1;
      n < |rows| && mid[n].items <= rows[n].items && forall k :: 0 <= k < n ==> rows[k] == mid[k]
    ensures EndsAt(rows, x, Point(Column(mid), |mid| - 1), AllUnits(mid))
  {
    var n := |mid| - 1;
    var m := |mid[n].items|;
    assert rows[..n] == mid[..n] && rows[n].items[..m] == mid[n].items;
  }
}
