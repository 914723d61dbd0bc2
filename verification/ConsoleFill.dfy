/** Writing or filling a run of cells, row by row, with glyphs that may take two columns. */
module ConsoleFill {
  import opened Basics
  import opened VtText

  datatype Mode = WriteAttribute | FillAttribute | WriteCharacter | FillCharacter

  predicate Characters(mode: Mode) {
    mode.WriteCharacter? || mode.FillCharacter?
  }

  predicate Fills(mode: Mode) {
    mode.FillAttribute? || mode.FillCharacter?
  }

  /** What the caller asks for: one value for each unit of the length, or the same value for all of them. */
  predicate Request(mode: Mode, data: seq<nat>, length: nat) {
    if Fills(mode) then length > 0 ==> |data| > 0 else |data| >= length
  }

  function Text(mode: Mode, data: seq<nat>, length: nat): (text: seq<nat>)
    requires Request(mode, data, length)
    ensures |text| == length
    ensures forall k :: 0 <= k < length ==> text[k] == if mode.FillAttribute? || mode.FillCharacter? then data[0] else data[k]
  {
    seq(length, i requires 0 <= i < length => if Fills(mode) then data[0] else data[i])
  }

  // ----- the text as one stream of cells

  /** What becomes of a cell: a color, a narrow glyph, a half of a wide one, or the blank where none fits. */
  datatype Mark = Color(attr: nat) | Single(ch: nat) | Left(ch: nat) | Right(ch: nat) | Pad

  /** An attribute without the two flags. */
  function Plain(word: nat): nat {
    word / 0x400 * 0x400 + word % 0x100
  }

  function Marked(m: Mark, c: Cell): Cell {
    match m
    case Color(a) => c.(attr := Plain(a))
    case Single(ch) => c.(ch := ch, lead := false, trail := false)
    case Left(ch) => c.(ch := ch, lead := true, trail := false)
    case Right(ch) => c.(ch := ch, lead := false, trail := true)
    case Pad => c.(ch := 0x20, lead := false, trail := false)
  }

  /** The first n marks have been made in the cells from a position on, and no other cell is changed. */
  ghost predicate Made(before: seq<Cell>, from: nat, marks: seq<Mark>, n: nat, cells: seq<Cell>) {
    && n <= |marks| && from + n <= |before| == |cells|
    && forall k {:trigger cells[k]} :: 0 <= k < |cells| ==>
         cells[k] == if from <= k < from + n then Marked(marks[k - from], before[k]) else before[k]
  }

  /** How the values are to be understood, and the width of the buffer. */
  datatype Layout = Layout(chars: bool, wide: nat -> bool, w: nat)

  predicate Wide(ch: nat, l: Layout) {
    l.chars && ch >= 0x80 && l.wide(ch)
  }

  function One(v: nat, l: Layout): Mark {
    if l.chars then Single(v) else Color(v)
  }

  /** The cells of one glyph: a wide one that does not fit at the right edge leaves a blank there. */
  function Head(v: nat, col: nat, l: Layout): (marks: seq<Mark>)
    requires col < l.w
    ensures 0 < |marks| <= l.w - col
  {
    if !Wide(v, l) then [One(v, l)] else if col + 1 == l.w then [Pad] else [Left(v), Right(v)]
  }

  /** ... and goes to the next row. */
  function Eaten(v: nat, col: nat, l: Layout): (n: nat)
    ensures n <= 1
  {
    if Wide(v, l) && col + 1 == l.w then 0 else 1
  }

  function NextCol(col: nat, n: nat, l: Layout): nat {
    if col + n == l.w then 0 else col + n
  }

  function NextRows(col: nat, n: nat, rows: nat, l: Layout): nat
    requires rows > 0
  {
    if col + n == l.w then rows - 1 else rows
  }

  /** The cells that the text from position i takes from a column on, if there are `rows` rows from there. */
  function Laid(text: seq<nat>, i: nat, col: nat, rows: nat, l: Layout): seq<Mark>
    requires col < l.w && i <= |text|
    decreases rows, l.w - col
  {
    if i == |text| || rows == 0 then []
    else
      var head := Head(text[i], col, l);
      head + Laid(text, i + Eaten(text[i], col, l), NextCol(col, |head|, l), NextRows(col, |head|, rows, l), l)
  }

  /** Where in the text the reading ends. */
  function Read(text: seq<nat>, i: nat, col: nat, rows: nat, l: Layout): (n: nat)
    requires col < l.w && i <= |text|
    ensures i <= n <= |text|
    decreases rows, l.w - col
  {
    if i == |text| || rows == 0 then i
    else
      var n := |Head(text[i], col, l)|;
      Read(text, i + Eaten(text[i], col, l), NextCol(col, n, l), NextRows(col, n, rows, l), l)
  }

  function Area(rows: nat, w: nat): nat {
    if rows == 0 then 0 else w + Area(rows - 1, w)
  }

  // ----- the stream's properties

  /** The text that marks spell. */
  function Spelled(marks: seq<Mark>): seq<nat> {
    if marks == [] then [] else SpelledOne(marks[0]) + Spelled(marks[1..])
  }

  function SpelledOne(m: Mark): seq<nat> {
    match m
    case Color(a) => [a]
    case Single(ch) => [ch]
    case Left(ch) => [ch]
    case Right(_) => []
    case Pad => []
  }

  function Widths(text: seq<nat>, l: Layout): nat {
    if text == [] then 0 else (if Wide(text[0], l) then 2 else 1) + Widths(text[1..], l)
  }

  function Pads(marks: seq<Mark>): nat {
    if marks == [] then 0 else (if marks[0].Pad? then 1 else 0) + Pads(marks[1..])
  }

  lemma {:induction false} SpelledJoin(a: seq<Mark>, b: seq<Mark>)
    ensures Spelled(a + b) == Spelled(a) + Spelled(b) && Pads(a + b) == Pads(a) + Pads(b)
    decreases |a|
  {
    if a == [] {
      assert a + b == b;
    } else {
      SpelledJoin(a[1..], b);
      SpelledCons(a[0], a[1..]);
      SpelledCons(a[0], a[1..] + b);
      assert a == [a[0]] + a[1..] && a + b == [a[0]] + (a[1..] + b);
      JoinMore(SpelledOne(a[0]), Spelled(a[1..]), Spelled(b));
    }
  }

  lemma {:induction false} SpelledCons(m: Mark, more: seq<Mark>)
    ensures Spelled([m] + more) == SpelledOne(m) + Spelled(more) && Pads([m] + more) == (if m.Pad? then 1 else 0) + Pads(more)
  {
    assert ([m] + more)[1..] == more;
  }

  lemma {:induction false} HeadSpells(v: nat, col: nat, l: Layout)
    requires col < l.w
    ensures var head, read := Head(v, col, l), if Eaten(v, col, l) == 1 then [v] else [];
      Spelled(head) == read && |head| == Widths(read, l) + Pads(head)
  {
    var head := Head(v, col, l);
    if |head| == 2 {
      SpelledJoin([head[0]], [head[1]]);
      assert head == [head[0]] + [head[1]];
    }
    assert [head[0]][1..] == [] && [v][1..] == [];
  }

  /** The cells spell exactly what was read, in order, and are as many as the widths of the glyphs and the
      blanks together. */
  lemma {:induction false} LaidSpells(text: seq<nat>, i: nat, col: nat, rows: nat, l: Layout)
    requires col < l.w && i <= |text|
    ensures var marks, n := Laid(text, i, col, rows, l), Read(text, i, col, rows, l);
      && Spelled(marks) == text[i..n]
      && |marks| == Widths(text[i..n], l) + Pads(marks)
    decreases rows, l.w - col
  {
    if i < |text| && rows > 0 {
      var head, i' := Head(text[i], col, l), i + Eaten(text[i], col, l);
      var col', rows' := NextCol(col, |head|, l), NextRows(col, |head|, rows, l);
      LaidSpells(text, i', col', rows', l);
      HeadSpells(text[i], col, l);
      SpelledJoin(head, Laid(text, i', col', rows', l));
      TextJoin(text, i, i', Read(text, i', col', rows', l));
      WidthsJoin(text[i..i'], text[i'..Read(text, i', col', rows', l)], l);
    }
  }

  lemma {:induction false} TextJoin(text: seq<nat>, i: nat, i': nat, n: nat)
    requires i < |text| && (i' == i || i' == i + 1) && i' <= n <= |text|
    ensures text[i..n] == text[i..i'] + text[i'..n]
    ensures text[i..i'] == if i' == i then [] else [text[i]]
  {
  }

  /** The cells fit the rest of the buffer; reading stops early only at its end. */
  lemma {:induction false} LaidFits(text: seq<nat>, i: nat, col: nat, rows: nat, l: Layout)
    requires col < l.w && i <= |text| && rows > 0
    ensures var marks, n := Laid(text, i, col, rows, l), Read(text, i, col, rows, l);
      && |marks| <= Area(rows, l.w) - col
      && (n < |text| ==> |marks| == Area(rows, l.w) - col)
      && (i < |text| ==> |marks| > 0)
    decreases rows, l.w - col
  {
    if i < |text| {
      var head, i' := Head(text[i], col, l), i + Eaten(text[i], col, l);
      var col', rows' := NextCol(col, |head|, l), NextRows(col, |head|, rows, l);
      if rows' == 0 {
        assert Laid(text, i', col', 0, l) == [];
      } else {
        LaidFits(text, i', col', rows', l);
      }
    }
  }

  lemma {:induction false} AreaIs(rows: nat, w: nat)
    ensures Area(rows, w) == rows * w
  {
    if rows > 0 {
      AreaIs(rows - 1, w);
      assert (rows - 1) * w + w == rows * w;
    }
  }

  lemma {:induction false} AreaBelow(y: nat, h: nat, w: nat)
    requires y <= h
    ensures Area(y, w) + Area(h - y, w) == Area(h, w)
    decreases h
  {
    if y < h {
      AreaBelow(y, h - 1, w);
    }
  }

  lemma {:induction false} WidthsJoin(a: seq<nat>, b: seq<nat>, l: Layout)
    ensures Widths(a + b, l) == Widths(a, l) + Widths(b, l)
    decreases |a|
  {
    if a == [] {
      assert a + b == b;
    } else {
      assert (a + b)[0] == a[0] && (a + b)[1..] == a[1..] + b;
      WidthsJoin(a[1..], b, l);
    }
  }

  /** A left half is followed by its right half, and a right half preceded by its left half. */
  ghost predicate Halves(marks: seq<Mark>) {
    && (forall k {:trigger marks[k]} :: 0 <= k < |marks| && marks[k].Left? ==>
          k + 1 < |marks| && marks[k + 1] == Right(marks[k].ch))
    && (forall k {:trigger marks[k]} :: 0 <= k < |marks| && marks[k].Right? ==>
          k > 0 && marks[k - 1] == Left(marks[k].ch))
  }

  lemma {:induction false} HalvesJoin(a: seq<Mark>, b: seq<Mark>)
    requires Halves(a) && Halves(b)
    ensures Halves(a + b)
  {
    var s := a + b;
    forall k | 0 <= k < |s| && s[k].Left? ensures k + 1 < |s| && s[k + 1] == Right(s[k].ch) {
      if k < |a| {
        assert a[k] == s[k];
      } else {
        assert b[k - |a|] == s[k];
      }
    }
    forall k | 0 <= k < |s| && s[k].Right? ensures k > 0 && s[k - 1] == Left(s[k].ch) {
      if k < |a| {
        assert a[k] == s[k];
      } else {
        assert b[k - |a|] == s[k];
      }
    }
  }

  // ----- one row

  /** What is laid from here is this row's cells and then what is laid from the next row on. */
  lemma {:induction false} LaidByRows(text: seq<nat>, i: nat, col: nat, rows: nat, l: Layout)
    requires col < l.w && rows > 0 && i <= |text|
    ensures var row, n := Laid(text, i, col, 1, l), Read(text, i, col, 1, l);
      && Laid(text, i, col, rows, l) == row + Laid(text, n, 0, rows - 1, l)
      && Read(text, i, col, rows, l) == Read(text, n, 0, rows - 1, l)
      && (n == |text| || |row| == l.w - col)
    decreases l.w - col
  {
    if i < |text| {
      var head, i' := Head(text[i], col, l), i + Eaten(text[i], col, l);
      var c := col + |head|;
      if c == l.w {
        assert Laid(text, i', 0, 0, l) == [] && head + [] == head;
      } else {
        LaidByRows(text, i', c, rows, l);
        JoinMore(head, Laid(text, i', c, 1, l), Laid(text, Read(text, i', c, 1, l), 0, rows - 1, l));
      }
    }
  }

  lemma {:induction false} RowHalves(text: seq<nat>, i: nat, col: nat, l: Layout)
    requires col < l.w && i <= |text|
    ensures Halves(Laid(text, i, col, 1, l))
    decreases l.w - col
  {
    if i < |text| {
      var head, i' := Head(text[i], col, l), i + Eaten(text[i], col, l);
      assert Halves(head);
      if col + |head| < l.w {
        RowHalves(text, i', col + |head|, l);
        HalvesJoin(head, Laid(text, i', col + |head|, 1, l));
      } else {
        assert head + [] == head;
      }
    }
  }

  /** A run in which every glyph was laid whole is shown with one column per cell. */
  lemma {:induction false} LaidRunAligned(infos: seq<Cell>, filled: seq<Cell>, marks: seq<Mark>, text: seq<nat>, i: nat, col: nat, l: Layout)
    requires l.chars && col < l.w && i <= |text| && marks == Laid(text, i, col, 1, l)
    requires Made(infos, 0, marks, |marks|, filled)
    ensures Aligned(filled[..|marks|])
  {
    var run := filled[..|marks|];
    RowHalves(text, i, col, l);
    NoColors(text, i, col, l);
    forall k | 0 <= k < |run| ensures run[k] == Marked(marks[k], infos[k]) {
      assert run[k] == filled[k];
    }
    forall k | 0 <= k < |run| - 1 && run[k].lead ensures run[k + 1].trail && !run[k + 1].lead {
      assert marks[k].Left?;
    }
    forall k | 0 < k < |run| && run[k].trail && !run[k].lead ensures run[k - 1].lead {
      assert marks[k].Right?;
    }
    AlignedIffPaired(run);
  }

  lemma {:induction false} NoColors(text: seq<nat>, i: nat, col: nat, l: Layout)
    requires l.chars && col < l.w && i <= |text|
    ensures forall k :: 0 <= k < |Laid(text, i, col, 1, l)| ==> !Laid(text, i, col, 1, l)[k].Color?
    decreases l.w - col
  {
    if i < |text| {
      var head := Head(text[i], col, l);
      if col + |head| < l.w {
        NoColors(text, i + Eaten(text[i], col, l), col + |head|, l);
      }
    }
  }

  /** What the terminal shows for the marks: the glyphs, each with its columns, in the attributes that were there. */
  function Look(marks: seq<Mark>, before: seq<Cell>, k: nat): seq<VtText.Mark>
    requires k <= |marks| && k <= |before|
  {
    if k == 0 then []
    else
      Look(marks, before, k - 1) +
      match marks[k - 1]
      case Color(_) => []
      case Single(ch) => [(Glyph(ch, 1), before[k - 1].attr)]
      case Left(ch) => [(Glyph(ch, 2), before[k - 1].attr + 0x100)]
      case Right(_) => []
      case Pad => [(Glyph(0x20, 1), before[k - 1].attr)]
  }

  /** A character that a terminal shows as such. */
  predicate Printable(ch: nat) {
    0x20 <= ch < 0x1_0000 && !(0x7F <= ch <= 0x9F) && !(0xD800 <= ch <= 0xDFFF)
  }

  predicate MarkPrintable(m: Mark) {
    match m
    case Color(_) => false
    case Single(ch) => Printable(ch)
    case Left(ch) => Printable(ch)
    case Right(ch) => Printable(ch)
    case Pad => true
  }

  /** A run that was filled with printable characters is shown as just these. */
  lemma {:induction false} FilledShows(before: seq<Cell>, marks: seq<Mark>, run: seq<Cell>, k: nat)
    requires MadeRun(before, marks, run) && Halves(marks) && k <= |marks| && CellsOk(run)
    requires forall i :: 0 <= i < |marks| ==> MarkPrintable(marks[i])
    ensures Expected(run, k) == Look(marks, before, k)
  {
    if k > 0 {
      FilledShows(before, marks, run, k - 1);
      ShowsMore(before, marks, run, k - 1);
    }
  }

  ghost predicate MadeRun(before: seq<Cell>, marks: seq<Mark>, run: seq<Cell>) {
    |run| == |marks| <= |before| && forall i :: 0 <= i < |marks| ==> run[i] == Marked(marks[i], before[i])
  }

  lemma {:induction false} ShowsMore(before: seq<Cell>, marks: seq<Mark>, run: seq<Cell>, k: nat)
    requires MadeRun(before, marks, run) && Halves(marks) && k < |marks| && CellsOk(run) && MarkPrintable(marks[k])
    requires Expected(run, k) == Look(marks, before, k)
    ensures Expected(run, k + 1) == Look(marks, before, k + 1)
  {
    CellIsPainted(run, k);
    match marks[k]
    case Single(_) =>
    case Left(_) => assert k + 1 < |marks|;
    case Right(_) => assert k > 0;
    case Pad =>
  }

  /** ... wherever it is. */
  lemma {:induction false} RunShows(before: seq<Cell>, marks: seq<Mark>, filled: seq<Cell>)
    requires Made(before, 0, marks, |marks|, filled) && Halves(marks)
    requires forall i :: 0 <= i < |marks| ==> MarkPrintable(marks[i])
    ensures var run := filled[..|marks|]; CellsOk(run) && Expected(run, |run|) == Look(marks, before, |marks|)
  {
    var run := filled[..|marks|];
    forall i | 0 <= i < |marks| ensures run[i] == Marked(marks[i], before[i]) && run[i].ch < 0x1_0000 {
      assert run[i] == filled[i] && MarkPrintable(marks[i]);
    }
    FilledShows(before, marks, run, |marks|);
  }

  // ----- what becomes of every cell

  /** The marks are the values from i on, one each. */
  ghost predicate OneEach(marks: seq<Mark>, text: seq<nat>, i: nat, l: Layout) {
    i + |marks| <= |text| && forall k :: 0 <= k < |marks| ==> marks[k] == One(text[i + k], l)
  }

  lemma {:induction false} OneMoreEach(marks: seq<Mark>, text: seq<nat>, i: nat, l: Layout)
    requires i < |text| && OneEach(marks, text, i + 1, l)
    ensures OneEach([One(text[i], l)] + marks, text, i, l)
  {
    var all := [One(text[i], l)] + marks;
    forall k | 0 <= k < |all| ensures all[k] == One(text[i + k], l) {
      if k > 0 {
        assert all[k] == marks[k - 1] && text[i + 1 + (k - 1)] == text[i + k];
      }
    }
  }

  lemma {:induction false} NarrowStep(text: seq<nat>, i: nat, col: nat, rows: nat, l: Layout)
    requires col < l.w && i < |text| && rows > 0 && !Wide(text[i], l)
    ensures var col', rows' := NextCol(col, 1, l), NextRows(col, 1, rows, l);
      && Laid(text, i, col, rows, l) == [One(text[i], l)] + Laid(text, i + 1, col', rows', l)
      && Read(text, i, col, rows, l) == Read(text, i + 1, col', rows', l)
  {
  }

  /** Narrow values take one cell each, as far as there are cells. */
  lemma {:induction false} NarrowLaid(text: seq<nat>, i: nat, col: nat, rows: nat, l: Layout)
    requires col < l.w && i <= |text| && forall k :: i <= k < |text| ==> !Wide(text[k], l)
    ensures var marks := Laid(text, i, col, rows, l); OneEach(marks, text, i, l) && Read(text, i, col, rows, l) == i + |marks|
    decreases rows, l.w - col
  {
    if i < |text| && rows > 0 {
      var col', rows' := NextCol(col, 1, l), NextRows(col, 1, rows, l);
      NarrowStep(text, i, col, rows, l);
      NarrowLaid(text, i + 1, col', rows', l);
      OneMoreEach(Laid(text, i + 1, col', rows', l), text, i, l);
    }
  }

  /** The two flags are cleared and nothing else. */
  lemma {:induction false} PlainMeans(word: nat)
    ensures Plain(word) % 0x100 == word % 0x100 && Plain(word) / 0x100 % 4 == 0 && Plain(word) / 0x400 == word / 0x400
  {
    InPlaces(word / 0x400, word % 0x100);
  }

  lemma {:induction false} InPlaces(high: nat, low: nat)
    requires low < 0x100
    ensures var n := high * 0x400 + low; n % 0x100 == low && n / 0x100 == high * 4 && n / 0x400 == high && high * 4 % 4 == 0
  {
  }

  /** In every cell: characters leave the attributes alone, and attributes the characters.  Narrow characters and
      attributes go one to a cell, in order, until the text or the buffer ends. */
  ghost predicate CellsAre(before: seq<Cell>, cells: seq<Cell>, at: nat, text: seq<nat>, read: nat, n: nat, l: Layout) {
    && |cells| == |before| && at + n <= |cells|
    && (forall k :: 0 <= k < |cells| && !(at <= k < at + n) ==> cells[k] == before[k])
    && (l.chars ==> forall k :: 0 <= k < |cells| ==> cells[k].attr == before[k].attr)
    && (!l.chars ==> forall k :: 0 <= k < |cells| ==>
          cells[k].ch == before[k].ch && cells[k].lead == before[k].lead && cells[k].trail == before[k].trail)
    && (!l.chars || (forall k :: 0 <= k < |text| ==> text[k] < 0x80 || !l.wide(text[k])) ==>
          && read == n == Min(|text|, |cells| - at)
          && forall k {:trigger cells[k]} :: at <= k < at + n ==>
               if l.chars then cells[k] == Cell(text[k - at], before[k].attr, false, false)
               else cells[k].attr == text[k - at] / 0x400 * 0x400 + text[k - at] % 0x100)
  }

  lemma {:induction false} KindLaid(text: seq<nat>, i: nat, col: nat, rows: nat, l: Layout)
    requires col < l.w && i <= |text|
    ensures forall k :: 0 <= k < |Laid(text, i, col, rows, l)| ==> (Laid(text, i, col, rows, l)[k].Color? <==> !l.chars)
    decreases rows, l.w - col
  {
    if i < |text| && rows > 0 {
      var head := Head(text[i], col, l);
      KindLaid(text, i + Eaten(text[i], col, l), NextCol(col, |head|, l), NextRows(col, |head|, rows, l), l);
    }
  }

  lemma {:induction false} MadeCells(before: seq<Cell>, cells: seq<Cell>, at: nat, text: seq<nat>, marks: seq<Mark>, read: nat, l: Layout)
    requires Made(before, at, marks, |marks|, cells)
    requires forall k :: 0 <= k < |marks| ==> (marks[k].Color? <==> !l.chars)
    requires !l.chars || (forall k :: 0 <= k < |text| ==> text[k] < 0x80 || !l.wide(text[k])) ==>
      && read == |marks| == Min(|text|, |cells| - at)
      && OneEach(marks, text, 0, l)
    ensures CellsAre(before, cells, at, text, read, |marks|, l)
  {
  }

  lemma {:induction false} NarrowAll(text: seq<nat>, x: nat, y: nat, h: nat, l: Layout)
    requires x < l.w && y < h && forall k :: 0 <= k < |text| ==> !Wide(text[k], l)
    ensures var marks := Laid(text, 0, x, h - y, l);
      && Read(text, 0, x, h - y, l) == |marks| == Min(|text|, Area(h, l.w) - (Area(y, l.w) + x)) && OneEach(marks, text, 0, l)
  {
    AreaBelow(y, h, l.w);
    NarrowLaid(text, 0, x, h - y, l);
    LaidFits(text, 0, x, h - y, l);
  }

  /** ... for what was laid from row y, column x on. */
  lemma {:induction false} LaidCells(before: seq<Cell>, cells: seq<Cell>, x: nat, y: nat, h: nat, text: seq<nat>, l: Layout)
    requires x < l.w && y < h && |before| == Area(h, l.w)
    requires var marks := Laid(text, 0, x, h - y, l); Made(before, Area(y, l.w) + x, marks, |marks|, cells)
    ensures CellsAre(before, cells, Area(y, l.w) + x, text, Read(text, 0, x, h - y, l), |Laid(text, 0, x, h - y, l)|, l)
  {
    var marks, read := Laid(text, 0, x, h - y, l), Read(text, 0, x, h - y, l);
    KindLaid(text, 0, x, h - y, l);
    if !l.chars || (forall k :: 0 <= k < |text| ==> text[k] < 0x80 || !l.wide(text[k])) {
      NarrowAll(text, x, y, h, l);
    }
    MadeCells(before, cells, Area(y, l.w) + x, text, marks, read, l);
  }

  // ----- the loops

  /** What the text from position i on lays in the rest of this row. */
  function RowRest(text: seq<nat>, i: nat, col: nat, l: Layout): seq<Mark>
    requires i <= |text| && col <= l.w
  {
    if col == l.w then [] else Laid(text, i, col, 1, l)
  }

  function RowRead(text: seq<nat>, i: nat, col: nat, l: Layout): nat
    requires i <= |text| && col <= l.w
  {
    if col == l.w then i else Read(text, i, col, 1, l)
  }

  lemma {:induction false} RowStep(text: seq<nat>, i: nat, col: nat, l: Layout)
    requires i < |text| && col < l.w
    ensures var head, i' := Head(text[i], col, l), i + Eaten(text[i], col, l);
      && RowRest(text, i, col, l) == head + RowRest(text, i', col + |head|, l)
      && RowRead(text, i, col, l) == RowRead(text, i', col + |head|, l)
  {
    var head, i' := Head(text[i], col, l), i + Eaten(text[i], col, l);
    if col + |head| == l.w {
      assert Laid(text, i', 0, 0, l) == [] && Read(text, i', 0, 0, l) == i';
    }
  }

  /** What is still to come in this row is all but its first n cells. */
  ghost predicate RowAt(text: seq<nat>, i: nat, col: nat, l: Layout, all: seq<Mark>, n: nat, end: nat) {
    && i <= |text| && col <= l.w && n <= |all|
    && RowRest(text, i, col, l) == all[n..] && RowRead(text, i, col, l) == end
  }

  lemma {:induction false} RowAtStep(text: seq<nat>, i: nat, col: nat, l: Layout, all: seq<Mark>, n: nat, end: nat)
    requires RowAt(text, i, col, l, all, n, end) && i < |text| && col < l.w
    ensures var head := Head(text[i], col, l);
      && head <= all[n..]
      && RowAt(text, i + Eaten(text[i], col, l), col + |head|, l, all, n + |head|, end)
  {
    RowStep(text, i, col, l);
    var head := Head(text[i], col, l);
    assert all[n..][|head|..] == all[n + |head|..];
  }

  lemma {:induction false} RowAtEnd(text: seq<nat>, i: nat, col: nat, l: Layout, all: seq<Mark>, n: nat, end: nat)
    requires RowAt(text, i, col, l, all, n, end) && (i == |text| || col == l.w)
    ensures n == |all| && i == end
  {
    assert |all[n..]| == 0;
  }

  /** Making the next few marks. */
  lemma {:induction false} MadeMore(before: seq<Cell>, from: nat, marks: seq<Mark>, n: nat, cells: seq<Cell>, at: nat, more: seq<Mark>,
                                    after: seq<Cell>, total: nat)
    requires Made(before, from, marks, n, cells) && Made(cells, at, more, |more|, after)
    requires at == from + n && total == n + |more| && more <= marks[n..]
    ensures Made(before, from, marks, total, after)
  {
    assert n + |more| <= |marks|;
    forall k | 0 <= k < |after|
      ensures after[k] == if from <= k < from + (n + |more|) then Marked(marks[k - from], before[k]) else before[k]
    {
      assert cells[k] == cells[k];
      if from + n <= k < from + n + |more| {
        assert more[k - (from + n)] == marks[n..][k - (from + n)];
      }
    }
  }

  class Screen {
    const w: nat
    const h: nat
    var cells: seq<Cell>

    constructor (width: nat, height: nat, content: seq<Cell>)
      ensures w == width && h == height && cells == content
    {
      w, h, cells := width, height, content;
    }

    ghost predicate Valid()
      reads this
    {
      w > 0 && |cells| == Area(h, w)
    }

    /** Changes the cells of one value. */
    static method Put(infos0: seq<Cell>, columns0: nat, v: nat, col: nat, l: Layout)
      returns (infos: seq<Cell>, columns: nat, eaten: nat)
      requires columns0 < |infos0| && col + |infos0| == l.w
      ensures var head := Head(v, col + columns0, l);
        && columns == columns0 + |head| && eaten == Eaten(v, col + columns0, l)
        && Made(infos0, columns0, head, |head|, infos)
    {
      infos, columns, eaten := infos0, columns0, 1;
      if !l.chars {
        infos := infos[columns := infos[columns].(attr := Plain(v))];
        columns := columns + 1;
      } else if v >= 0x80 && l.wide(v) {
        if columns + 1 >= |infos0| {
          infos := infos[columns := infos[columns].(ch := 0x20, lead := false, trail := false)];
          columns, eaten := columns + 1, 0;
          return;
        }
        infos := infos[columns := infos[columns].(ch := v, lead := true, trail := false)];
        columns := columns + 1;
        infos := infos[columns := infos[columns].(ch := v, lead := false, trail := true)];
        columns := columns + 1;
      } else {
        infos := infos[columns := infos[columns].(ch := v, lead := false, trail := false)];
        columns := columns + 1;
      }
    }

    static method PutNext(infos0: seq<Cell>, columns0: nat, v: nat, col: nat, l: Layout,
                          ghost text: seq<nat>, ghost i: nat, ghost before: seq<Cell>, ghost all: seq<Mark>, ghost end: nat)
      returns (infos: seq<Cell>, columns: nat, eaten: nat)
      requires columns0 < |infos0| && col + |infos0| == l.w && i < |text| && v == text[i]
      requires RowAt(text, i, col + columns0, l, all, columns0, end) && Made(before, 0, all, columns0, infos0)
      ensures eaten <= 1 && (eaten == 0 ==> col + columns == l.w)
      ensures RowAt(text, i + eaten, col + columns, l, all, columns, end) && Made(before, 0, all, columns, infos)
    {
      RowAtStep(text, i, col + columns0, l, all, columns0, end);
      infos, columns, eaten := Put(infos0, columns0, v, col, l);
      MadeMore(before, 0, all, columns0, infos0, columns0, Head(v, col + columns0, l), infos, columns);
    }

    /** The loop over one row's columns. */
    static method FillRow(infos0: seq<Cell>, col: nat, mode: Mode, data: seq<nat>, length: nat, from: nat, l: Layout,
                          ghost text: seq<nat>)
      returns (infos: seq<Cell>, columns: nat, pos: nat)
      requires Request(mode, data, length) && text == Text(mode, data, length) && from <= length
      requires col < l.w && |infos0| == l.w - col
      ensures var marks := Laid(text, from, col, 1, l);
        && columns == |marks| && pos == Read(text, from, col, 1, l)
        && Made(infos0, 0, marks, |marks|, infos)
    {
      infos, columns, pos := infos0, 0, from;
      ghost var all, end := RowRest(text, from, col, l), RowRead(text, from, col, l);
      while columns < |infos0| && pos < length
        invariant from <= pos <= length && columns <= |infos0| && columns <= |all|
        invariant RowAt(text, pos, col + columns, l, all, columns, end)
        invariant Made(infos0, 0, all, columns, infos)
        decreases length - pos
      {
        var eaten;
        infos, columns, eaten := PutNext(infos, columns, if Fills(mode) then data[0] else data[pos], col, l,
                                         text, pos, infos0, all, end);
        pos := pos + eaten;
        if eaten == 0 {
          break;
        }
      }
      RowAtEnd(text, pos, col + columns, l, all, columns, end);
    }

    /** FillConsoleImpl for a terminal: the cells from the start on become what the text lays there, and no
        other cell changes; each row's run is sent by itself. */
    method Fill(mode: Mode, data: seq<nat>, length: nat, x: int, y: int, wide: nat -> bool)
      returns (lengthRead: nat, cellsModified: nat, runs: seq<Run>)
      requires Valid() && Request(mode, data, length)
      modifies this
      ensures Valid()
      ensures length == 0 || !(0 <= x < w && 0 <= y < h) ==>
        lengthRead == cellsModified == 0 && cells == old(cells) && runs == []
      ensures length > 0 && 0 <= x < w && 0 <= y < h ==>
        var l := Layout(Characters(mode), wide, w);
        var text, at := Text(mode, data, length), Area(y, w) + x;
        var marks := Laid(text, 0, x, h - y, l);
        && lengthRead == Read(text, 0, x, h - y, l) && cellsModified == |marks|
        && Made(old(cells), at, marks, |marks|, cells)
        && RunsOk(runs, x, y, y + |runs|, l, false)
        && (forall k :: 0 <= k < length ==> text[k] == if mode.FillAttribute? || mode.FillCharacter? then data[0] else data[k])
        && CellsAre(old(cells), cells, y * w + x, text, lengthRead, cellsModified, l)
    {
      lengthRead, cellsModified, runs := 0, 0, [];
      if length == 0 || !(0 <= x < w && 0 <= y < h) {
        return;
      }
      lengthRead, cellsModified, runs := FillRows(mode, data, length, x, y, Layout(Characters(mode), wide, w), Text(mode, data, length));
      AreaIs(y, w);
    }

    /** The loop over the rows. */
    method FillRows(mode: Mode, data: seq<nat>, length: nat, x: nat, y: nat, l: Layout, ghost text: seq<nat>)
      returns (lengthRead: nat, cellsModified: nat, runs: seq<Run>)
      requires Valid() && Request(mode, data, length) && text == Text(mode, data, length)
      requires x < w == l.w && y < h
      modifies this
      ensures Valid()
      ensures lengthRead == Read(text, 0, x, h - y, l) && cellsModified == |Laid(text, 0, x, h - y, l)|
      ensures Made(old(cells), Area(y, w) + x, Laid(text, 0, x, h - y, l), cellsModified, cells)
      ensures RunsOk(runs, x, y, y + |runs|, l, false)
      ensures CellsAre(old(cells), cells, Area(y, w) + x, text, lengthRead, cellsModified, l)
    {
      lengthRead, cellsModified, runs := FillLoop(mode, data, length, x, y, l, text);
      LaidCells(old(cells), cells, x, y, h, text, l);
    }

    method FillLoop(mode: Mode, data: seq<nat>, length: nat, x: nat, y: nat, l: Layout, ghost text: seq<nat>)
      returns (lengthRead: nat, cellsModified: nat, runs: seq<Run>)
      requires Valid() && Request(mode, data, length) && text == Text(mode, data, length)
      requires x < w == l.w && y < h
      modifies this
      ensures Valid()
      ensures lengthRead == Read(text, 0, x, h - y, l) && cellsModified == |Laid(text, 0, x, h - y, l)|
      ensures Made(old(cells), Area(y, w) + x, Laid(text, 0, x, h - y, l), cellsModified, cells)
      ensures RunsOk(runs, x, y, y + |runs|, l, false)
    {
      lengthRead, cellsModified, runs := 0, 0, [];
      var row: nat := y;
      ghost var all, end := Laid(text, 0, x, h - y, l), Read(text, 0, x, h - y, l);
      ghost var off, before := Area(y, w) + x, cells;
      AreaBelow(y, h, w);
      while row < h && lengthRead < length
        invariant y <= row <= h && lengthRead <= length && Valid()
        invariant RowsAt(text, lengthRead, Begin(row, y, x), h - row, l, all, cellsModified, end)
        invariant lengthRead < length ==> off + cellsModified == Area(row, w) + Begin(row, y, x)
        invariant Made(before, off, all, cellsModified, cells)
        invariant RunsOk(runs, x, y, row, l, lengthRead < length)
        decreases h - row
      {
        var run;
        cellsModified, lengthRead, run :=
          NextRow(row, Begin(row, y, x), mode, data, length, lengthRead, cellsModified, l, text, off, before, all, end);
        RunsStep(runs, run, x, y, row, l, lengthRead < length);
        runs := runs + [run];
        row := row + 1;
      }
      RowsAtEnd(text, lengthRead, Begin(row, y, x), h - row, l, all, cellsModified, end);
    }

    method NextRow(row: nat, beg: nat, mode: Mode, data: seq<nat>, length: nat, from: nat, count: nat, l: Layout,
                   ghost text: seq<nat>, ghost off: nat, ghost before: seq<Cell>, ghost all: seq<Mark>, ghost end: nat)
      returns (cellsModified: nat, pos: nat, run: Run)
      requires Valid() && Request(mode, data, length) && text == Text(mode, data, length) && from < length
      requires beg < w == l.w && row < h && off + count == Area(row, w) + beg
      requires RowsAt(text, from, beg, h - row, l, all, count, end) && Made(before, off, all, count, cells)
      modifies this
      ensures Valid() && pos <= length
      ensures RowsAt(text, pos, 0, h - (row + 1), l, all, cellsModified, end) && Made(before, off, all, cellsModified, cells)
      ensures pos < length ==> off + cellsModified == Area(row + 1, w)
      ensures run.x == beg && run.y == row && (pos < length ==> Full(run, w)) && (l.chars ==> Aligned(run.cells))
    {
      AreaBelow(row, h, w);
      ghost var mid, m := cells, Laid(text, from, beg, 1, l);
      RowsAtStep(text, from, beg, h - row, h - (row + 1), l, all, count, end);
      RowReached(text, from, beg, l);
      var columns;
      columns, pos, run := FillOneRow(row, beg, mode, data, length, from, l, text, m);
      cellsModified := count + columns;
      MadeMore(before, off, all, count, mid, Area(row, w) + beg, m, cells, cellsModified);
    }

    /** Reads the cells of one row, fills them, and writes the changed ones. */
    method FillOneRow(y: nat, beg: nat, mode: Mode, data: seq<nat>, length: nat, from: nat, l: Layout, ghost text: seq<nat>,
                      ghost marks: seq<Mark>)
      returns (columns: nat, pos: nat, run: Run)
      requires Valid() && Request(mode, data, length) && text == Text(mode, data, length) && from < length
      requires beg < w == l.w && Area(y, w) + w <= |cells| && marks == Laid(text, from, beg, 1, l)
      modifies this
      ensures Valid() && |cells| == |old(cells)|
      ensures columns == |marks| && pos == Read(text, from, beg, 1, l)
      ensures Made(old(cells), Area(y, w) + beg, marks, |marks|, cells)
      ensures run.x == beg && run.y == y && |run.cells| == |marks|
      ensures pos < length ==> Full(run, w)
      ensures l.chars ==> Aligned(run.cells)
    {
      var at := Area(y, w) + beg;
      var infos := cells[at..at + (w - beg)];
      var filled;
      filled, columns, pos := FillRow(infos, beg, mode, data, length, from, l, text);
      RowReached(text, from, beg, l);
      if l.chars {
        LaidRunAligned(infos, filled, marks, text, from, beg, l);
      }
      run := Run(beg, y, filled[..columns]);
      Write(at, w - beg, filled, columns, marks);
    }

    method Write(at: nat, n: nat, filled: seq<Cell>, columns: nat, ghost marks: seq<Mark>)
      requires at + n <= |cells| && columns == |marks| && Made(cells[at..at + n], 0, marks, |marks|, filled)
      modifies this
      ensures Made(old(cells), at, marks, |marks|, cells)
    {
      ghost var before := cells;
      cells := cells[..at] + filled[..columns] + cells[at + columns..];
      forall k | 0 <= k < |cells|
        ensures cells[k] == if at <= k < at + |marks| then Marked(marks[k - at], before[k]) else before[k]
      {
        if at <= k < at + |marks| {
          assert cells[k] == filled[k - at];
        }
      }
    }
  }

  function Begin(row: int, y: int, x: nat): nat {
    if row == y then x else 0
  }

  /** What is still to come from this row on is all but the first n cells. */
  ghost predicate RowsAt(text: seq<nat>, i: nat, col: nat, left: nat, l: Layout, all: seq<Mark>, n: nat, end: nat) {
    && i <= |text| && col < l.w && n <= |all|
    && Laid(text, i, col, left, l) == all[n..] && Read(text, i, col, left, l) == end
  }

  lemma {:induction false} RowsAtStep(text: seq<nat>, i: nat, col: nat, left: nat, left': nat, l: Layout, all: seq<Mark>, n: nat, end: nat)
    requires RowsAt(text, i, col, left, l, all, n, end) && left == left' + 1
    ensures var m := Laid(text, i, col, 1, l);
      && m <= all[n..]
      && RowsAt(text, Read(text, i, col, 1, l), 0, left', l, all, n + |m|, end)
  {
    LaidByRows(text, i, col, left, l);
    var m := Laid(text, i, col, 1, l);
    assert all[n..][|m|..] == all[n + |m|..];
  }

  lemma {:induction false} RowsAtEnd(text: seq<nat>, i: nat, col: nat, left: nat, l: Layout, all: seq<Mark>, n: nat, end: nat)
    requires RowsAt(text, i, col, left, l, all, n, end) && (i == |text| || left == 0)
    ensures n == |all| && i == end
  {
    assert |all[n..]| == 0;
  }

  lemma {:induction false} RowReached(text: seq<nat>, i: nat, col: nat, l: Layout)
    requires col < l.w && i <= |text|
    ensures Read(text, i, col, 1, l) < |text| ==> |Laid(text, i, col, 1, l)| == l.w - col
  {
    LaidByRows(text, i, col, 1, l);
  }

  /** The runs of the rows so far; if there is more to come, the last one is full too. */
  ghost predicate RunsOk(runs: seq<Run>, x: int, y: int, row: int, l: Layout, more: bool) {
    && |runs| == row - y && Spread(runs, x, y, l.w)
    && (more && runs != [] ==> Full(runs[|runs| - 1], l.w))
    && (l.chars ==> AllAligned(runs))
  }

  lemma {:induction false} RunsStep(runs: seq<Run>, run: Run, x: nat, y: int, row: int, l: Layout, more: bool)
    requires RunsOk(runs, x, y, row, l, true)
    requires run.y == row && run.x == Begin(row, y, x) && (more ==> Full(run, l.w)) && (l.chars ==> Aligned(run.cells))
    ensures RunsOk(runs + [run], x, y, row + 1, l, more)
  {
  }

  /** The part of a row that is sent to the terminal. */
  datatype Run = Run(x: int, y: int, cells: seq<Cell>)

  predicate Full(run: Run, w: nat) {
    run.x + |run.cells| == w
  }

  ghost predicate AllAligned(runs: seq<Run>) {
    forall k :: 0 <= k < |runs| ==> Aligned(runs[k].cells)
  }

  /** One run per row, from the start on: each but the last reaches the right edge, and each but the first
      starts at the left. */
  ghost predicate Spread(runs: seq<Run>, x: int, y: int, w: nat) {
    forall k :: 0 <= k < |runs| ==>
      && runs[k].y == y + k
      && runs[k].x == (if k == 0 then x else 0)
      && (k < |runs| - 1 ==> Full(runs[k], w))
  }
}
