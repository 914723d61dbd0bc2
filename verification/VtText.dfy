/** How text and runs of cells are written to the terminal: printable characters only, in UTF-8, and each
    glyph in the column of its cell. */
module VtText {
  import opened Basics
  import opened Utf16
  import opened Utf8

  predicate Control(ch: nat) {
    ch <= 0x1F || 0x7F <= ch <= 0x9F
  }

  /** What the DOS code page 437 shows for the C0 controls. */
  const SHAPES: seq<nat> := [
    0x20, 0x263A, 0x263B, 0x2665, 0x2666, 0x2663, 0x2660, 0x2022, 0x25D8, 0x25CB, 0x25D9, 0x2642, 0x2640, 0x266A, 0x266B, 0x263C,
    0x25BA, 0x25C4, 0x2195, 0x203C, 0xB6, 0xA7, 0x25AC, 0x21A8, 0x2191, 0x2193, 0x2192, 0x2190, 0x221F, 0x2194, 0x25B2, 0x25BC]

  /** SanitizeUCS2: always a printable character, and the same one if it was printable already. */
  function Sanitized(ch: nat): (r: nat)
    requires ch < 0x1_0000
    ensures Scalar(r) && r < 0x1_0000 && !Control(r)
    ensures r == ch <==> !Control(ch) && !Surrogate(ch)
  {
    if ch < 0x20 then ShapesPrintable(ch); SHAPES[ch]
    else if ch == 0x7F then 0x2302
    else if 0x7F < ch < 0xA0 then 0x3F
    else if Surrogate(ch) then REPLACEMENT
    else ch
  }

  lemma {:induction false} ShapesPrintable(i: nat)
    requires i < |SHAPES|
    ensures |SHAPES| == 32 && 0x20 <= SHAPES[i] < 0xD800 && !Control(SHAPES[i])
  {
  }

  /** The text with its control characters made printable. */
  function Visible(text: seq<nat>): (r: seq<nat>)
    requires Units(text)
    ensures |r| == |text| && Units(r)
  {
    seq(|text|, i requires 0 <= i < |text| => if Control(text[i]) then Sanitized(text[i]) else text[i])
  }

  class Writer {
    var back: seq<nat>

    /** WriteUCS2: the octets of the character. */
    method WriteUCS2(ch0: nat)
      requires ch0 < 0x1_0000
      modifies this
      ensures var c := if Surrogate(ch0) then REPLACEMENT else ch0; back == old(back) + Octets(c)
    {
      var ch := ch0;
      if Surrogate(ch) {
        ch := REPLACEMENT;
      }
      var buf: seq<nat> := [];
      if ch <= 0x7F {
        buf := buf + [ch];
      } else if ch <= 0x7FF {
        buf := buf + [0xC0 + ch / 0x40];
        buf := buf + [0x80 + ch % 0x40];
      } else {
        buf := buf + [0xE0 + ch / 0x1000];
        buf := buf + [0x80 + ch / 0x40 % 0x40];
        buf := buf + [0x80 + ch % 0x40];
      }
      back := back + buf;
    }

    /** WriteUTF16: the conversion itself is the system's. */
    method WriteUTF16(str: seq<nat>)
      requires Units(str)
      modifies this
      ensures AllScalar(Scalars(str)) && back == old(back) + Encoded(Scalars(str))
    {
      ScalarsAreScalar(str);
      back := back + Encoded(Scalars(str));
    }

    static method FindControl(str: seq<nat>, from: nat) returns (k: nat)
      requires from <= |str|
      ensures from <= k <= |str| && (k < |str| ==> Control(str[k]))
      ensures forall i :: from <= i < k ==> !Control(str[i])
    {
      k := from;
      while k < |str| && !Control(str[k])
        invariant from <= k <= |str|
        invariant forall i :: from <= i < k ==> !Control(str[i])
      {
        k := k + 1;
      }
    }

    /** WriteUTF16StripControlChars: run by run, and yet as if the visible text had been written at once. */
    method WriteUTF16StripControlChars(str: seq<nat>)
      requires Units(str)
      modifies this
      ensures AllScalar(Scalars(Visible(str))) && back == old(back) + Encoded(Scalars(Visible(str)))
    {
      var i := 0;
      assert back + [] == back;
      while i < |str|
        invariant i <= |str| && Written(str, i, old(back), back)
        invariant 0 < i < |str| ==> Control(str[i - 1])
        decreases |str| - i
      {
        i := WriteRun(str, i, old(back));
      }
      WrittenAll(str, old(back), back);
    }

    /** One run of other characters, and the control characters after it. */
    method WriteRun(str: seq<nat>, from: nat, ghost before: seq<nat>) returns (i: nat)
      requires Units(str) && from < |str| && Written(str, from, before, back) && (from > 0 ==> Control(str[from - 1]))
      modifies this
      ensures from < i <= |str| && Written(str, i, before, back)
      ensures i < |str| ==> Control(str[i - 1])
    {
      var begin := FindControl(str, from);
      RunWritten(str, from, begin, before, back);
      WriteUTF16(str[from..begin]);
      i := WriteControls(str, begin, before);
    }

    method WriteControls(str: seq<nat>, from: nat, ghost before: seq<nat>) returns (i: nat)
      requires Units(str) && from <= |str| && Written(str, from, before, back)
      modifies this
      ensures from <= i <= |str| && Written(str, i, before, back)
      ensures i < |str| ==> !Control(str[i])
      ensures from < i ==> Control(str[i - 1])
    {
      i := from;
      while i < |str| && Control(str[i])
        invariant from <= i <= |str| && Written(str, i, before, back)
        invariant from < i ==> Control(str[i - 1])
      {
        ControlWritten(str, i, before, back);
        WriteUCS2(Sanitized(str[i]));
        i := i + 1;
      }
    }
  }

  ghost predicate Written(str: seq<nat>, i: nat, before: seq<nat>, back: seq<nat>)
    requires i <= |str| && Units(str)
  {
    AllScalar(Scalars(Visible(str[..i]))) && back == before + Encoded(Scalars(Visible(str[..i])))
  }

  lemma {:induction false} WrittenAll(str: seq<nat>, before: seq<nat>, back: seq<nat>)
    requires Units(str) && Written(str, |str|, before, back)
    ensures AllScalar(Scalars(Visible(str))) && back == before + Encoded(Scalars(Visible(str)))
  {
    assert str[..|str|] == str;
  }

  lemma {:induction false} RunWritten(str: seq<nat>, i: nat, j: nat, before: seq<nat>, back: seq<nat>)
    requires Units(str) && i <= j <= |str| && Written(str, i, before, back)
    requires 0 < i ==> i < |str| && Control(str[i - 1])
    requires forall k :: i <= k < j ==> !Control(str[k])
    ensures AllScalar(Scalars(str[i..j])) && Written(str, j, before, back + Encoded(Scalars(str[i..j])))
  {
    VisibleRun(str, i, j);
    Joined(Visible(str[..i]), str[i..j], before);
  }

  lemma {:induction false} VisibleRun(str: seq<nat>, i: nat, j: nat)
    requires Units(str) && i <= j <= |str|
    requires 0 < i ==> Control(str[i - 1])
    requires forall k :: i <= k < j ==> !Control(str[k])
    ensures Units(str[i..j]) && Visible(str[..j]) == Visible(str[..i]) + str[i..j] && CleanCut(Visible(str[..i]), str[i..j])
  {
  }

  lemma {:induction false} ControlWritten(str: seq<nat>, i: nat, before: seq<nat>, back: seq<nat>)
    requires Units(str) && i < |str| && Written(str, i, before, back) && Control(str[i])
    ensures Written(str, i + 1, before, back + Octets(Sanitized(str[i])))
  {
    var c := Sanitized(str[i]);
    var a, b := Visible(str[..i]), [c];
    VisibleNext(str, i);
    OneUnit(c);
    EncodedOne(c);
    Joined(a, b, before);
  }

  lemma {:induction false} VisibleNext(str: seq<nat>, i: nat)
    requires Units(str) && i < |str| && Control(str[i])
    ensures Visible(str[..i + 1]) == Visible(str[..i]) + [Sanitized(str[i])]
  {
  }

  lemma {:induction false} OneUnit(u: nat)
    requires u < 0x1_0000 && !Surrogate(u)
    ensures Scalars([u]) == [u]
  {
    assert [u][1..] == [];
  }

  lemma {:induction false} Joined(a: seq<nat>, b: seq<nat>, before: seq<nat>)
    requires Units(a) && Units(b) && CleanCut(a, b)
    ensures AllScalar(Scalars(a)) && AllScalar(Scalars(b)) && AllScalar(Scalars(a + b))
    ensures before + Encoded(Scalars(a)) + Encoded(Scalars(b)) == before + Encoded(Scalars(a + b))
  {
    ScalarsAreScalar(a);
    ScalarsAreScalar(b);
    ScalarsAreScalar(a + b);
    ScalarsJoin(a, b);
    EncodedJoin(Scalars(a), Scalars(b));
  }

  /** The terminal reads back as many characters as it should, none of them a control character. */
  lemma {:induction false} VisibleReadsBack(text: seq<nat>)
    requires Units(text)
    ensures AllScalar(Scalars(Visible(text))) && Decoded(Encoded(Scalars(Visible(text)))) == Some(Scalars(Visible(text)))
    ensures forall c :: c in Scalars(Visible(text)) ==> !Control(c)
  {
    ScalarsAreScalar(Visible(text));
    DecodedEncoded(Scalars(Visible(text)));
    NoneControl(Visible(text));
  }

  lemma {:induction false} NoneControl(text: seq<nat>)
    requires Units(text) && forall i :: 0 <= i < |text| ==> !Control(text[i])
    ensures forall c :: c in Scalars(text) ==> !Control(c)
    decreases |text|
  {
    if text != [] {
      NoneControl(text[Taken(text)..]);
    }
  }

  // ----- runs of cells

  /** CHAR_INFO. */
  datatype Cell = Cell(ch: nat, attr: nat, lead: bool, trail: bool)

  /** What is written for a run: where it starts, changes of the attributes, and glyphs with their columns. */
  datatype Item = Position(x: int, y: int) | Attributes(word: nat) | Glyph(ch: nat, columns: nat)

  /** The attributes of a cell, with its two flags. */
  function Word(c: Cell): nat {
    c.attr + (if c.lead then 0x100 else 0) + (if c.trail then 0x200 else 0)
  }

  const UNSET := 0xFFFF

  /** The character that a cell shows; half a wide glyph at the run's edge is a blank. */
  function Shown(infos: seq<Cell>, i: nat): nat
    requires i < |infos|
  {
    if infos[i].lead && i == |infos| - 1 then 0x20
    else if !infos[i].lead && infos[i].trail && i == 0 then 0x20
    else infos[i].ch
  }

  /** The columns that a cell's glyph takes: none for the trailing half within a run. */
  function Columns(infos: seq<Cell>, i: nat): nat
    requires i < |infos|
  {
    if infos[i].lead then if i == |infos| - 1 then 1 else 2
    else if infos[i].trail && i > 0 then 0
    else 1
  }

  /** The glyphs of one cell: a wide one whose replacement is narrow is shown twice. */
  function Glyphs(infos: seq<Cell>, i: nat): seq<Item>
    requires i < |infos| && infos[i].ch < 0x1_0000
  {
    var ch, n := Shown(infos, i), Columns(infos, i);
    if n == 0 then []
    else if n == 2 && (Surrogate(ch) || Control(ch)) then [Glyph(Sanitized(ch), 1), Glyph(Sanitized(ch), 1)]
    else [Glyph(Sanitized(ch), n)]
  }

  predicate CellsOk(infos: seq<Cell>) {
    forall i :: 0 <= i < |infos| ==> infos[i].ch < 0x1_0000
  }

  /** A glyph and the attributes it is shown in. */
  type Mark = (Item, nat)

  function Colored(glyphs: seq<Item>, word: nat): seq<Mark> {
    seq(|glyphs|, i requires 0 <= i < |glyphs| => (glyphs[i], word))
  }

  /** The first i cells, each in its own attributes. */
  function Expected(infos: seq<Cell>, i: nat): seq<Mark>
    requires i <= |infos| && CellsOk(infos)
  {
    if i == 0 then [] else Expected(infos, i - 1) + Colored(Glyphs(infos, i - 1), Word(infos[i - 1]))
  }

  /** The attributes in force after the items. */
  function InForce(items: seq<Item>): nat {
    if items == [] then UNSET
    else
      var n := |items| - 1;
      if items[n].Attributes? then items[n].word else InForce(items[..n])
  }

  /** What the terminal shows for the items. */
  function Painted(items: seq<Item>): seq<Mark> {
    if items == [] then []
    else
      var n := |items| - 1;
      Painted(items[..n]) + if items[n].Glyph? then [(items[n], InForce(items[..n]))] else []
  }

  function Width(marks: seq<Mark>): nat {
    if marks == [] then 0
    else
      var n := |marks| - 1;
      Width(marks[..n]) + if marks[n].0.Glyph? then marks[n].0.columns else 0
  }

  lemma {:induction false} Push(items: seq<Item>, item: Item)
    ensures Painted(items + [item]) == Painted(items) + if item.Glyph? then [(item, InForce(items))] else []
    ensures InForce(items + [item]) == if item.Attributes? then item.word else InForce(items)
    ensures Positions(items + [item]) == Positions(items) + if item.Position? then 1 else 0
  {
    assert (items + [item])[..|items|] == items;
  }

  function Positions(items: seq<Item>): nat {
    if items == [] then 0
    else
      var n := |items| - 1;
      Positions(items[..n]) + if items[n].Position? then 1 else 0
  }

  /** The items are at one position, given at the start. */
  predicate StartsAt(items: seq<Item>, x: int, y: int) {
    |items| > 0 && items[0] == Position(x, y) && Positions(items) == 1
  }

  /** The writer, as far as runs of cells go. */
  class CellWriter {
    var written: seq<Item>

    constructor ()
      ensures written == []
    {
      written := [];
    }

    /** WriteInfos: every cell is shown as its glyphs, in its own attributes. */
    method WriteInfos(x: int, y: int, infos: seq<Cell>) returns (ghost items: seq<Item>)
      requires CellsOk(infos)
      modifies this
      ensures written == old(written) + items
      ensures StartsAt(items, x, y) && Painted(items) == Expected(infos, |infos|)
    {
      var run := [Position(x, y)];
      var attributes := UNSET;
      Push([], Position(x, y));
      assert [] + run == run;
      for i := 0 to |infos|
        invariant StartsAt(run, x, y) && written == old(written)
        invariant InForce(run) == attributes && Painted(run) == Expected(infos, i)
      {
        run, attributes := WriteCell(run, attributes, infos, i);
      }
      written := written + run;
      items := run;
    }
  }

  method WriteCell(items0: seq<Item>, attributes0: nat, infos: seq<Cell>, i: nat) returns (items: seq<Item>, attributes: nat)
    requires i < |infos| && infos[i].ch < 0x1_0000 && InForce(items0) == attributes0
    ensures items0 <= items && Positions(items) == Positions(items0) && InForce(items) == attributes
    ensures Painted(items) == Painted(items0) + Colored(Glyphs(infos, i), Word(infos[i]))
  {
    items, attributes := items0, attributes0;
    var ci := infos[i];
    var ch, wide := ci.ch, ci.lead || ci.trail;
    if wide {
      if ci.lead {
        if i == |infos| - 1 {
          ch, wide := 0x20, false;
        }
      } else if i == 0 {
        ch, wide := 0x20, false;
      } else {
        assert Painted(items) + [] == Painted(items);
        return;
      }
    }
    assert ch == Shown(infos, i) && Columns(infos, i) == if wide then 2 else 1;
    if attributes != Word(ci) {
      attributes := Word(ci);
      Push(items, Attributes(attributes));
      items := items + [Attributes(attributes)];
      assert Painted(items) == Painted(items0);
    }
    if wide && (Surrogate(ch) || Control(ch)) {
      items := WriteTimes(items, Glyph(Sanitized(ch), 1), 2);
    } else {
      items := WriteTimes(items, Glyph(Sanitized(ch), if wide then 2 else 1), 1);
    }
  }

  method WriteTimes(items0: seq<Item>, glyph: Item, n: nat) returns (items: seq<Item>)
    requires n == 1 || n == 2
    requires glyph.Glyph?
    ensures items0 <= items && Positions(items) == Positions(items0) && InForce(items) == InForce(items0)
    ensures Painted(items) == Painted(items0) + Colored(if n == 1 then [glyph] else [glyph, glyph], InForce(items0))
  {
    Push(items0, glyph);
    items := items0 + [glyph];
    if n == 2 {
      Push(items, glyph);
      items := items + [glyph];
    }
  }

  /** Neither half of a wide glyph, and a character that a terminal shows as such. */
  predicate Narrow(c: Cell) {
    !c.lead && !c.trail && c.ch >= 0x20 && !(0x7F <= c.ch <= 0x9F) && !(0xD800 <= c.ch <= 0xDFFF)
  }

  /** The marks of a run, cell by cell: a narrow cell is its own character in one column; a pair of halves is the
      leading one's character in two; all in the cell's own attributes. */
  lemma {:induction false} CellIsPainted(infos: seq<Cell>, i: nat)
    requires i < |infos| && CellsOk(infos)
    ensures var c, before, after := infos[i], Expected(infos, i), Expected(infos, i + 1);
      && (Narrow(c) ==> after == before + [(Glyph(c.ch, 1), c.attr)])
      && (Narrow(c.(lead := false)) && c.lead && i + 1 < |infos| ==> after == before + [(Glyph(c.ch, 2), c.attr + 0x100)])
      && (c.lead && !c.trail && i + 1 == |infos| ==> after == before + [(Glyph(0x20, 1), c.attr + 0x100)])
      && (c.trail && !c.lead && i == 0 ==> after == before + [(Glyph(0x20, 1), c.attr + 0x200)])
      && (c.trail && !c.lead && i > 0 ==> after == before)
  {
  }

  /** A run of narrow cells is painted as its characters, one to a column. */
  lemma {:induction false} NarrowRun(infos: seq<Cell>, i: nat)
    requires i <= |infos| && CellsOk(infos) && forall k :: 0 <= k < |infos| ==> Narrow(infos[k])
    ensures |Expected(infos, i)| == i
    ensures forall k :: 0 <= k < i ==> Expected(infos, i)[k] == (Glyph(infos[k].ch, 1), infos[k].attr)
  {
    if i > 0 {
      NarrowRun(infos, i - 1);
      CellIsPainted(infos, i - 1);
    }
  }

  lemma {:induction false} WidthPush(marks: seq<Mark>, m: Mark)
    ensures Width(marks + [m]) == Width(marks) + if m.0.Glyph? then m.0.columns else 0
  {
    assert (marks + [m])[..|marks|] == marks;
  }

  /** The columns that a run takes. */
  lemma {:induction false} ExpectedWidth(infos: seq<Cell>, i: nat)
    requires i <= |infos| && CellsOk(infos)
    ensures Width(Expected(infos, i)) == Start(infos, i)
  {
    if i > 0 {
      ExpectedWidth(infos, i - 1);
      GlyphColumns(infos, i - 1);
      WidthGlyphs(Expected(infos, i - 1), Glyphs(infos, i - 1), Word(infos[i - 1]));
    }
  }

  predicate AllGlyphs(items: seq<Item>) {
    forall i :: 0 <= i < |items| ==> items[i].Glyph?
  }

  function Total(glyphs: seq<Item>): nat
    requires AllGlyphs(glyphs)
  {
    if glyphs == [] then 0 else Total(glyphs[..|glyphs| - 1]) + glyphs[|glyphs| - 1].columns
  }

  lemma {:induction false} GlyphColumns(infos: seq<Cell>, i: nat)
    requires i < |infos| && infos[i].ch < 0x1_0000
    ensures AllGlyphs(Glyphs(infos, i)) && Total(Glyphs(infos, i)) == Columns(infos, i)
  {
    var g := Glyphs(infos, i);
    if |g| == 2 {
      assert g[..1] == [g[0]] && g[..1][..0] == [];
      assert Total(g[..1]) == g[0].columns;
    } else if |g| == 1 {
      assert g[..0] == [];
    }
  }

  lemma {:induction false} WidthGlyphs(marks: seq<Mark>, glyphs: seq<Item>, word: nat)
    requires AllGlyphs(glyphs)
    ensures Width(marks + Colored(glyphs, word)) == Width(marks) + Total(glyphs)
  {
    if glyphs == [] {
      assert marks + Colored(glyphs, word) == marks;
    } else {
      var n := |glyphs| - 1;
      WidthGlyphs(marks, glyphs[..n], word);
      WidthPush(marks + Colored(glyphs[..n], word), (glyphs[n], word));
      assert Colored(glyphs, word) == Colored(glyphs[..n], word) + [(glyphs[n], word)];
      assert marks + Colored(glyphs, word) == marks + Colored(glyphs[..n], word) + [(glyphs[n], word)];
    }
  }

  /** Where the glyph of cell i starts. */
  function Start(infos: seq<Cell>, i: nat): nat
    requires i <= |infos|
  {
    if i == 0 then 0 else Start(infos, i - 1) + Columns(infos, i - 1)
  }

  /** Every glyph starts in the column of its cell, and the run ends where it should. */
  ghost predicate Aligned(infos: seq<Cell>) {
    && Start(infos, |infos|) == |infos|
    && forall i :: 0 <= i < |infos| && Columns(infos, i) > 0 ==> Start(infos, i) == i
  }

  /** Within the run every leading half is followed by a trailing one, and every trailing one preceded by a
      leading one. */
  ghost predicate Paired(infos: seq<Cell>) {
    && (forall i {:trigger infos[i]} :: 0 <= i < |infos| - 1 && infos[i].lead ==> infos[i + 1].trail && !infos[i + 1].lead)
    && (forall i {:trigger infos[i]} :: 0 < i < |infos| && infos[i].trail && !infos[i].lead ==> infos[i - 1].lead)
  }

  lemma {:induction false} PairedStart(infos: seq<Cell>, i: nat)
    requires Paired(infos) && i <= |infos|
    ensures Start(infos, i) == if 0 < i < |infos| && infos[i - 1].lead then i + 1 else i
  {
    if i > 0 {
      PairedStart(infos, i - 1);
      assert infos[i - 1] == infos[i - 1];
      if 1 < i && infos[i - 2].lead {
        assert infos[i - 2 + 1].trail;
      }
    }
  }

  /** If the glyphs are aligned, a cell's place is never before it, and at most one column after it. */
  lemma {:induction false} AlignedStart(infos: seq<Cell>, i: nat)
    requires Aligned(infos) && i <= |infos|
    ensures i <= Start(infos, i)
    decreases |infos| - i
  {
    if i < |infos| && Columns(infos, i) == 0 {
      AlignedStart(infos, i + 1);
    }
  }

  lemma {:induction false} AlignedStartAtMost(infos: seq<Cell>, i: nat)
    requires Aligned(infos) && i <= |infos|
    ensures Start(infos, i) <= i + 1
  {
    if i > 0 && Columns(infos, i - 1) == 0 {
      AlignedStartAtMost(infos, i - 1);
    }
  }

  /** One column per cell exactly if the halves of wide glyphs are paired. */
  lemma {:induction false} AlignedIffPaired(infos: seq<Cell>)
    ensures Aligned(infos) <==> Paired(infos)
  {
    if Paired(infos) {
      forall i | 0 <= i <= |infos|
        ensures Start(infos, i) == if 0 < i < |infos| && infos[i - 1].lead then i + 1 else i
      {
        PairedStart(infos, i);
      }
      forall i | 0 <= i < |infos| && Columns(infos, i) > 0 ensures Start(infos, i) == i {
        assert i > 0 ==> infos[i - 1] == infos[i - 1];
      }
    }
    if Aligned(infos) {
      forall i | 0 <= i < |infos| - 1 && infos[i].lead ensures infos[i + 1].trail && !infos[i + 1].lead {
        assert Start(infos, i) == i && Start(infos, i + 1) == i + 2;
        assert Columns(infos, i + 1) == 0;
      }
      forall i | 0 < i < |infos| && infos[i].trail && !infos[i].lead ensures infos[i - 1].lead {
        AlignedStart(infos, i + 1);
        AlignedStartAtMost(infos, i - 1);
        assert Start(infos, i + 1) == Start(infos, i);
      }
    }
  }
}
