/** The translation of line feeds for terminals whose line feed does not return the carriage. */
module VtNewlines {
  import opened Basics

  const CR: char := '\r'
  const LF: char := '\n'

  // ----- the rewriting loop

  /** `out`, the text from b to e still to be copied, and the translation of the rest are the whole. */
  ghost predicate OnTrack(str: string, out: string, b: nat, e: nat)
    requires b <= e <= |str|
  {
    out + str[b..e] + Translated(str, e, b < e) == Translated(str, 0, false)
  }

  /** WriteUTF16TranslateCRLF: the text that reaches the back buffer. */
  method Translate(str: string) returns (out: string)
    ensures out == Translated(str, 0, false) && out == Returned(str, 0)
  {
    SameReturns(str, 0, false);
    out := "";
    var begCopy, endCopy := 0, 0;
    while true
      invariant 0 <= begCopy <= endCopy <= |str| && (begCopy == endCopy ==> begCopy == 0)
      invariant OnTrack(str, out, begCopy, endCopy)
      invariant begCopy < endCopy < |str| ==> str[endCopy] != LF && str[endCopy] != CR
      decreases |str| - begCopy, endCopy == begCopy
    {
      ghost var from := endCopy;
      endCopy := FindLineFeed(str, endCopy);
      TextCopied(str, out, begCopy, from, endCopy);
      out := out + str[begCopy..endCopy];
      begCopy := endCopy;
      if begCopy == |str| {
        break;
      }
      ghost var before := out;
      if begCopy == 0 || str[begCopy - 1] != CR {
        out := out + [CR];
      }
      endCopy := SkipRun(str, endCopy + 1);
      RunReached(str, before, out, begCopy, endCopy);
    }
  }

  /** After the text up to e, where the next line feed or the end is, has been copied. */
  lemma {:induction false} TextCopied(str: string, out: string, b: nat, from: nat, e: nat)
    requires b <= from <= e <= |str| && OnTrack(str, out, b, from) && (b == from ==> b == 0)
    requires forall i :: from <= i < e ==> str[i] != LF
    requires e < |str| ==> str[e] == LF
    requires b < from < |str| ==> str[from] != LF && str[from] != CR
    ensures out + str[b..e] + Translated(str, e, false) == Translated(str, 0, false)
  {
    PlainText(str, from, e, b < from);
    CopiedSoFar(out, str, b, from, e, Translated(str, e, false));
  }

  /** After the return has been put in, if one is needed, and the run from the line feed at b skipped. */
  lemma {:induction false} RunReached(str: string, before: string, out: string, b: nat, e: nat)
    requires b < e <= |str| && str[b] == LF
    requires before + Translated(str, b, false) == Translated(str, 0, false)
    requires out == before + if b > 0 && str[b - 1] == CR then [] else [CR]
    requires forall i :: b < i < e ==> str[i] == LF || str[i] == CR
    ensures OnTrack(str, out, b, e)
  {
    var tail := Translated(str, b + 1, true);
    LineFeed(str, b);
    if b > 0 && str[b - 1] == CR {
      assert out == before;
    } else {
      JoinMore(before, [CR], [LF] + tail);
      assert [CR, LF] + tail == [CR] + ([LF] + tail);
    }
    assert before + Translated(str, b, false) == out + ([LF] + tail);
    RunText(str, b + 1, e);
    Glue(str, b, e, Translated(str, e, true));
    JoinMore(out, str[b..e], Translated(str, e, true));
  }

  method FindLineFeed(str: string, from: nat) returns (k: nat)
    requires from <= |str|
    ensures from <= k <= |str| && (k < |str| ==> str[k] == LF)
    ensures forall i :: from <= i < k ==> str[i] != LF
  {
    k := from;
    while k < |str| && str[k] != LF
      invariant from <= k <= |str|
      invariant forall i :: from <= i < k ==> str[i] != LF
    {
      k := k + 1;
    }
  }

  method SkipRun(str: string, from: nat) returns (k: nat)
    requires from <= |str|
    ensures from <= k <= |str| && (k < |str| ==> str[k] != LF && str[k] != CR)
    ensures forall i :: from <= i < k ==> str[i] == LF || str[i] == CR
  {
    k := from;
    while k < |str| && (str[k] == LF || str[k] == CR)
      invariant from <= k <= |str|
      invariant forall i :: from <= i < k ==> str[i] == LF || str[i] == CR
    {
      k := k + 1;
    }
  }

  lemma {:induction false} CopiedSoFar(out: string, str: string, b: nat, from: nat, e: nat, rest: string)
    requires b <= from <= e <= |str|
    ensures out + str[b..from] + (str[from..e] + rest) == out + str[b..e] + rest
  {
    assert str[b..e] == str[b..from] + str[from..e];
  }

  lemma {:induction false} LineFeed(str: string, i: nat)
    requires i < |str| && str[i] == LF
    ensures Translated(str, i, false) == (if i > 0 && str[i - 1] == CR then [LF] else [CR, LF]) + Translated(str, i + 1, true)
  {
  }

  /** Character by character: a line feed gets a return before it unless it stands directly after one
      or in a run of returns and line feeds that began with a line feed. */
  function Translated(str: string, i: nat, inRun: bool): string
    requires i <= |str|
    decreases |str| - i
  {
    if i == |str| then ""
    else if str[i] == LF then
      (if inRun || (i > 0 && str[i - 1] == CR) then [LF] else [CR, LF]) + Translated(str, i + 1, true)
    else [str[i]] + Translated(str, i + 1, inRun && str[i] == CR)
  }

  /** Text without line feeds is copied; a run of returns and line feeds does not reach past anything else. */
  lemma {:induction false} PlainText(str: string, i: nat, j: nat, inRun: bool)
    requires i <= j <= |str|
    requires forall k :: i <= k < j ==> str[k] != LF
    requires inRun && i < |str| ==> str[i] != CR
    ensures Translated(str, i, inRun) == str[i..j] + Translated(str, j, inRun && i == j)
    decreases j - i
  {
    if i < j {
      PlainText(str, i + 1, j, false);
      Glue(str, i, j, Translated(str, j, false));
    } else {
      assert str[i..j] == "";
    }
  }

  lemma {:induction false} RunText(str: string, i: nat, j: nat)
    requires i <= j <= |str|
    requires forall k :: i <= k < j ==> str[k] == LF || str[k] == CR
    ensures Translated(str, i, true) == str[i..j] + Translated(str, j, true)
    decreases j - i
  {
    if i < j {
      RunText(str, i + 1, j);
      Glue(str, i, j, Translated(str, j, true));
    } else {
      assert str[i..j] == "";
    }
  }

  lemma {:induction false} Glue(str: string, i: nat, j: nat, rest: string)
    requires i < j <= |str|
    ensures [str[i]] + (str[i + 1..j] + rest) == str[i..j] + rest
  {
    assert str[i..j] == [str[i]] + str[i + 1..j];
  }

  /** The same without looking back further: a return is put in before a line feed exactly if the character before
      that is neither a return nor a line feed. */
  function Returned(str: string, i: nat): string
    requires i <= |str|
    decreases |str| - i
  {
    if i == |str| then ""
    else if str[i] == '\n' && (i == 0 || (str[i - 1] != '\r' && str[i - 1] != '\n')) then "\r\n" + Returned(str, i + 1)
    else [str[i]] + Returned(str, i + 1)
  }

  lemma {:induction false} SameReturns(str: string, i: nat, inRun: bool)
    requires i <= |str| && (inRun ==> i > 0 && (str[i - 1] == CR || str[i - 1] == LF))
    requires i > 0 && str[i - 1] == LF ==> inRun
    ensures Translated(str, i, inRun) == Returned(str, i)
    decreases |str| - i
  {
    if i < |str| {
      SameReturns(str, i + 1, str[i] == LF || (inRun && str[i] == CR));
    }
  }

  // ----- what the translation means to a terminal

  /** Any terminal: some state, a carriage return, a line feed that keeps the column, and whatever the
      other characters do.  All that is asked of it is that a return puts it where another return
      changes nothing, and that a line feed taken there stays there. */
  datatype Terminal<!S(!new)> = Terminal(cr: S -> S, lf: S -> S, other: (S, char) -> S) {
    ghost predicate AtStart(s: S) {
      cr(s) == s
    }

    ghost predicate Ok() {
      && (forall s: S :: AtStart(cr(s)))
      && (forall s: S :: AtStart(s) ==> AtStart(lf(s)))
    }

    /** A character on the terminal as it is. */
    function Put(s: S, c: char): S {
      if c == CR then cr(s) else if c == LF then lf(s) else other(s, c)
    }

    /** A character on one whose line feed also returns the carriage. */
    function PutReturning(s: S, c: char): S {
      if c == LF then lf(cr(s)) else Put(s, c)
    }

    function Run(s: S, text: string): S {
      if text == "" then s else Run(Put(s, text[0]), text[1..])
    }

    function RunReturning(s: S, text: string): S {
      if text == "" then s else RunReturning(PutReturning(s, text[0]), text[1..])
    }
  }

  lemma {:induction false} RunConcat<S(!new)>(t: Terminal<S>, s: S, a: string, b: string)
    ensures t.Run(s, a + b) == t.Run(t.Run(s, a), b)
    decreases |a|
  {
    if a == "" {
      assert a + b == b;
    } else {
      assert (a + b)[1..] == a[1..] + b;
      RunConcat(t, t.Put(s, a[0]), a[1..], b);
    }
  }

  /** The translated text does on the terminal as it is what the original does on a returning one. */
  lemma {:induction false} TranslationFrom<S(!new)>(t: Terminal<S>, s: S, str: string, i: nat, inRun: bool)
    requires t.Ok() && i <= |str|
    requires inRun || (i > 0 && str[i - 1] == CR) ==> t.AtStart(s)
    ensures t.Run(s, Translated(str, i, inRun)) == t.RunReturning(s, str[i..])
    decreases |str| - i
  {
    if i < |str| {
      var c := str[i];
      assert str[i..][1..] == str[i + 1..];
      var head := if c != LF then [c] else if inRun || (i > 0 && str[i - 1] == CR) then [LF] else [CR, LF];
      var rest := Translated(str, i + 1, if c == LF then true else inRun && c == CR);
      assert Translated(str, i, inRun) == head + rest;
      RunConcat(t, s, head, rest);
      RunHead(t, s, head);
      TranslationFrom(t, t.PutReturning(s, c), str, i + 1, if c == LF then true else inRun && c == CR);
    }
  }

  lemma {:induction false} RunHead<S(!new)>(t: Terminal<S>, s: S, head: string)
    requires |head| == 1 || |head| == 2
    ensures t.Run(s, head) == if |head| == 1 then t.Put(s, head[0]) else t.Put(t.Put(s, head[0]), head[1])
  {
    assert |head| == 1 ==> head[1..] == "";
    if |head| == 2 {
      assert head[1..][0] == head[1] && head[1..][1..] == "";
      assert t.Run(s, head) == t.Run(t.Put(s, head[0]), head[1..]);
    }
  }

  lemma {:induction false} TranslationMeans<S(!new)>(t: Terminal<S>, s: S, str: string)
    requires t.Ok()
    ensures t.Run(s, Translated(str, 0, false)) == t.RunReturning(s, str)
  {
    TranslationFrom(t, s, str, 0, false);
    assert str[0..] == str;
  }

  // ----- what the translation changes

  /** out is text with some carriage returns put in directly before line feeds, and nothing else. */
  ghost predicate OnlyReturnsAdded(text: string, out: string)
    decreases |out|
  {
    || (text == "" && out == "")
    || (text != "" && out != "" && text[0] == out[0] && OnlyReturnsAdded(text[1..], out[1..]))
    || (text != "" && |out| >= 2 && text[0] == LF && out[0] == CR && out[1] == LF && OnlyReturnsAdded(text[1..], out[2..]))
  }

  /** Deleting the added returns gives back the input. */
  lemma {:induction false} TranslationAdds(str: string, i: nat, inRun: bool)
    requires i <= |str|
    ensures OnlyReturnsAdded(str[i..], Translated(str, i, inRun))
    decreases |str| - i
  {
    if i < |str| {
      var next := if str[i] == LF then true else inRun && str[i] == CR;
      var rest := Translated(str, i + 1, next);
      TranslationAdds(str, i + 1, next);
      var text := str[i..];
      assert text[1..] == str[i + 1..] && text[0] == str[i];
      if str[i] == LF && !inRun && !(i > 0 && str[i - 1] == CR) {
        var out := [CR, LF] + rest;
        assert Translated(str, i, inRun) == out && out[2..] == rest;
        assert OnlyReturnsAdded(text, out);
      } else {
        var out := [str[i]] + rest;
        assert Translated(str, i, inRun) == out && out[1..] == rest;
        assert OnlyReturnsAdded(text, out);
      }
    }
  }
}
