/** Printing a list of arguments as one command line, and reading it back. */
module CommandLine {
  import opened Basics

  const BS: char := '\\'
  const QUOTE: char := '"'

  predicate Blank(c: char) {
    c == ' ' || c == '\t'
  }

  predicate HasBlank(arg: string) {
    exists i :: 0 <= i < |arg| && Blank(arg[i])
  }

  function Slashes(n: nat): string {
    seq(n, _ => BS)
  }

  // ----- printing

  /** The body of an escaped argument, given that it directly follows k backslashes of its own:
      backslashes are doubled before a quote, and the quote gets one more. */
  function Body(arg: string, k: nat): string {
    if arg == "" then ""
    else if arg[0] == BS then [BS] + Body(arg[1..], k + 1)
    else if arg[0] == QUOTE then Slashes(k + 1) + [QUOTE] + Body(arg[1..], 0)
    else [arg[0]] + Body(arg[1..], 0)
  }

  /** How many backslashes end the text, if it follows k of them. */
  function Trailing(arg: string, k: nat): nat {
    if arg == "" then k else Trailing(arg[1..], if arg[0] == BS then k + 1 else 0)
  }

  function Escaped(arg: string): string {
    if arg == "" then [QUOTE, QUOTE]
    else if HasBlank(arg) then [QUOTE] + Body(arg, 0) + Slashes(Trailing(arg, 0)) + [QUOTE]
    else Body(arg, 0)
  }

  /** EscapeArgument. */
  method EscapeArgument(ac: string) returns (buf: string)
    ensures buf == Escaped(ac)
  {
    if ac == "" {
      return [QUOTE, QUOTE];
    }
    var hasSpace, n := Measure(ac);
    if n == |ac| {
      PlainBody(ac, 0);
      return ac;
    }
    buf := if hasSpace then [QUOTE] else "";
    var body, slashes := EscapeBody(ac);
    buf := buf + body;
    if hasSpace {
      var more := AddSlashes(slashes);
      buf := buf + more;
      buf := buf + [QUOTE];
    }
  }

  /** The first pass: are there blanks, and how long could the result get. */
  method Measure(ac: string) returns (hasSpace: bool, n: nat)
    ensures hasSpace <==> HasBlank(ac)
    ensures n == |ac| ==> !hasSpace && forall j :: 0 <= j < |ac| ==> ac[j] != QUOTE && ac[j] != BS
    ensures n >= |ac|
  {
    hasSpace, n := false, |ac|;
    var i := 0;
    while i < |ac|
      invariant 0 <= i <= |ac| && n >= |ac|
      invariant hasSpace <==> HasBlank(ac[..i])
      invariant n == |ac| <==> forall j :: 0 <= j < i ==> ac[j] != QUOTE && ac[j] != BS
    {
      HasBlankPush(ac[..i], ac[i]);
      assert ac[..i + 1] == ac[..i] + [ac[i]];
      if ac[i] == QUOTE || ac[i] == BS {
        n := n + 1;
      } else if ac[i] == ' ' || ac[i] == '\t' {
        hasSpace := true;
      }
      i := i + 1;
    }
    assert ac[..i] == ac;
    if hasSpace {
      n := n + 2;
    }
  }

  /** The second pass: copies the text, doubling backslashes before quotes. */
  method EscapeBody(ac: string) returns (buf: string, slashes: nat)
    ensures buf == Body(ac, 0) && slashes == Trailing(ac, 0)
  {
    buf, slashes := "", 0;
    var i := 0;
    assert ac[0..] == ac;
    while i < |ac|
      invariant 0 <= i <= |ac|
      invariant buf + Body(ac[i..], slashes) == Body(ac, 0)
      invariant Trailing(ac[i..], slashes) == Trailing(ac, 0)
    {
      ghost var before, rest := buf, ac[i + 1..];
      assert ac[i..][0] == ac[i] && ac[i..][1..] == rest;
      if ac[i] == BS {
        slashes := slashes + 1;
        buf := buf + [BS];
        JoinMore(before, [BS], Body(rest, slashes));
      } else if ac[i] == QUOTE {
        var more := AddSlashes(slashes);
        QuoteAppended(buf, more, slashes, Body(rest, 0));
        buf := buf + more + [BS] + [ac[i]];
        slashes := 0;
      } else {
        slashes := 0;
        buf := buf + [ac[i]];
        JoinMore(before, [ac[i]], Body(rest, 0));
      }
      i := i + 1;
    }
  }

  lemma {:induction false} QuoteAppended(buf: string, more: string, k: nat, rest: string)
    requires more == Slashes(k)
    ensures buf + (Slashes(k + 1) + [QUOTE] + rest) == buf + more + [BS] + [QUOTE] + rest
  {
    assert Slashes(k + 1) == Slashes(k) + [BS];
    JoinMore(buf, more + [BS] + [QUOTE], rest);
    JoinMore(buf, more + [BS], [QUOTE]);
    JoinMore(buf, more, [BS]);
  }

  method AddSlashes(n: nat) returns (s: string)
    ensures s == Slashes(n)
  {
    s := "";
    var k := n;
    while k > 0
      invariant 0 <= k <= n && s == Slashes(n - k)
    {
      s := s + [BS];
      k := k - 1;
    }
  }

  lemma {:induction false} HasBlankPush(s: string, c: char)
    ensures HasBlank(s + [c]) <==> HasBlank(s) || Blank(c)
  {
    if HasBlank(s) {
      var i :| 0 <= i < |s| && Blank(s[i]);
      assert Blank((s + [c])[i]);
    }
    if Blank(c) {
      assert Blank((s + [c])[|s|]);
    }
  }

  lemma {:induction false} PlainBody(arg: string, k: nat)
    requires forall i :: 0 <= i < |arg| ==> arg[i] != QUOTE && arg[i] != BS
    ensures Body(arg, k) == arg
  {
    if arg != "" {
      PlainBody(arg[1..], 0);
    }
  }

  ghost predicate HasQuote(arg: string) {
    exists i :: 0 <= i < |arg| && arg[i] == QUOTE
  }

  lemma {:induction false} QuotelessBody(arg: string, k: nat)
    requires !HasQuote(arg)
    ensures Body(arg, k) == arg && (arg != "" && arg[|arg| - 1] != BS ==> Trailing(arg, k) == 0)
  {
    if arg != "" {
      var rest := arg[1..];
      assert forall i :: 0 <= i < |rest| ==> rest[i] == arg[i + 1];
      QuotelessBody(rest, if arg[0] == BS then k + 1 else 0);
      assert |arg| > 1 ==> rest[|rest| - 1] == arg[|arg| - 1];
    }
  }

  /** Nothing is escaped without need: quotes are put around an argument exactly if it is empty or has a blank, and
      backslashes in text without quotes are left alone. */
  lemma {:induction false} EscapedOnlyIfNeeded(arg: string)
    ensures Escaped(arg) != "" && (Escaped(arg)[0] == QUOTE <==> arg == "" || HasBlank(arg))
    ensures arg != "" && !HasBlank(arg) && !HasQuote(arg) ==> Escaped(arg) == arg
    ensures HasBlank(arg) && !HasQuote(arg) && arg[|arg| - 1] != BS ==> Escaped(arg) == "\"" + arg + "\""
  {
    if !HasQuote(arg) {
      QuotelessBody(arg, 0);
    }
  }

  // ----- reading

  /** The rules of CommandLineToArgvW for the arguments after the program name.  `cur` is the argument
      being read, if any; `slashes` backslashes have been read and not yet taken into it. */
  datatype Reading = Between | In(cur: string, quoted: bool, slashes: nat)

  function Split(s: string, r: Reading): seq<string>
    decreases |s|, r.Between?
  {
    match r
    case Between =>
      if s == "" then []
      else if Blank(s[0]) then Split(s[1..], Between)
      else Split(s, In("", false, 0))
    case In(cur, quoted, k) =>
      if s == "" then [cur + Slashes(k)]
      else if s[0] == BS then Split(s[1..], In(cur, quoted, k + 1))
      else if s[0] == QUOTE then
        if k % 2 == 1 then Split(s[1..], In(cur + Slashes(k / 2) + [QUOTE], quoted, 0))
        else Split(s[1..], In(cur + Slashes(k / 2), !quoted, 0))
      else if Blank(s[0]) && !quoted then [cur + Slashes(k)] + Split(s[1..], Between)
      else Split(s[1..], In(cur + Slashes(k) + [s[0]], quoted, 0))
  }

  lemma {:induction false} ReadSlashes(n: nat, rest: string, cur: string, quoted: bool, k: nat)
    ensures Split(Slashes(n) + rest, In(cur, quoted, k)) == Split(rest, In(cur, quoted, k + n))
    decreases n
  {
    if n == 0 {
      assert Slashes(0) + rest == rest;
    } else {
      var s := Slashes(n) + rest;
      assert s[0] == BS && s[1..] == Slashes(n - 1) + rest;
      ReadSlashes(n - 1, rest, cur, quoted, k + 1);
    }
  }

  /** Reading an escaped body takes exactly the original text in, all but its trailing backslashes,
      which are still pending. */
  lemma {:induction false} ReadBody(arg: string, k: nat, rest: string, cur: string, quoted: bool) returns (cur': string)
    requires quoted || !HasBlank(arg)
    ensures Split(Body(arg, k) + rest, In(cur, quoted, k)) == Split(rest, In(cur', quoted, Trailing(arg, k)))
    ensures cur' + Slashes(Trailing(arg, k)) == cur + Slashes(k) + arg
    decreases arg
  {
    if arg == "" {
      assert Body(arg, k) + rest == rest;
      assert cur + Slashes(k) + arg == cur + Slashes(k);
      cur' := cur;
    } else {
      var c, tail := arg[0], arg[1..];
      assert arg == [c] + tail;
      TailBlank(arg);
      if c == BS {
        BodyStep(c, Body(tail, k + 1), rest);
        cur' := ReadBody(tail, k + 1, rest, cur, quoted);
        assert Slashes(k + 1) == Slashes(k) + [BS];
        assert cur + (Slashes(k) + [BS]) + tail == cur + Slashes(k) + ([BS] + tail);
      } else if c == QUOTE {
        ReadQuote(k, Body(tail, 0), rest, cur, quoted);
        cur' := ReadBody(tail, 0, rest, cur + Slashes(k) + [QUOTE], quoted);
        NothingPending(cur + Slashes(k), c, tail);
      } else {
        BodyStep(c, Body(tail, 0), rest);
        cur' := ReadBody(tail, 0, rest, cur + Slashes(k) + [c], quoted);
        NothingPending(cur + Slashes(k), c, tail);
      }
    }
  }

  lemma {:induction false} BodyStep(c: char, body: string, rest: string)
    ensures ([c] + body + rest)[0] == c && ([c] + body + rest)[1..] == body + rest
  {
  }

  lemma {:induction false} NothingPending(a: string, c: char, tail: string)
    ensures a + [c] + Slashes(0) + tail == a + ([c] + tail)
  {
  }

  /** An escaped quote: the pending backslashes are halved and the quote is literal. */
  lemma {:induction false} ReadQuote(k: nat, body: string, rest: string, cur: string, quoted: bool)
    ensures Split(Slashes(k + 1) + [QUOTE] + body + rest, In(cur, quoted, k))
         == Split(body + rest, In(cur + Slashes(k) + [QUOTE], quoted, 0))
  {
    var after := [QUOTE] + (body + rest);
    assert Slashes(k + 1) + [QUOTE] + body + rest == Slashes(k + 1) + after;
    ReadSlashes(k + 1, after, cur, quoted, k);
    assert after[1..] == body + rest && (k + k + 1) % 2 == 1 && (k + k + 1) / 2 == k;
  }

  lemma {:induction false} TailBlank(arg: string)
    requires arg != ""
    ensures HasBlank(arg) <==> Blank(arg[0]) || HasBlank(arg[1..])
  {
    if HasBlank(arg[1..]) {
      var i :| 0 <= i < |arg[1..]| && Blank(arg[1..][i]);
      assert Blank(arg[i + 1]);
    }
  }

  /** What follows an argument on the line. */
  ghost predicate Separates(rest: string) {
    rest == "" || Blank(rest[0])
  }

  function AfterArgument(rest: string): seq<string> {
    if rest == "" then [] else Split(rest[1..], Between)
  }

  lemma {:induction false} EndOfArgument(cur: string, k: nat, rest: string)
    requires Separates(rest)
    ensures Split(rest, In(cur, false, k)) == [cur + Slashes(k)] + AfterArgument(rest)
  {
  }

  lemma {:induction false} ReadEmpty(rest: string)
    requires Separates(rest)
    ensures Split([QUOTE, QUOTE] + rest, In("", false, 0)) == [""] + AfterArgument(rest)
  {
    var s := [QUOTE, QUOTE] + rest;
    assert s[1..][0] == QUOTE && s[1..][1..] == rest;
    assert Slashes(0) == "" && "" + Slashes(0) == "";
    assert Split(s, In("", false, 0)) == Split(s[1..], In("", true, 0));
    EndOfArgument("", 0, rest);
  }

  lemma {:induction false} ReadQuoted(arg: string, rest: string)
    requires Separates(rest)
    ensures Split([QUOTE] + Body(arg, 0) + Slashes(Trailing(arg, 0)) + [QUOTE] + rest, In("", false, 0))
         == [arg] + AfterArgument(rest)
  {
    var k := Trailing(arg, 0);
    var closing := [QUOTE] + rest;
    var after := Slashes(k) + closing;
    var s := [QUOTE] + Body(arg, 0) + Slashes(k) + [QUOTE] + rest;
    assert s == [QUOTE] + (Body(arg, 0) + after);
    assert s[1..] == Body(arg, 0) + after;
    assert Slashes(0) == "" && "" + Slashes(0) == "";
    assert Split(s, In("", false, 0)) == Split(s[1..], In("", true, 0));
    var cur := ReadBody(arg, 0, after, "", true);
    assert cur + Slashes(k) == arg by {
      assert "" + Slashes(0) + arg == arg;
    }
    ReadSlashes(k, closing, cur, true, k);
    CloseQuote(cur, k, rest);
    EndOfArgument(arg, 0, rest);
    assert arg + Slashes(0) == arg;
  }

  lemma {:induction false} CloseQuote(cur: string, k: nat, rest: string)
    ensures Split([QUOTE] + rest, In(cur, true, k + k)) == Split(rest, In(cur + Slashes(k), false, 0))
  {
    assert ([QUOTE] + rest)[1..] == rest && (k + k) % 2 == 0 && (k + k) / 2 == k;
  }

  lemma {:induction false} ReadPlain(arg: string, rest: string)
    requires Separates(rest) && !HasBlank(arg)
    ensures Split(Body(arg, 0) + rest, In("", false, 0)) == [arg] + AfterArgument(rest)
  {
    var cur := ReadBody(arg, 0, rest, "", false);
    EndOfArgument(cur, Trailing(arg, 0), rest);
    assert "" + Slashes(0) + arg == arg;
  }

  /** An escaped argument is read back as it was. */
  lemma {:induction false} ReadArgument(arg: string, rest: string)
    requires Separates(rest)
    ensures Split(Escaped(arg) + rest, Between) == [arg] + AfterArgument(rest)
  {
    var s := Escaped(arg) + rest;
    EscapedStarts(arg);
    assert s[0] == Escaped(arg)[0];
    assert Split(s, Between) == Split(s, In("", false, 0));
    if arg == "" {
      ReadEmpty(rest);
    } else if HasBlank(arg) {
      ReadQuoted(arg, rest);
    } else {
      ReadPlain(arg, rest);
    }
  }

  lemma {:induction false} EscapedStarts(arg: string)
    ensures Escaped(arg) != "" && !Blank(Escaped(arg)[0])
  {
    if arg != "" && !HasBlank(arg) {
      FirstOfBody(arg);
    }
  }

  lemma {:induction false} FirstOfBody(arg: string)
    requires arg != "" && !HasBlank(arg)
    ensures Body(arg, 0) != "" && !Blank(Body(arg, 0)[0])
  {
    assert !Blank(arg[0]);
  }

  /** The escaped arguments joined with single spaces, as _GetClientCommandline does it. */
  function Joined(args: seq<string>): string {
    if args == [] then ""
    else Escaped(args[0]) + if |args| == 1 then "" else " " + Joined(args[1..])
  }

  /** Printing a list of arguments and splitting the line returns exactly the list. */
  lemma {:induction false} SplitJoined(args: seq<string>)
    ensures Split(Joined(args), Between) == args
    decreases |args|
  {
    if args != [] {
      var rest := if |args| == 1 then "" else " " + Joined(args[1..]);
      ReadArgument(args[0], rest);
      if |args| > 1 {
        assert rest[1..] == Joined(args[1..]);
        SplitJoined(args[1..]);
      }
    }
  }
}
