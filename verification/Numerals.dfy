/** Numbers as text: what printf writes in decimal and hexadecimal, and what stoi and wcstoul read. */
module Numerals {
  import opened Basics

  predicate DigitIn(c: char, base: nat) {
    DigitValue(c) < base
  }

  /** The value of a digit; 36 for any other character. */
  function DigitValue(c: char): nat {
    if '0' <= c <= '9' then c as int - '0' as int
    else if 'a' <= c <= 'z' then c as int - 'a' as int + 10
    else if 'A' <= c <= 'Z' then c as int - 'A' as int + 10
    else 36
  }

  function Digit(d: nat): (c: char)
    requires d < 16
    ensures DigitValue(c) == d
  {
    "0123456789abcdef"[d]
  }

  /** The shortest numeral. */
  function Numeral(n: nat, base: nat): (s: string)
    requires base == 10 || base == 16
    ensures s != ""
  {
    if n < base then [Digit(n)] else Numeral(n / base, base) + [Digit(n % base)]
  }

  function Value(s: string, base: nat): nat {
    if s == "" then 0 else Value(s[..|s| - 1], base) * base + DigitValue(s[|s| - 1])
  }

  /** The length of the longest run of digits at the front. */
  function Run(s: string, base: nat): (n: nat)
    ensures n <= |s|
  {
    if s == "" || !DigitIn(s[0], base) then 0 else 1 + Run(s[1..], base)
  }

  predicate AllDigits(s: string, base: nat) {
    forall i :: 0 <= i < |s| ==> DigitIn(s[i], base)
  }

  lemma {:induction false} RunOfDigits(s: string, base: nat)
    requires AllDigits(s, base)
    ensures Run(s, base) == |s|
  {
    if s != "" {
      RunOfDigits(s[1..], base);
    }
  }

  lemma {:induction false} ValuePush(s: string, c: char, base: nat)
    ensures Value(s + [c], base) == Value(s, base) * base + DigitValue(c)
  {
    assert (s + [c])[..|s|] == s;
  }

  lemma {:induction false} NumeralValue(n: nat, base: nat)
    requires base == 10 || base == 16
    ensures AllDigits(Numeral(n, base), base) && Value(Numeral(n, base), base) == n
  {
    if n >= base {
      NumeralValue(n / base, base);
      var front := Numeral(n / base, base);
      ValuePush(front, Digit(n % base), base);
    } else {
      assert [Digit(n)][..0] == "";
    }
  }

  // ----- decimal integers

  predicate Space(c: char) {
    c in " \t\n\r" || c as int == 11 || c as int == 12
  }

  /** What printf writes for a signed number. */
  function Decimal(n: int): string {
    if n < 0 then "-" + Numeral(-n, 10) else Numeral(n, 10)
  }

  /** stoi: the value, and how many characters it took; nothing if it throws. */
  function Stoi(s: string): Option<(int, nat)> {
    if s == "" then None
    else if Space(s[0]) then
      var r := Stoi(s[1..]);
      if r.None? then None else Some((r.value.0, r.value.1 + 1))
    else
      var sign := if s[0] == '-' || s[0] == '+' then 1 else 0;
      var n := Run(s[sign..], 10);
      var m := Value(s[sign..][..n], 10);
      var v := if s[0] == '-' then 0 - m else m;
      if n == 0 || !(-0x8000_0000 <= v < 0x8000_0000) then None else Some((v, sign + n))
  }

  /** Reading back a printed number. */
  lemma {:induction false} StoiDecimal(n: int)
    requires -0x8000_0000 <= n < 0x8000_0000
    ensures Stoi(Decimal(n)) == Some((n, |Decimal(n)|))
  {
    var m := if n < 0 then -n else n;
    var digits, s := Numeral(m, 10), Decimal(n);
    NumeralValue(m, 10);
    RunOfDigits(digits, 10);
    assert digits[..|digits|] == digits;
    if n < 0 {
      assert s[1..] == digits;
    } else {
      assert DigitIn(s[0], 10) && !Space(s[0]);
      assert s[0..] == digits;
    }
  }

  // ----- hexadecimal handles

  /** wcstoul of a text that starts with 0x: the digits that follow, at most the largest 32-bit number. */
  function Wcstoul(s: string): (v: nat)
    requires "0x" <= s
    ensures v <= 0xFFFF_FFFF
  {
    var v := Value(s[2..][..Run(s[2..], 16)], 16);
    if v <= 0xFFFF_FFFF then v else 0xFFFF_FFFF
  }

  lemma {:induction false} WcstoulHex(n: nat)
    ensures Wcstoul("0x" + Numeral(n, 16)) == if n <= 0xFFFF_FFFF then n else 0xFFFF_FFFF
  {
    var digits := Numeral(n, 16);
    NumeralValue(n, 16);
    RunOfDigits(digits, 16);
    assert ("0x" + digits)[2..] == digits && digits[..|digits|] == digits;
  }

  // ----- examples

  lemma {:induction false} PrintedExamples()
    ensures Decimal(120) == "120" && Decimal(-7) == "-7" && Numeral(0xFF, 16) == "ff"
  {
    assert Numeral(1, 10) == "1" && Numeral(12, 10) == "12";
    assert Numeral(15, 16) == "f";
  }

  /** Blanks and a sign may come first, and anything that is not a digit ends the number. */
  lemma {:induction false} ReadExamples()
    ensures Stoi(" +7x") == Some((7, 3)) && Stoi("-") == None && Wcstoul("0xFg") == 15
  {
    var s, t, u := "+7x", "7x", "0xFg";
    assert " +7x"[1..] == s && s[1..] == t && t[1..] == "x";
    assert Run("x", 10) == 0 && Run(t, 10) == 1 && t[..1] == "7" && "7"[..0] == "";
    assert "-"[1..] == "";
    assert u[2..] == "Fg" && "Fg"[1..] == "g" && Run("g", 16) == 0 && Run("Fg", 16) == 1 && "Fg"[..1] == "F" && "F"[..0] == "";
    assert Value("F", 16) == 15;
  }
}
