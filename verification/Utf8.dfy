/** UTF-8 as section 3 of RFC 3629 defines it, and the characters of UTF-16 text. */
module Utf8 {
  import opened Basics
  import opened Utf16

  /** A Unicode scalar value. */
  predicate Scalar(c: nat) {
    c < 0x11_0000 && !Surrogate(c)
  }

  predicate Units(text: seq<nat>) {
    forall i :: 0 <= i < |text| ==> text[i] < 0x1_0000
  }

  /** The first character of UTF-16 text: a surrogate that is not part of a pair is replaced. */
  function FirstScalar(text: seq<nat>): nat
    requires Units(text) && text != []
  {
    if Pair(text) then 0x1_0000 + (text[0] - 0xD800) * 0x400 + (text[1] - 0xDC00)
    else if Surrogate(text[0]) then REPLACEMENT
    else text[0]
  }

  function Taken(text: seq<nat>): (n: nat)
    requires text != []
    ensures 0 < n <= |text|
  {
    if Pair(text) then 2 else 1
  }

  function Scalars(text: seq<nat>): seq<nat>
    requires Units(text)
  {
    if text == [] then [] else [FirstScalar(text)] + Scalars(text[Taken(text)..])
  }

  predicate AllScalar(cs: seq<nat>) {
    forall i :: 0 <= i < |cs| ==> Scalar(cs[i])
  }

  /** The octets of one character. */
  function Octets(c: nat): seq<nat>
    requires Scalar(c)
  {
    if c < 0x80 then [c]
    else if c < 0x800 then [0xC0 + c / 0x40, 0x80 + c % 0x40]
    else if c < 0x1_0000 then [0xE0 + c / 0x1000, 0x80 + c / 0x40 % 0x40, 0x80 + c % 0x40]
    else [0xF0 + c / 0x4_0000, 0x80 + c / 0x1000 % 0x40, 0x80 + c / 0x40 % 0x40, 0x80 + c % 0x40]
  }

  function Encoded(cs: seq<nat>): seq<nat>
    requires AllScalar(cs)
  {
    if cs == [] then [] else Octets(cs[0]) + Encoded(cs[1..])
  }

  // ----- decoding

  predicate Tail(b: nat) {
    0x80 <= b < 0xC0
  }

  /** The number of octets that the first one announces. */
  function Announced(b: nat): nat {
    if b < 0x80 then 1 else if 0xC0 <= b < 0xE0 then 2 else if 0xE0 <= b < 0xF0 then 3 else if 0xF0 <= b < 0xF8 then 4 else 0
  }

  /** The number that the first n octets spell, if they are well formed: neither overlong nor a surrogate. */
  function First(s: seq<nat>): Option<nat>
    requires s != []
  {
    var n := Announced(s[0]);
    if n == 0 || n > |s| || !(forall i :: 1 <= i < n ==> Tail(s[i])) then None
    else
      var c :=
        if n == 1 then s[0]
        else if n == 2 then (s[0] - 0xC0) * 0x40 + (s[1] - 0x80)
        else if n == 3 then (s[0] - 0xE0) * 0x1000 + (s[1] - 0x80) * 0x40 + (s[2] - 0x80)
        else (s[0] - 0xF0) * 0x4_0000 + (s[1] - 0x80) * 0x1000 + (s[2] - 0x80) * 0x40 + (s[3] - 0x80);
      if Scalar(c) && c >= Least(n) then Some(c) else None
  }

  function Least(n: nat): nat {
    if n == 1 then 0 else if n == 2 then 0x80 else if n == 3 then 0x800 else 0x1_0000
  }

  function Decoded(s: seq<nat>): Option<seq<nat>> {
    if s == [] then Some([])
    else
      var c := First(s);
      if c.None? then None
      else
        var rest := Decoded(s[Announced(s[0])..]);
        if rest.None? then None else Some([c.value] + rest.value)
  }

  // ----- decoding undoes encoding

  /** The number in its places of 6 bits. */
  lemma {:induction false} Places(c: nat)
    requires c < 0x20_0000
    ensures c / 0x40 == c / 0x1000 * 0x40 + c / 0x40 % 0x40
    ensures c / 0x1000 == c / 0x4_0000 * 0x40 + c / 0x1000 % 0x40
  {
  }

  lemma {:induction false} FirstShort(c: nat, s: seq<nat>)
    requires Scalar(c) && c < 0x800 && Octets(c) <= s
    ensures Announced(s[0]) == |Octets(c)| && First(s) == Some(c)
  {
    var b := Octets(c);
    assert forall i :: 0 <= i < |b| ==> s[i] == b[i];
  }

  lemma {:induction false} FirstThree(c: nat, s: seq<nat>)
    requires Scalar(c) && 0x800 <= c < 0x1_0000 && Octets(c) <= s
    ensures Announced(s[0]) == 3 && First(s) == Some(c)
  {
    var b := Octets(c);
    assert s[0] == b[0] && s[1] == b[1] && s[2] == b[2];
    Places(c);
  }

  lemma {:induction false} FirstFour(c: nat, s: seq<nat>)
    requires Scalar(c) && 0x1_0000 <= c && Octets(c) <= s
    ensures Announced(s[0]) == 4 && First(s) == Some(c)
  {
    var b := Octets(c);
    assert s[0] == b[0] && s[1] == b[1] && s[2] == b[2] && s[3] == b[3];
    Places(c);
  }

  lemma {:induction false} FirstOctets(c: nat, rest: seq<nat>)
    requires Scalar(c)
    ensures var s := Octets(c) + rest;
      Announced(s[0]) == |Octets(c)| && First(s) == Some(c) && s[|Octets(c)|..] == rest
  {
    var s := Octets(c) + rest;
    if c < 0x800 {
      FirstShort(c, s);
    } else if c < 0x1_0000 {
      FirstThree(c, s);
    } else {
      FirstFour(c, s);
    }
  }

  lemma {:induction false} DecodedEncoded(cs: seq<nat>)
    requires AllScalar(cs)
    ensures Decoded(Encoded(cs)) == Some(cs)
  {
    if cs != [] {
      DecodedEncoded(cs[1..]);
      FirstOctets(cs[0], Encoded(cs[1..]));
      assert [cs[0]] + cs[1..] == cs;
    }
  }

  lemma {:induction false} EncodedJoin(a: seq<nat>, b: seq<nat>)
    requires AllScalar(a) && AllScalar(b)
    ensures Encoded(a + b) == Encoded(a) + Encoded(b)
    decreases |a|
  {
    if a == [] {
      assert a + b == b;
    } else {
      assert (a + b)[0] == a[0] && (a + b)[1..] == a[1..] + b;
      EncodedJoin(a[1..], b);
    }
  }

  lemma {:induction false} EncodedOne(c: nat)
    requires Scalar(c)
    ensures Encoded([c]) == Octets(c)
  {
    assert [c][1..] == [];
  }

  /** Examples of section 7 of RFC 3629: a Latin letter, a symbol, a Greek letter and a stop. */
  lemma {:induction false} StandardExample()
    ensures var cs := [0x41, 0x2262, 0x391, 0x2E]; AllScalar(cs) && Encoded(cs) == [0x41, 0xE2, 0x89, 0xA2, 0xCE, 0x91, 0x2E]
  {
    var cs: seq<nat> := [0x41, 0x2262, 0x391, 0x2E];
    assert cs[1..] == [0x2262, 0x391, 0x2E] && cs[1..][1..] == [0x391, 0x2E] && cs[1..][1..][1..] == [0x2E];
    EncodedOne(0x2E);
    assert Octets(0x2262) == [0xE2, 0x89, 0xA2] && Octets(0x391) == [0xCE, 0x91];
  }

  /** ... and an ideograph beyond 16 bits, which UTF-16 spells as a surrogate pair. */
  lemma {:induction false} BeyondExample()
    ensures Octets(0x233B4) == [0xF0, 0xA3, 0x8E, 0xB4] && Scalars([0xD84C, 0xDFB4]) == [0x233B4]
  {
    var pair: seq<nat> := [0xD84C, 0xDFB4];
    assert pair[2..] == [] && Pair(pair);
  }

  // ----- the characters of joined text

  lemma {:induction false} ScalarsAreScalar(text: seq<nat>)
    requires Units(text)
    ensures AllScalar(Scalars(text))
    decreases |text|
  {
    if text != [] {
      ScalarsAreScalar(text[Taken(text)..]);
    }
  }

  /** No pair spans the cut between two texts. */
  predicate CleanCut(a: seq<nat>, b: seq<nat>) {
    a == [] || b == [] || !(0xD800 <= a[|a| - 1] < 0xDC00 <= b[0] < 0xE000)
  }

  lemma {:induction false} CutTail(a: seq<nat>, b: seq<nat>, n: nat)
    requires CleanCut(a, b) && n <= |a|
    ensures CleanCut(a[n..], b) && (a + b)[n..] == a[n..] + b
  {
  }

  lemma {:induction false} SameFirst(a: seq<nat>, b: seq<nat>)
    requires Units(a) && Units(b) && CleanCut(a, b) && a != []
    ensures FirstScalar(a + b) == FirstScalar(a) && Taken(a + b) == Taken(a)
  {
    var s := a + b;
    assert s[0] == a[0] && (Pair(a) <==> Pair(s));
  }

  /** Text that is cut where no pair is has the characters of its parts. */
  lemma {:induction false} ScalarsJoin(a: seq<nat>, b: seq<nat>)
    requires Units(a) && Units(b) && CleanCut(a, b)
    ensures Scalars(a + b) == Scalars(a) + Scalars(b)
    decreases |a|
  {
    if a == [] {
      assert a + b == b;
    } else {
      SameFirst(a, b);
      CutTail(a, b, Taken(a));
      ScalarsJoin(a[Taken(a)..], b);
    }
  }
}
