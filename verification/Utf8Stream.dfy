/** Reading UTF-8 that arrives in pieces: a piece may end within a character. */
module Utf8Stream {
  import opened Basics
  import opened Utf8

  // ----- well-formed streams

  /** A text, its bytes, and where in them each of its characters starts. */
  datatype Stream = Stream(text: seq<nat>, bytes: seq<nat>, starts: seq<nat>)

  /** Only the first byte of a character is not a tail, and it announces how many there are. */
  ghost predicate CharAt(t: Stream, k: nat)
    requires k < |t.text| && |t.starts| == |t.text| + 1
  {
    var a, b := t.starts[k], t.starts[k + 1];
    a < b <= |t.bytes| && !Tail(t.bytes[a]) && Announced(t.bytes[a]) == b - a && forall i :: a < i < b ==> Tail(t.bytes[i])
  }

  ghost predicate Framed(t: Stream) {
    && |t.starts| == |t.text| + 1 && t.starts[0] == 0 && t.starts[|t.text|] == |t.bytes|
    && forall k {:trigger CharAt(t, k)} :: 0 <= k < |t.text| ==> CharAt(t, k)
  }

  lemma {:induction false} Ordered(t: Stream, a: nat, b: nat)
    requires Framed(t) && a <= b <= |t.text|
    ensures t.starts[a] <= t.starts[b] <= |t.bytes| && (a < b ==> t.starts[a] < t.starts[b])
    decreases b - a
  {
    if a < b {
      Ordered(t, a + 1, b);
      assert CharAt(t, a);
    } else if b < |t.text| {
      assert CharAt(t, b);
    }
  }

  /** The bytes of the characters from a up to b. */
  ghost function Part(t: Stream, a: nat, b: nat): seq<nat>
    requires Framed(t) && a <= b <= |t.text|
  {
    Ordered(t, a, b);
    t.bytes[t.starts[a]..t.starts[b]]
  }

  /** MultiByteToWideChar, on a piece that starts and ends with a character; nothing means that it failed. */
  type Decoder = seq<nat> -> seq<nat>

  ghost predicate Sound(decode: Decoder, t: Stream) {
    && Framed(t)
    && forall a, b {:trigger Part(t, a, b)} :: 0 <= a < b <= |t.text| ==> decode(Part(t, a, b)) == t.text[a..b]
  }

  /** The character that a byte belongs to. */
  lemma {:induction false} FindChar(t: Stream, p: nat, n: nat) returns (k: nat)
    requires Framed(t) && n <= |t.text| && p < t.starts[n]
    ensures k < n && t.starts[k] <= p < t.starts[k + 1]
  {
    if p >= t.starts[n - 1] {
      k := n - 1;
    } else {
      k := FindChar(t, p, n - 1);
    }
  }

  // ----- UTF-8

  /** The position of character k in the encoded text. */
  function Start(cs: seq<nat>, k: nat): nat
    requires AllScalar(cs) && k <= |cs|
  {
    if k == 0 then 0 else Start(cs, k - 1) + |Octets(cs[k - 1])|
  }

  lemma {:induction false} StartIs(cs: seq<nat>, k: nat)
    requires AllScalar(cs) && k <= |cs|
    ensures AllScalar(cs[..k]) && Start(cs, k) == |Encoded(cs[..k])| <= |Encoded(cs)|
    ensures Encoded(cs[..k]) <= Encoded(cs)
  {
    if k > 0 {
      StartIs(cs, k - 1);
      assert cs[..k] == cs[..k - 1] + [cs[k - 1]];
      EncodedJoin(cs[..k - 1], [cs[k - 1]]);
      EncodedOne(cs[k - 1]);
    }
    assert cs == cs[..k] + cs[k..];
    EncodedJoin(cs[..k], cs[k..]);
  }

  lemma {:induction false} Middle<T>(x: seq<T>, y: seq<T>, z: seq<T>)
    ensures (x + y + z)[|x|..|x| + |y|] == y && |x + y + z| == |x| + |y| + |z|
  {
  }

  /** The bytes between two characters are those of the text between them. */
  lemma {:induction false} StreamPart(cs: seq<nat>, a: nat, b: nat)
    requires AllScalar(cs) && a <= b <= |cs|
    ensures AllScalar(cs[a..b]) && Start(cs, b) == Start(cs, a) + |Encoded(cs[a..b])| <= |Encoded(cs)|
    ensures Encoded(cs)[Start(cs, a)..Start(cs, b)] == Encoded(cs[a..b])
  {
    var x, y, z := cs[..a], cs[a..b], cs[b..];
    StartIs(cs, a);
    StartIs(cs, b);
    assert cs[..b] == x + y && cs == x + y + z;
    EncodedJoin(x, y);
    EncodedJoin(x + y, z);
    Middle(Encoded(x), Encoded(y), Encoded(z));
  }

  lemma {:induction false} StreamChar(cs: seq<nat>, k: nat)
    requires AllScalar(cs) && k < |cs|
    ensures Start(cs, k) < Start(cs, k + 1) <= |Encoded(cs)|
    ensures Encoded(cs)[Start(cs, k)..Start(cs, k + 1)] == Octets(cs[k])
  {
    StreamPart(cs, k, k + 1);
    assert cs[k..k + 1] == [cs[k]];
    EncodedOne(cs[k]);
  }

  /** Only the first octet of a character is not a tail, and it announces how many there are. */
  lemma {:induction false} OctetsMarked(c: nat)
    requires Scalar(c)
    ensures var o := Octets(c);
      && !Tail(o[0]) && Announced(o[0]) == |o|
      && forall i :: 0 < i < |o| ==> Tail(o[i])
  {
  }

  function Starts(cs: seq<nat>): seq<nat>
    requires AllScalar(cs)
  {
    seq(|cs| + 1, k requires 0 <= k <= |cs| => Start(cs, k))
  }

  function StreamOf(cs: seq<nat>): Stream
    requires AllScalar(cs)
  {
    Stream(cs, Encoded(cs), Starts(cs))
  }

  lemma {:induction false} EncodedCharAt(cs: seq<nat>, k: nat)
    requires AllScalar(cs) && k < |cs|
    ensures CharAt(StreamOf(cs), k)
  {
    StreamChar(cs, k);
    OctetsMarked(cs[k]);
    var s, a, b := Encoded(cs), Start(cs, k), Start(cs, k + 1);
    CharIn(s, a, b, Octets(cs[k]));
  }

  lemma {:induction false} CharIn(s: seq<nat>, a: nat, b: nat, o: seq<nat>)
    requires a < b <= |s| && s[a..b] == o && !Tail(o[0]) && forall i :: 0 < i < |o| ==> Tail(o[i])
    ensures s[a] == o[0] && |o| == b - a && forall i :: a < i < b ==> Tail(s[i])
  {
    forall i | a < i < b ensures Tail(s[i]) {
      assert s[i] == o[i - a];
    }
  }

  lemma {:induction false} EncodedFramed(cs: seq<nat>)
    requires AllScalar(cs)
    ensures Framed(StreamOf(cs))
  {
    forall k | 0 <= k < |cs| ensures CharAt(StreamOf(cs), k) {
      EncodedCharAt(cs, k);
    }
    StartIs(cs, |cs|);
    assert cs[..|cs|] == cs;
  }

  ghost predicate Decodes(decode: Decoder) {
    forall text {:trigger decode(Encoded(text))} :: AllScalar(text) && text != [] ==> decode(Encoded(text)) == text
  }

  /** Decoding as RFC 3629 has it is one such decoder. */
  lemma {:induction false} StandardDecodes()
    ensures Decodes(s => if Decoded(s).Some? then Decoded(s).value else [])
  {
    forall text | AllScalar(text) && text != [] ensures Decoded(Encoded(text)) == Some(text) {
      DecodedEncoded(text);
    }
  }

  /** Text in UTF-8 is such a stream. */
  lemma {:induction false} EncodedSound(decode: Decoder, cs: seq<nat>)
    requires AllScalar(cs) && Decodes(decode)
    ensures Sound(decode, StreamOf(cs))
  {
    EncodedFramed(cs);
    forall a, b | 0 <= a < b <= |cs| ensures decode(Part(StreamOf(cs), a, b)) == cs[a..b] {
      StreamPart(cs, a, b);
    }
  }

  // ----- the reader

  /** Where reading stands at byte p: k characters are complete, and the bytes after them are kept. */
  ghost predicate At(t: Stream, p: nat, k: nat, partials: seq<nat>, want: nat)
    requires Framed(t)
  {
    && k <= |t.text| && t.starts[k] <= p <= |t.bytes|
    && partials == t.bytes[t.starts[k]..p]
    && if partials == [] then want == 0 else k < |t.text| && want > 0 && p + want == t.starts[k + 1]
  }

  ghost predicate Piece(t: Stream, p: nat, bytes: seq<nat>) {
    p + |bytes| <= |t.bytes| && bytes == t.bytes[p..p + |bytes|]
  }

  /** The bytes are the next ones of a well-formed stream. */
  ghost predicate Follows(decode: Decoder, t: Stream, p: nat, k: nat, partials: seq<nat>, want: nat, bytes: seq<nat>) {
    Sound(decode, t) && At(t, p, k, partials, want) && Piece(t, p, bytes)
  }

  /** ... and all characters that are complete at their end are read, and no other. */
  ghost predicate Right(decode: Decoder, t: Stream, p: nat, k: nat, partials: seq<nat>, want: nat, bytes: seq<nat>, end: nat,
                        ok: bool, out: seq<nat>, k': nat, partials': seq<nat>, want': nat)
  {
    end == p + |bytes| && Follows(decode, t, p, k, partials, want, bytes) ==>
      ok && At(t, end, k', partials', want') && k <= k' && out == t.text[k..k']
  }

  /** The array of four bytes has room for what is kept and what is wanted. */
  predicate Fits(partials: seq<nat>, want: nat) {
    |partials| + want <= 4 && (want > 0 ==> partials != [])
  }

  /** What the decoder makes of some pieces. */
  function Through(decode: Decoder, ss: seq<seq<nat>>): seq<nat> {
    if ss == [] then [] else decode(ss[0]) + Through(decode, ss[1..])
  }

  lemma {:induction false} ThroughJoin(decode: Decoder, a: seq<seq<nat>>, b: seq<seq<nat>>)
    ensures Through(decode, a + b) == Through(decode, a) + Through(decode, b)
    decreases |a|
  {
    if a == [] {
      assert a + b == b;
    } else {
      assert (a + b)[0] == a[0] && (a + b)[1..] == a[1..] + b;
      ThroughJoin(decode, a[1..], b);
      JoinMore(decode(a[0]), Through(decode, a[1..]), Through(decode, b));
    }
  }

  /** The bytes are handed to the decoder in pieces, but for the ones kept. */
  ghost predicate Passes(decode: Decoder, bytes: seq<nat>, handed: seq<seq<nat>>, kept: seq<nat>, out: seq<nat>) {
    bytes == Flat(handed) + kept && out == Through(decode, handed)
  }

  lemma {:induction false} PassesOne(decode: Decoder, bytes: seq<nat>, kept: seq<nat>)
    ensures Passes(decode, bytes + kept, [bytes], kept, decode(bytes))
  {
    FlatOne(bytes);
    assert [bytes][1..] == [] && decode(bytes) + [] == decode(bytes);
  }

  /** Some bytes, and then what was kept and some more. */
  lemma {:induction false} PassesNext(decode: Decoder, bytes: seq<nat>, handed: seq<seq<nat>>, kept: seq<nat>, out: seq<nat>,
                                      more: seq<nat>, handed': seq<seq<nat>>, kept': seq<nat>, out': seq<nat>)
    requires Passes(decode, bytes, handed, kept, out) && Passes(decode, kept + more, handed', kept', out')
    ensures Passes(decode, bytes + more, handed + handed', kept', out + out')
  {
    FlatJoin(handed, handed');
    ThroughJoin(decode, handed, handed');
    JoinMore(Flat(handed), kept, more);
    JoinMore(Flat(handed), Flat(handed'), kept');
  }

  class Reader {
    var partials: seq<nat>
    var want: nat

    constructor ()
      ensures partials == [] && want == 0
    {
      partials, want := [], 0;
    }

    /** u8u16.  Whatever the bytes are, the array is not overrun, each byte is handed to the decoder once, in
        order, or kept, and the output is what the decoder makes of it.  On a piece of a well-formed stream: all
        characters that are complete by now, and no other. */
    method Convert(bytes: seq<nat>, decode: Decoder, ghost t: Stream, ghost p: nat, ghost k: nat)
      returns (ok: bool, out: seq<nat>, ghost handed: seq<seq<nat>>, ghost k': nat)
      requires Fits(partials, want)
      modifies this
      ensures Fits(partials, want)
      ensures ok ==> Passes(decode, old(partials) + bytes, handed, partials, out)
      ensures Follows(decode, t, p, k, old(partials), old(want), bytes) ==>
        ok && At(t, p + |bytes|, k', partials, want) && k <= k' && out == t.text[k..k']
    {
      ok, out, handed, k' := true, [], [], k;
      if |bytes| == 0 {
        assert partials + bytes == [] + partials;
        return;
      }
      if |partials| > 0 {
        ok, out, handed, k' := ConvertKept(bytes, decode, t, p, k, p + |bytes|);
      } else {
        assert [] + bytes == bytes;
        ok, out, handed, k' := ConvertWhole(bytes, decode, t, p, k, p + |bytes|);
      }
    }

    method ConvertKept(bytes: seq<nat>, decode: Decoder, ghost t: Stream, ghost p: nat, ghost k: nat, ghost end: nat)
      returns (ok: bool, out: seq<nat>, ghost handed: seq<seq<nat>>, ghost k': nat)
      requires Fits(partials, want) && partials != []
      modifies this
      ensures Fits(partials, want)
      ensures ok ==> Passes(decode, old(partials) + bytes, handed, partials, out)
      ensures Right(decode, t, p, k, old(partials), old(want), bytes, end, ok, out, k', partials, want)
    {
      KeptRight(decode, t, p, k, partials, want, bytes, end);
      var rest, more;
      ghost var n, first := want, partials + if want <= |bytes| then bytes[..want] else bytes;
      handed, k' := [], k;
      ok, out, rest := Complete(bytes, decode);
      if !ok || want > 0 {
        assert [] + partials == partials;
        return;
      }
      KeptPasses(decode, old(partials), bytes, n);
      if |rest| == 0 {
        handed, k' := [first], k + 1;
        return;
      }
      ok, more, handed, k' := ConvertWhole(rest, decode, t, p + n, k + 1, end);
      BothRight(decode, t, p, k, old(partials), n, bytes, end, ok, more, k', partials, want);
      if ok {
        PassesNext(decode, first, [first], [], out, rest, handed, partials, more);
        assert [] + rest == rest;
      }
      handed := [first] + handed;
      out := out + more;
    }

    /** Completes the character that was kept, if there are enough bytes. */
    method Complete(bytes: seq<nat>, decode: Decoder) returns (ok: bool, out: seq<nat>, rest: seq<nat>)
      requires Fits(partials, want) && partials != []
      modifies this
      ensures |bytes| < old(want) ==>
        ok && out == [] && partials == old(partials) + bytes && want == old(want) - |bytes|
      ensures |bytes| >= old(want) ==>
        && want == 0 && rest == bytes[old(want)..] && ok == (|out| > 0)
        && out == decode(old(partials) + bytes[..old(want)])
        && partials == if ok then [] else old(partials) + bytes[..old(want)]
    {
      var copyable := if want < |bytes| then want else |bytes|;
      assert bytes[..|bytes|] == bytes;
      ok, out, rest := true, [], bytes[copyable..];
      partials := partials + bytes[..copyable];
      want := want - copyable;
      if want > 0 {
        return;
      }
      out := decode(partials);
      if |out| == 0 {
        ok := false;
        return;
      }
      partials := [];
    }

    /** The bytes from the start of a character on. */
    method ConvertWhole(bytes: seq<nat>, decode: Decoder, ghost t: Stream, ghost p: nat, ghost k: nat, ghost end: nat)
      returns (ok: bool, out: seq<nat>, ghost handed: seq<seq<nat>>, ghost k': nat)
      requires partials == [] && want == 0 && bytes != []
      modifies this
      ensures Fits(partials, want)
      ensures ok ==> Passes(decode, bytes, handed, partials, out)
      ensures Right(decode, t, p, k, [], 0, bytes, end, ok, out, k', partials, want)
    {
      ok, out, handed, k' := true, [], [], k;
      var back := FindLead(bytes);
      k' := WholeRight(decode, t, p, k, bytes, back, end);
      var sequenceLen := |bytes| - back;
      var codePointLen := Announced(bytes[back]);
      var len := |bytes|;
      if codePointLen > sequenceLen {
        partials := bytes[back..];
        len := back;
        want := codePointLen - sequenceLen;
      }
      assert bytes == bytes[..len] + partials;
      if len > 0 {
        PassesOne(decode, bytes[..len], partials);
        out := decode(bytes[..len]);
        handed := [bytes[..len]];
        ok := |out| > 0;
      }
    }

    static method FindLead(bytes: seq<nat>) returns (back: nat)
      requires bytes != []
      ensures back < |bytes| && (back > 0 ==> !Tail(bytes[back]))
      ensures forall i :: back < i < |bytes| ==> Tail(bytes[i])
    {
      back := |bytes| - 1;
      while back != 0 && Tail(bytes[back])
        invariant back < |bytes|
        invariant forall i :: back < i < |bytes| ==> Tail(bytes[i])
      {
        back := back - 1;
      }
    }
  }

  lemma {:induction false} Adjacent<T>(s: seq<T>, a: nat, b: nat, c: nat)
    requires a <= b <= c <= |s|
    ensures s[a..b] + s[b..c] == s[a..c]
  {
  }

  lemma {:induction false} SubSlice<T>(s: seq<T>, p: nat, bytes: seq<T>, i: nat, j: nat)
    requires p + |bytes| <= |s| && bytes == s[p..p + |bytes|] && i <= j <= |bytes|
    ensures bytes[i..j] == s[p + i..p + j]
  {
    assert forall k :: i <= k < j ==> bytes[k] == s[p + k];
  }

  lemma {:induction false} Glued<T>(s: seq<T>, a: nat, p: nat, partials: seq<T>, bytes: seq<T>, n: nat)
    requires a <= p && p + |bytes| <= |s| && partials == s[a..p] && bytes == s[p..p + |bytes|] && n <= |bytes|
    ensures partials + bytes[..n] == s[a..p + n] && bytes[n..] == s[p + n..p + n + |bytes[n..]|]
    ensures s[p + n..p + n] == []
  {
    SubSlice(s, p, bytes, 0, n);
    SubSlice(s, p, bytes, n, |bytes|);
    Adjacent(s, a, p, p + n);
    assert bytes[0..n] == bytes[..n] && bytes[n..|bytes|] == bytes[n..];
  }

  /** More bytes of the character that is kept. */
  lemma {:induction false} AtMore(t: Stream, p: nat, k: nat, partials: seq<nat>, want: nat, bytes: seq<nat>)
    requires Framed(t) && At(t, p, k, partials, want) && Piece(t, p, bytes) && partials != [] && |bytes| < want
    ensures At(t, p + |bytes|, k, partials + bytes, want - |bytes|)
  {
    Adjacent(t.bytes, t.starts[k], p, p + |bytes|);
  }

  /** All the bytes of it. */
  lemma {:induction false} AtDone(decode: Decoder, t: Stream, p: nat, k: nat, partials: seq<nat>, want: nat, bytes: seq<nat>)
    requires Follows(decode, t, p, k, partials, want, bytes) && partials != [] && want <= |bytes|
    ensures k < |t.text| && decode(partials + bytes[..want]) == t.text[k..k + 1]
    ensures Follows(decode, t, p + want, k + 1, [], 0, bytes[want..])
  {
    Glued(t.bytes, t.starts[k], p, partials, bytes, want);
    assert partials + bytes[..want] == Part(t, k, k + 1);
  }

  /** The cases of a kept character alone. */
  lemma {:induction false} KeptRight(decode: Decoder, t: Stream, p: nat, k: nat, partials: seq<nat>, want: nat, bytes: seq<nat>,
                                     end: nat)
    requires partials != []
    ensures |bytes| < want ==> Right(decode, t, p, k, partials, want, bytes, end, true, [], k, partials + bytes, want - |bytes|)
    ensures want <= |bytes| ==>
      var out := decode(partials + bytes[..want]);
      && (out == [] ==> Right(decode, t, p, k, partials, want, bytes, end, false, [], k, partials + bytes[..want], 0))
      && (|bytes| == want ==> Right(decode, t, p, k, partials, want, bytes, end, true, out, k + 1, [], 0))
  {
    if Follows(decode, t, p, k, partials, want, bytes) {
      if |bytes| < want {
        AtMore(t, p, k, partials, want, bytes);
      } else {
        AtDone(decode, t, p, k, partials, want, bytes);
      }
    }
  }

  /** A kept character, and what follows it. */
  lemma {:induction false} BothRight(decode: Decoder, t: Stream, p: nat, k: nat, partials: seq<nat>, want: nat, bytes: seq<nat>,
                                     end: nat, ok: bool, more: seq<nat>, k': nat, partials': seq<nat>, want': nat)
    requires partials != [] && want <= |bytes|
    requires Right(decode, t, p + want, k + 1, [], 0, bytes[want..], end, ok, more, k', partials', want')
    ensures Right(decode, t, p, k, partials, want, bytes, end, ok, decode(partials + bytes[..want]) + more, k', partials', want')
  {
    if end == p + |bytes| && Follows(decode, t, p, k, partials, want, bytes) {
      AtDone(decode, t, p, k, partials, want, bytes);
      Adjacent(t.text, k, k + 1, k');
    }
  }

  lemma {:induction false} KeptPasses(decode: Decoder, partials: seq<nat>, bytes: seq<nat>, n: nat)
    requires n <= |bytes|
    ensures var first := partials + bytes[..n];
      && partials + bytes == first + bytes[n..] && Passes(decode, first, [first], [], decode(first))
      && (n == |bytes| ==> partials + bytes == first)
  {
    PassesOne(decode, partials + bytes[..n], []);
    assert partials + bytes[..n] + [] == partials + bytes[..n];
  }

  /** The character that the last byte belongs to. */
  lemma {:induction false} LastChar(t: Stream, p: nat, k: nat, bytes: seq<nat>) returns (j: nat)
    requires Framed(t) && At(t, p, k, [], 0) && Piece(t, p, bytes) && bytes != []
    ensures k <= j < |t.text| && p <= t.starts[j] < p + |bytes| <= t.starts[j + 1]
  {
    j := FindChar(t, p + |bytes| - 1, |t.text|);
    if j < k {
      Ordered(t, j + 1, k);
    }
    Ordered(t, k, j);
  }

  /** Searching back for a byte that is not a tail finds where that character starts. */
  lemma {:induction false} SameLead(t: Stream, p: nat, bytes: seq<nat>, j: nat, back: nat)
    requires Framed(t) && Piece(t, p, bytes)
    requires j < |t.text| && p <= t.starts[j] < p + |bytes| <= t.starts[j + 1]
    requires back < |bytes| && (back > 0 ==> !Tail(bytes[back])) && forall i :: back < i < |bytes| ==> Tail(bytes[i])
    ensures p + back == t.starts[j] && Announced(bytes[back]) == t.starts[j + 1] - t.starts[j]
  {
    var at := t.starts[j];
    assert CharAt(t, j);
    assert bytes[at - p] == t.bytes[at];
  }

  /** What is complete, and what is kept. */
  lemma {:induction false} WholeText(decode: Decoder, t: Stream, p: nat, k: nat, bytes: seq<nat>, j: nat, n: nat)
    requires Follows(decode, t, p, k, [], 0, bytes) && k <= j <= |t.text| && p + n == t.starts[j] && n <= |bytes|
    ensures if n == 0 then j == k else j > k && decode(bytes[..n]) == t.text[k..j]
    ensures n == |bytes| ==> At(t, p + |bytes|, j, [], 0)
    ensures j < |t.text| && n < |bytes| && p + |bytes| < t.starts[j + 1] ==>
      At(t, p + |bytes|, j, bytes[n..], t.starts[j + 1] - (p + |bytes|))
  {
    assert p == t.starts[k];
    Ordered(t, k, j);
    SubSlice(t.bytes, p, bytes, 0, n);
    SubSlice(t.bytes, p, bytes, n, |bytes|);
    assert bytes[0..n] == bytes[..n] && bytes[n..|bytes|] == bytes[n..];
    assert bytes[..n] == Part(t, k, j);
  }

  /** Bytes from the start of a character on. */
  lemma {:induction false} WholeRight(decode: Decoder, t: Stream, p: nat, k: nat, bytes: seq<nat>, back: nat, end: nat)
    returns (k': nat)
    requires back < |bytes| && (back > 0 ==> !Tail(bytes[back])) && forall i :: back < i < |bytes| ==> Tail(bytes[i])
    ensures var missing := Announced(bytes[back]) - (|bytes| - back);
      if missing > 0 then
        var out := if back > 0 then decode(bytes[..back]) else [];
        Right(decode, t, p, k, [], 0, bytes, end, back == 0 || |out| > 0, out, k', bytes[back..], missing)
      else
        var out := decode(bytes[..|bytes|]);
        Right(decode, t, p, k, [], 0, bytes, end, |out| > 0, out, k', [], 0)
  {
    k' := k;
    if Follows(decode, t, p, k, [], 0, bytes) {
      var j := LastChar(t, p, k, bytes);
      SameLead(t, p, bytes, j, back);
      if p + |bytes| == t.starts[j + 1] {
        k' := j + 1;
        WholeText(decode, t, p, k, bytes, k', |bytes|);
      } else {
        k' := j;
        WholeText(decode, t, p, k, bytes, k', back);
      }
    }
  }

  // ----- whole streams

  /** At the end of the stream all characters have been read, and nothing is kept. */
  lemma {:induction false} AtEnd(t: Stream, k: nat, partials: seq<nat>, want: nat)
    requires Framed(t) && At(t, |t.bytes|, k, partials, want)
    ensures k == |t.text| && partials == [] && want == 0
  {
    Ordered(t, k, |t.text|);
    if k < |t.text| {
      Ordered(t, k + 1, |t.text|);
    }
  }

  /** Where reading stands after i pieces of a stream. */
  ghost predicate Reading(decode: Decoder, t: Stream, pieces: seq<seq<nat>>, i: nat, k: nat, partials: seq<nat>, want: nat,
                          text: seq<nat>)
    requires i <= |pieces|
  {
    Sound(decode, t) && Flat(pieces) == t.bytes ==> At(t, |Flat(pieces[..i])|, k, partials, want) && text == t.text[..k]
  }

  method ReadStream(pieces: seq<seq<nat>>, decode: Decoder, ghost t: Stream)
    returns (ok: bool, text: seq<nat>, kept: seq<nat>, ghost handed: seq<seq<nat>>)
    ensures |kept| <= 4 && (ok ==> Passes(decode, Flat(pieces), handed, kept, text))
    ensures Sound(decode, t) && Flat(pieces) == t.bytes ==> ok && text == t.text && kept == []
  {
    var r := new Reader();
    ok, text, handed := true, [], [];
    ghost var k: nat := 0;
    ReadingStart(decode, t, pieces);
    for i := 0 to |pieces|
      invariant Fits(r.partials, r.want) && ok
      invariant Passes(decode, Flat(pieces[..i]), handed, r.partials, text)
      invariant Reading(decode, t, pieces, i, k, r.partials, r.want, text)
    {
      var out;
      ok, out, handed, k := ReadPiece(r, pieces, i, decode, t, k, handed, text);
      if !ok {
        kept := r.partials;
        return;
      }
      text := text + out;
    }
    kept := r.partials;
    ReadingEnd(decode, t, pieces, k, r.partials, r.want, text);
  }

  /** One turn of the loop. */
  method ReadPiece(r: Reader, pieces: seq<seq<nat>>, i: nat, decode: Decoder,
                   ghost t: Stream, ghost k0: nat, ghost before: seq<seq<nat>>, ghost text: seq<nat>)
    returns (ok: bool, out: seq<nat>, ghost handed: seq<seq<nat>>, ghost k: nat)
    requires i < |pieces| && Fits(r.partials, r.want) && Passes(decode, Flat(pieces[..i]), before, r.partials, text)
    requires Reading(decode, t, pieces, i, k0, r.partials, r.want, text)
    modifies r
    ensures Fits(r.partials, r.want)
    ensures Sound(decode, t) && Flat(pieces) == t.bytes ==> ok
    ensures ok ==> Passes(decode, Flat(pieces[..i + 1]), handed, r.partials, text + out)
    ensures ok ==> Reading(decode, t, pieces, i + 1, k, r.partials, r.want, text + out)
  {
    ghost var kept, want := r.partials, r.want;
    ReadingFollows(decode, t, pieces, i, k0, kept, want, text);
    ok, out, handed, k := r.Convert(pieces[i], decode, t, |Flat(pieces[..i])|, k0);
    if ok {
      PassesPiece(decode, pieces, i, before, kept, text, handed, r.partials, out);
      ReadingNext(decode, t, pieces, i, k0, kept, want, text, k, r.partials, r.want, out);
      handed := before + handed;
    }
  }

  lemma {:induction false} ReadingStart(decode: Decoder, t: Stream, pieces: seq<seq<nat>>)
    ensures Passes(decode, Flat(pieces[..0]), [], [], []) && Reading(decode, t, pieces, 0, 0, [], 0, [])
  {
    assert pieces[..0] == [];
  }

  lemma {:induction false} ReadingEnd(decode: Decoder, t: Stream, pieces: seq<seq<nat>>, k: nat, partials: seq<nat>, want: nat,
                                      text: seq<nat>)
    requires Reading(decode, t, pieces, |pieces|, k, partials, want, text)
    ensures pieces[..|pieces|] == pieces
    ensures Sound(decode, t) && Flat(pieces) == t.bytes ==> text == t.text && partials == []
  {
    if Sound(decode, t) && Flat(pieces) == t.bytes {
      assert pieces[..|pieces|] == pieces;
      AtEnd(t, k, partials, want);
    }
  }

  lemma {:induction false} PassesPiece(decode: Decoder, pieces: seq<seq<nat>>, i: nat,
                                       handed: seq<seq<nat>>, kept: seq<nat>, text: seq<nat>,
                                       handed': seq<seq<nat>>, kept': seq<nat>, out: seq<nat>)
    requires i < |pieces| && Passes(decode, Flat(pieces[..i]), handed, kept, text)
    requires Passes(decode, kept + pieces[i], handed', kept', out)
    ensures Passes(decode, Flat(pieces[..i + 1]), handed + handed', kept', text + out)
  {
    FlatPiece(pieces, i);
    PassesNext(decode, Flat(pieces[..i]), handed, kept, text, pieces[i], handed', kept', out);
  }

  lemma {:induction false} ReadingFollows(decode: Decoder, t: Stream, pieces: seq<seq<nat>>, i: nat,
                                          k: nat, partials: seq<nat>, want: nat, text: seq<nat>)
    requires i < |pieces| && Reading(decode, t, pieces, i, k, partials, want, text)
    ensures Sound(decode, t) && Flat(pieces) == t.bytes ==>
      Follows(decode, t, |Flat(pieces[..i])|, k, partials, want, pieces[i])
  {
    FlatPiece(pieces, i);
  }

  lemma {:induction false} ReadingNext(decode: Decoder, t: Stream, pieces: seq<seq<nat>>, i: nat,
                                       k: nat, partials: seq<nat>, want: nat, text: seq<nat>,
                                       k': nat, partials': seq<nat>, want': nat, out: seq<nat>)
    requires i < |pieces| && Reading(decode, t, pieces, i, k, partials, want, text)
    requires Sound(decode, t) && Flat(pieces) == t.bytes ==>
      At(t, |Flat(pieces[..i])| + |pieces[i]|, k', partials', want') && k <= k' && out == t.text[k..k']
    ensures Reading(decode, t, pieces, i + 1, k', partials', want', text + out)
  {
    FlatPiece(pieces, i);
    assert |Flat(pieces[..i])| + |pieces[i]| == |Flat(pieces[..i + 1])|;
    if Sound(decode, t) && Flat(pieces) == t.bytes {
      Adjacent(t.text, 0, k, k');
    }
  }

  /** A whole stream, as it arrives.  Whatever arrives, every byte is handed to the decoder or kept; and if all of it
      is a text in UTF-8, however it is cut, what is read is the text. */
  method ReadAll(pieces: seq<seq<nat>>, decode: Decoder, ghost cs: seq<nat>)
    returns (ok: bool, text: seq<nat>, kept: seq<nat>, ghost handed: seq<seq<nat>>)
    ensures |kept| <= 4 && (ok ==> Passes(decode, Flat(pieces), handed, kept, text))
    ensures Decodes(decode) && AllScalar(cs) && Flat(pieces) == Encoded(cs) ==> ok && text == cs && kept == []
  {
    ghost var t := Stream([], [], []);
    if AllScalar(cs) && Decodes(decode) {
      EncodedSound(decode, cs);
      t := StreamOf(cs);
    }
    ok, text, kept, handed := ReadStream(pieces, decode, t);
  }

  lemma {:induction false} FlatPiece(pieces: seq<seq<nat>>, i: nat)
    requires i < |pieces|
    ensures Flat(pieces[..i + 1]) == Flat(pieces[..i]) + pieces[i]
    ensures var p, q := |Flat(pieces[..i])|, |Flat(pieces[..i])| + |pieces[i]|;
      q <= |Flat(pieces)| && pieces[i] == Flat(pieces)[p..q]
  {
    FlatStep(pieces, i);
    FlatCut(pieces, i + 1);
  }
}
