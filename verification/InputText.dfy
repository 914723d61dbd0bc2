/** Handing typed text to a reader's buffer, converted to a narrow code page where asked for. */
module InputText {
  import opened Basics
  import opened Utf16

  /** The code units of the first character: a lone surrogate is taken for U+FFFD. */
  function Char(text: seq<nat>): (c: seq<nat>)
    requires text != []
    ensures |c| == if Pair(text) then 2 else 1
  {
    if Pair(text) then text[..2] else if Surrogate(text[0]) then [REPLACEMENT] else [text[0]]
  }

  /** WideCharToMultiByte for one character: no bytes means that it cannot be converted. */
  type Codec = seq<nat> -> seq<nat>

  function Encoded(text: seq<nat>, codec: Codec): seq<nat> {
    if text == [] then [] else codec(Char(text)) + Encoded(text[|Char(text)|..], codec)
  }

  /** Some character before the room is used up cannot be converted. */
  predicate Fails(text: seq<nat>, codec: Codec, room: nat) {
    && text != [] && room > 0
    && var c := codec(Char(text));
       c == [] || (|c| < room && Fails(text[|Char(text)|..], codec, room - |c|))
  }

  /** WideCharToMultiByte for a whole text: it stops for want of room before it looks at the next character. */
  datatype Batch = Done(bytes: seq<nat>) | NoRoom | Bad

  function ConvertAll(text: seq<nat>, codec: Codec, room: nat): Batch {
    if text == [] then Done([])
    else if room == 0 then NoRoom
    else
      var c := codec(Char(text));
      if c == [] then Bad
      else if |c| > room then NoRoom
      else
        var rest := ConvertAll(text[|Char(text)|..], codec, room - |c|);
        if rest.Done? then Done(c + rest.bytes) else rest
  }

  /** The text and the room are used up together, or the text ends first. */
  predicate AllFits(text: seq<nat>, codec: Codec, room: nat) {
    ConvertAll(text, codec, room).Done?
  }

  lemma {:induction false} BatchMeans(text: seq<nat>, codec: Codec, room: nat)
    ensures var batch := ConvertAll(text, codec, room);
      && (batch.Bad? <==> Fails(text, codec, room))
      && (batch.Done? ==> batch.bytes == Encoded(text, codec) && |batch.bytes| <= room)
    decreases |text|
  {
    if text != [] && room > 0 {
      var c := codec(Char(text));
      if 0 < |c| <= room {
        BatchMeans(text[|Char(text)|..], codec, room - |c|);
      }
    }
  }

  /** The number of characters, and of code units, that it takes to fill `room` bytes. */
  function CharsFor(text: seq<nat>, codec: Codec, room: nat): (k: nat)
    ensures k <= |text|
  {
    if text == [] then 0
    else if |codec(Char(text))| >= room then 1
    else 1 + CharsFor(text[|Char(text)|..], codec, room - |codec(Char(text))|)
  }

  function UnitsFor(text: seq<nat>, codec: Codec, room: nat): (k: nat)
    ensures k <= |text|
  {
    if text == [] then 0
    else if |codec(Char(text))| >= room then |Char(text)|
    else |Char(text)| + UnitsFor(text[|Char(text)|..], codec, room - |codec(Char(text))|)
  }

  lemma {:induction false} ConvertStep(text: seq<nat>, i: nat, codec: Codec)
    requires i < |text|
    ensures var c := Char(text[i..]);
      && i + |c| <= |text|
      && Encoded(text[i..], codec) == codec(c) + Encoded(text[i + |c|..], codec)
  {
    assert text[i..][|Char(text[i..])|..] == text[i + |Char(text[i..])|..];
  }

  lemma {:induction false} FillStep(text: seq<nat>, i: nat, codec: Codec, room: nat)
    requires i < |text|
    ensures var c := Char(text[i..]); var n := |codec(c)|;
      && i + |c| <= |text|
      && CharsFor(text[i..], codec, room) == (if n >= room then 1 else 1 + CharsFor(text[i + |c|..], codec, room - n))
      && UnitsFor(text[i..], codec, room) == (if n >= room then |c| else |c| + UnitsFor(text[i + |c|..], codec, room - n))
  {
    assert text[i..][|Char(text[i..])|..] == text[i + |Char(text[i..])|..];
  }

  /** What a conversion with room for `room` bytes leaves behind: the rest of the last character's bytes. */
  ghost predicate Filled(source: seq<nat>, codec: Codec, room: nat, put: seq<nat>, excess: seq<nat>, read: nat) {
    && read == CharsFor(source, codec, room)
    && |put| == room
    && put + excess + Encoded(source[UnitsFor(source, codec, room)..], codec) == Encoded(source, codec)
  }

  /** So far `put` has been converted, from the code units before i, and there is room for more. */
  ghost predicate Underway(source: seq<nat>, codec: Codec, room: nat, i: nat, put: seq<nat>, read: nat) {
    && i <= |source| && |put| < room
    && put + Encoded(source[i..], codec) == Encoded(source, codec)
    && CharsFor(source, codec, room) == read + CharsFor(source[i..], codec, room - |put|)
    && UnitsFor(source, codec, room) == i + UnitsFor(source[i..], codec, room - |put|)
  }

  lemma {:induction false} UnderwayStart(source: seq<nat>, codec: Codec, room: nat)
    requires room > 0
    ensures Underway(source, codec, room, 0, [], 0)
  {
    assert source[0..] == source;
    assert [] + Encoded(source, codec) == Encoded(source, codec);
  }

  lemma {:induction false} UnderwayStep(source: seq<nat>, codec: Codec, room: nat, i: nat, put: seq<nat>, read: nat)
    requires Underway(source, codec, room, i, put, read) && i < |source|
    requires |put| + |codec(Char(source[i..]))| < room
    ensures var c := Char(source[i..]); Underway(source, codec, room, i + |c|, put + codec(c), read + 1)
  {
    var c := Char(source[i..]);
    ConvertStep(source, i, codec);
    FillStep(source, i, codec, room - |put|);
    JoinMore(put, codec(c), Encoded(source[i + |c|..], codec));
  }

  lemma {:induction false} UnderwayCounts(source: seq<nat>, codec: Codec, room: nat, i: nat, put: seq<nat>, read: nat)
    requires Underway(source, codec, room, i, put, read) && i < |source|
    requires |put| + |codec(Char(source[i..]))| >= room
    ensures CharsFor(source, codec, room) == read + 1 && UnitsFor(source, codec, room) == i + |Char(source[i..])|
  {
    FillStep(source, i, codec, room - |put|);
  }

  lemma {:induction false} UnderwayEnd(source: seq<nat>, codec: Codec, room: nat, i: nat, put: seq<nat>, read: nat)
    requires Underway(source, codec, room, i, put, read) && i < |source|
    requires |put| + |codec(Char(source[i..]))| >= room
    ensures var slice, n := codec(Char(source[i..])), room - |put|;
      Filled(source, codec, room, put + slice[..n], slice[n..], read + 1)
  {
    var c := Char(source[i..]);
    ConvertStep(source, i, codec);
    UnderwayCounts(source, codec, room, i, put, read);
    Rejoin(put, codec(c), room - |put|, Encoded(source[i + |c|..], codec));
  }

  lemma {:induction false} NoRoomStep(text: seq<nat>, i: nat, codec: Codec, room: nat)
    requires i < |text| && room > 0 && ConvertAll(text[i..], codec, room).NoRoom?
    ensures var c := Char(text[i..]);
      codec(c) != [] && (|codec(c)| < room ==> ConvertAll(text[i + |c|..], codec, room - |codec(c)|).NoRoom?)
  {
    assert text[i..][|Char(text[i..])|..] == text[i + |Char(text[i..])|..];
  }

  /** The slow path: character by character, until the room is used up. */
  method ConvertSome(source: seq<nat>, room: nat, codec: Codec) returns (put: seq<nat>, excess: seq<nat>, read: nat)
    requires room > 0 && ConvertAll(source, codec, room).NoRoom?
    ensures Filled(source, codec, room, put, excess, read)
  {
    put, excess, read := [], [], 0;
    var i := 0;
    UnderwayStart(source, codec, room);
    while i < |source|
      invariant i <= |source| && Underway(source, codec, room, i, put, read)
      invariant ConvertAll(source[i..], codec, room - |put|).NoRoom?
    {
      NoRoomStep(source, i, codec, room - |put|);
      var c := Char(source[i..]);
      var slice := codec(c);
      if |put| + |slice| < room {
        UnderwayStep(source, codec, room, i, put, read);
        put := put + slice;
        read, i := read + 1, i + |c|;
      } else {
        UnderwayEnd(source, codec, room, i, put, read);
        var n := room - |put|;
        return put + slice[..n], slice[n..], read + 1;
      }
    }
    assert false;
  }

  lemma {:induction false} Rejoin<T>(put: seq<T>, slice: seq<T>, n: nat, rest: seq<T>)
    requires n <= |slice|
    ensures put + (slice + rest) == put + slice[..n] + slice[n..] + rest
  {
    assert slice == slice[..n] + slice[n..];
  }

  /** No character has its first code unit before i and its second at i. */
  predicate Boundary(text: seq<nat>, i: nat) {
    0 < i < |text| ==> !(Lead(text[i - 1]) && Trail(text[i]))
  }

  lemma {:induction false} FilledToBoundary(text: seq<nat>, codec: Codec, room: nat)
    ensures Boundary(text, UnitsFor(text, codec, room))
    decreases |text|
  {
    if text != [] {
      var c := Char(text);
      if |codec(c)| < room {
        FilledToBoundary(text[|c|..], codec, room - |codec(c)|);
      }
    }
  }

  /** The characters that start before n can be converted. */
  ghost predicate Convertible(text: seq<nat>, codec: Codec, n: nat) {
    forall i {:trigger Boundary(text, i)} :: 0 <= i < n && i < |text| && Boundary(text, i) ==> codec(Char(text[i..])) != []
  }

  lemma {:induction false} FilledConvertible(text: seq<nat>, codec: Codec, room: nat)
    requires room > 0 && !Fails(text, codec, room)
    ensures Convertible(text, codec, UnitsFor(text, codec, room))
    decreases |text|
  {
    if text != [] {
      var c := Char(text);
      var rest, units := text[|c|..], UnitsFor(text, codec, room);
      if |codec(c)| < room {
        FilledConvertible(rest, codec, room - |codec(c)|);
      }
      forall i | 0 <= i < units && Boundary(text, i) ensures codec(Char(text[i..])) != [] {
        if i == 0 {
          assert text[0..] == text;
        } else {
          assert i >= |c| && |codec(c)| < room;
          assert rest[i - |c|..] == text[i..];
          assert Boundary(rest, i - |c|);
        }
      }
    }
  }

  /** More text is more bytes, if the shorter text starts at a character. */
  lemma {:induction false} LongerIsMore(text: seq<nat>, k: nat, m: nat, codec: Codec)
    requires k < m <= |text| && Boundary(text, m) && Convertible(text, codec, m) && codec([REPLACEMENT]) != []
    ensures |Encoded(text[k..], codec)| > |Encoded(text[m..], codec)|
    decreases m - k
  {
    ConvertStep(text, k, codec);
    CharAt(text, k, m, codec);
    var c := Char(text[k..]);
    if k + |c| < m {
      LongerIsMore(text, k + |c|, m, codec);
    }
  }

  /** Wherever the text is cut, what it starts with can be converted, and ends at m or before. */
  lemma {:induction false} CharAt(text: seq<nat>, k: nat, m: nat, codec: Codec)
    requires k < m <= |text| && Boundary(text, m) && Convertible(text, codec, m) && codec([REPLACEMENT]) != []
    ensures codec(Char(text[k..])) != [] && k + |Char(text[k..])| <= m
  {
    var c := Char(text[k..]);
    assert |c| == 2 ==> Lead(text[k]) && Trail(text[k + 1]);
    if !Boundary(text, k) {
      assert c == [REPLACEMENT];
    }
  }

  /** Fewer characters than code units have been converted exactly if there was a surrogate pair. */
  lemma {:induction false} CharsAreUnitsIff(text: seq<nat>, codec: Codec, room: nat)
    ensures var n := UnitsFor(text, codec, room);
      && CharsFor(text, codec, room) <= n
      && (CharsFor(text, codec, room) == n <==> NoPairs(text, n))
    decreases |text|
  {
    if text != [] {
      var c := Char(text);
      if |codec(c)| < room {
        var rest, room' := text[|c|..], room - |codec(c)|;
        CharsAreUnitsIff(rest, codec, room');
        if Pair(text) {
          assert Lead(text[1 - 1]) && Trail(text[1]);
        } else {
          NoPairsTail(text, UnitsFor(rest, codec, room'));
        }
      }
    }
  }

  lemma {:induction false} NoPairsTail(text: seq<nat>, n: nat)
    requires n < |text| && !Pair(text)
    ensures NoPairs(text, n + 1) <==> NoPairs(text[1..], n)
  {
    var rest := text[1..];
    if NoPairs(text, n + 1) {
      forall i | 0 < i < n ensures !(Lead(rest[i - 1]) && Trail(rest[i])) {
        assert !(Lead(text[i + 1 - 1]) && Trail(text[i + 1]));
      }
    }
    if NoPairs(rest, n) {
      forall i | 0 < i < n + 1 ensures !(Lead(text[i - 1]) && Trail(text[i])) {
        if i > 1 {
          assert !(Lead(rest[i - 1 - 1]) && Trail(rest[i - 1]));
        }
      }
    }
  }

  ghost predicate NoPairs(text: seq<nat>, n: nat)
    requires n <= |text|
  {
    forall i :: 0 < i < n ==> !(Lead(text[i - 1]) && Trail(text[i]))
  }

  /** One surrogate pair and too little room: its second half is left behind and read again. */
  lemma {:induction false} PairReadAgain(codec: Codec)
    requires |codec([0xD83D, 0xDE00])| == 4
    ensures var text := [0xD83D, 0xDE00];
      && CharsFor(text, codec, 1) == 1 && UnitsFor(text, codec, 1) == 2
      && Encoded(text, codec) == codec(text) && Encoded(text[1..], codec) == codec([0xFFFD])
  {
    var text := [0xD83D, 0xDE00];
    assert text[..2] == text && text[2..] == [] && text[1..] == [0xDE00] && text[1..][1..] == [];
    assert codec(text) + [] == codec(text) && codec([0xFFFD]) + [] == codec([0xFFFD]);
  }

  datatype Mode = StringW | StringA | Events

  class TextCache {
    var narrow: seq<nat>
    var wide: seq<nat>
    var mode: Mode

    /** What was converted earlier and did not fit, if that was in the same mode. */
    function Pending(unicode: bool): seq<nat>
      reads this
    {
      if unicode then if mode == StringW then wide else []
      else if mode == StringA then narrow else []
    }

    /** ConsumeCached: room is in code units for wide text, in bytes for narrow. */
    method ConsumeCached(unicode: bool, room: nat) returns (put: seq<nat>)
      modifies this
      ensures mode == (if unicode then StringW else StringA)
      ensures put == Prefix(room, old(Pending(unicode))) && Pending(unicode) == Suffix(room, old(Pending(unicode)))
    {
      var m := if unicode then StringW else StringA;
      if mode != m {
        narrow, wide, mode := [], [], m;
      }
      put := Prefix(room, if unicode then wide else narrow);
      if unicode {
        wide := Suffix(room, wide);
      } else {
        narrow := Suffix(room, narrow);
      }
    }

    /** Consume.  It fails exactly if it comes to a character that it cannot convert; otherwise the reader gets the
        right text.  A wide read leaves the right text behind; a narrow one does so exactly if the text fit whole,
        or nothing was converted, or no surrogate pair was. */
    method Consume(unicode: bool, source: seq<nat>, room: nat, codec: Codec) returns (ok: bool, put: seq<nat>, left: seq<nat>)
      modifies this
      ensures mode == (if unicode then StringW else StringA)
      ensures unicode ==>
        var all := old(Pending(true)) + source;
        ok && put == Prefix(room, all) && Pending(true) + left == Suffix(room, all)
      ensures !unicode ==>
        var pending := old(Pending(false)); var all := pending + Encoded(source, codec);
        && (ok <==> room <= |pending| || !Fails(source, codec, room - |pending|))
        && (ok ==> put == Prefix(room, all))
        && (ok && codec([REPLACEMENT]) != [] ==>
              (Pending(false) + Encoded(left, codec) == Suffix(room, all) <==>
               || room <= |pending| || AllFits(source, codec, room - |pending|)
               || NoPairs(source, UnitsFor(source, codec, room - |pending|))))
        && (!ok ==> put == pending && left == source && Pending(false) == [])
    {
      ghost var pending, text := Pending(unicode), if unicode then source else Encoded(source, codec);
      put := ConsumeCached(unicode, room);
      ok, left := true, source;
      if |source| == 0 || |put| == room {
        Spent(pending, text, room);
        return;
      }
      Chopped(pending, text, room);
      var more := room - |put|;
      if unicode {
        left := Suffix(more, source);
        put := put + Prefix(more, source);
      } else {
        var some;
        ok, some, left := Convert(source, more, codec);
        put := put + some;
      }
    }

    /** The narrow text, once nothing is left from earlier. */
    method Convert(source: seq<nat>, room: nat, codec: Codec) returns (ok: bool, put: seq<nat>, left: seq<nat>)
      requires source != [] && room > 0 && mode == StringA && narrow == []
      modifies this`narrow
      ensures ok <==> !Fails(source, codec, room)
      ensures ok ==> put == Prefix(room, Encoded(source, codec))
      ensures ok && codec([REPLACEMENT]) != [] ==>
        (narrow + Encoded(left, codec) == Suffix(room, Encoded(source, codec)) <==>
         AllFits(source, codec, room) || NoPairs(source, UnitsFor(source, codec, room)))
      ensures !ok ==> put == [] && left == source && narrow == []
    {
      BatchMeans(source, codec, room);
      var batch := ConvertAll(source, codec, room);
      match batch
      case Done(bytes) =>
        return true, bytes, [];
      case Bad =>
        return false, [], source;
      case NoRoom =>
        var excess, read;
        put, excess, read := ConvertSome(source, room, codec);
        ChoppedFilled(source, codec, room, put, excess, read);
        narrow := excess;
        ok, left := true, source[read..];
    }
  }

  lemma {:induction false} Spent<T>(pending: seq<T>, text: seq<T>, room: nat)
    requires room <= |pending| || text == []
    ensures Prefix(room, pending + text) == Prefix(room, pending)
    ensures Suffix(room, pending + text) == Suffix(room, pending) + text
  {
    if room < |pending| {
      assert (pending + text)[room..] == pending[room..] + text;
    }
  }

  lemma {:induction false} Chopped<T>(pending: seq<T>, text: seq<T>, room: nat)
    requires |pending| < room
    ensures Prefix(room, pending + text) == pending + Prefix(room - |pending|, text)
    ensures Suffix(room, pending + text) == Suffix(room - |pending|, text)
  {
  }

  lemma {:induction false} ChoppedFilled(source: seq<nat>, codec: Codec, room: nat, put: seq<nat>, excess: seq<nat>, read: nat)
    requires Filled(source, codec, room, put, excess, read) && room > 0 && !Fails(source, codec, room)
    ensures put == Prefix(room, Encoded(source, codec))
    ensures codec([REPLACEMENT]) != [] ==>
      (excess + Encoded(source[read..], codec) == Suffix(room, Encoded(source, codec))
       <==> NoPairs(source, UnitsFor(source, codec, room)))
  {
    var units := UnitsFor(source, codec, room);
    var text, good := Encoded(source, codec), Encoded(source[units..], codec);
    JoinMore(put, excess, good);
    assert text[..room] == put && text[room..] == excess + good;
    CharsAreUnitsIff(source, codec, room);
    FilledToBoundary(source, codec, room);
    FilledConvertible(source, codec, room);
    if read < units && codec([REPLACEMENT]) != [] {
      LongerIsMore(source, read, units, codec);
      assert |excess + Encoded(source[read..], codec)| > |excess + good|;
    }
  }
}
