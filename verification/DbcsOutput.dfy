/** Narrow output in a double-byte code page: calls may cut a character in two. */
module DbcsOutput {
  import opened Basics

  /** The lead byte ranges of a code page: pairs of bounds, ended by a zero. */
  ghost predicate CodePageInfo(lb: seq<nat>) {
    |lb| >= 2 && |lb| % 2 == 0 && lb[|lb| - 2] == 0
  }

  function InRanges(ch: nat, lb: seq<nat>): bool {
    |lb| >= 2 && lb[0] != 0 && (lb[0] <= ch <= lb[1] || InRanges(ch, lb[2..]))
  }

  /** The k-th range is there: no zero comes before it. */
  ghost predicate Listed(lb: seq<nat>, k: nat) {
    2 * k + 1 < |lb| && lb[2 * k] != 0 && (k > 0 ==> Listed(lb, k - 1))
  }

  ghost predicate RangeHolds(ch: nat, lb: seq<nat>, k: nat) {
    Listed(lb, k) && lb[2 * k] <= ch <= lb[2 * k + 1]
  }

  lemma {:induction false} ListedNext(lb: seq<nat>, k: nat)
    requires |lb| >= 2 && lb[0] != 0
    ensures Listed(lb, k + 1) <==> Listed(lb[2..], k)
  {
    assert k > 0 || Listed(lb, 0);
    if k > 0 {
      ListedNext(lb, k - 1);
    }
  }

  /** Some range before the zero holds the byte. */
  lemma {:induction false} InRangesIff(ch: nat, lb: seq<nat>)
    ensures InRanges(ch, lb) <==> exists k: nat :: RangeHolds(ch, lb, k)
    decreases |lb|
  {
    if |lb| >= 2 && lb[0] != 0 {
      InRangesIff(ch, lb[2..]);
      if k: nat :| RangeHolds(ch, lb[2..], k) {
        ListedNext(lb, k);
        assert RangeHolds(ch, lb, k + 1);
      }
      if k: nat :| RangeHolds(ch, lb, k) && k > 0 {
        ListedNext(lb, k - 1);
        assert RangeHolds(ch, lb[2..], k - 1);
      }
      assert RangeHolds(ch, lb, 0) <==> lb[0] <= ch <= lb[1];
    } else {
      forall k: nat ensures !RangeHolds(ch, lb, k) {
        NoneListed(lb, k);
      }
    }
  }

  lemma {:induction false} NoneListed(lb: seq<nat>, k: nat)
    requires |lb| < 2 || lb[0] == 0
    ensures !Listed(lb, k)
  {
    if k > 0 {
      NoneListed(lb, k - 1);
    }
  }

  /** IsDBCSLeadByteConsole. */
  method IsLeadByte(ch: nat, lb: seq<nat>) returns (yes: bool)
    requires CodePageInfo(lb)
    ensures yes == InRanges(ch, lb)
    ensures yes <==> exists k: nat :: RangeHolds(ch, lb, k)
  {
    InRangesIff(ch, lb);
    var i := 0;
    assert lb[0..] == lb;
    while lb[i] != 0
      invariant 0 <= i < |lb| - 1 && i % 2 == 0
      invariant InRanges(ch, lb) == InRanges(ch, lb[i..])
      decreases |lb| - i
    {
      assert lb[i..][2..] == lb[i + 2..];
      if lb[i] <= ch <= lb[i + 1] {
        return true;
      }
      i := i + 2;
    }
    return false;
  }

  /** A code page: its lead bytes, and what one byte, and a lead byte with the byte after it, stand for. */
  datatype CodePage = CodePage(lead: seq<nat>, single: nat -> nat, pair: (nat, nat) -> nat) {
    predicate Lead(b: nat) {
      InRanges(b, lead)
    }
  }

  // ----- the greedy reading of a stream of bytes

  function Decoded(bytes: seq<nat>, i: nat, cp: CodePage): seq<nat>
    requires i <= |bytes|
    decreases |bytes| - i
  {
    if i == |bytes| then []
    else if !cp.Lead(bytes[i]) then [cp.single(bytes[i])] + Decoded(bytes, i + 1, cp)
    else if i + 1 == |bytes| then []
    else [cp.pair(bytes[i], bytes[i + 1])] + Decoded(bytes, i + 2, cp)
  }

  /** The stream ends within a character. */
  predicate Bisected(bytes: seq<nat>, i: nat, cp: CodePage)
    requires i <= |bytes|
    decreases |bytes| - i
  {
    i < |bytes| &&
    if !cp.Lead(bytes[i]) then Bisected(bytes, i + 1, cp)
    else i + 1 == |bytes| || Bisected(bytes, i + 2, cp)
  }

  /** No lead byte is directly followed by a control character. */
  predicate Clean(bytes: seq<nat>, i: nat, cp: CodePage)
    requires i <= |bytes|
    decreases |bytes| - i
  {
    if i == |bytes| then true
    else if !cp.Lead(bytes[i]) then Clean(bytes, i + 1, cp)
    else i + 1 == |bytes| || (bytes[i + 1] >= 0x20 && Clean(bytes, i + 2, cp))
  }

  /** CheckBisectStringA. */
  method CheckBisect(bytes: seq<nat>, lb: seq<nat>, ghost cp: CodePage) returns (yes: bool)
    requires CodePageInfo(lb) && cp.lead == lb
    ensures yes == Bisected(bytes, 0, cp)
  {
    var i := 0;
    while i < |bytes|
      invariant i <= |bytes| && Bisected(bytes, 0, cp) == Bisected(bytes, i, cp)
    {
      var lead := IsLeadByte(bytes[i], lb);
      if lead {
        if |bytes| - i <= 1 {
          return true;
        }
        i := i + 2;
      } else {
        i := i + 1;
      }
    }
    return false;
  }

  /** Greedy readings of a stream and of its tail agree. */
  lemma {:induction false} Shift(a: seq<nat>, b: seq<nat>, i: nat, cp: CodePage)
    requires i <= |b|
    ensures Decoded(a + b, |a| + i, cp) == Decoded(b, i, cp)
    ensures Bisected(a + b, |a| + i, cp) == Bisected(b, i, cp)
    ensures Clean(a + b, |a| + i, cp) == Clean(b, i, cp)
  {
    ShiftDecoded(a, b, i, cp);
    ShiftBisected(a, b, i, cp);
    ShiftClean(a, b, i, cp);
  }

  lemma {:induction false} ShiftBisected(a: seq<nat>, b: seq<nat>, i: nat, cp: CodePage)
    requires i <= |b|
    ensures Bisected(a + b, |a| + i, cp) == Bisected(b, i, cp)
    decreases |b| - i
  {
    if i < |b| {
      assert (a + b)[|a| + i] == b[i];
      if !cp.Lead(b[i]) {
        ShiftBisected(a, b, i + 1, cp);
      } else if i + 1 < |b| {
        ShiftBisected(a, b, i + 2, cp);
      }
    }
  }

  lemma {:induction false} ShiftClean(a: seq<nat>, b: seq<nat>, i: nat, cp: CodePage)
    requires i <= |b|
    ensures Clean(a + b, |a| + i, cp) == Clean(b, i, cp)
    decreases |b| - i
  {
    if i < |b| {
      assert (a + b)[|a| + i] == b[i];
      if !cp.Lead(b[i]) {
        ShiftClean(a, b, i + 1, cp);
      } else if i + 1 < |b| {
        assert (a + b)[|a| + (i + 1)] == b[i + 1];
        ShiftClean(a, b, i + 2, cp);
      }
    }
  }

  lemma {:induction false} ShiftDecoded(a: seq<nat>, b: seq<nat>, i: nat, cp: CodePage)
    requires i <= |b|
    ensures Decoded(a + b, |a| + i, cp) == Decoded(b, i, cp)
    decreases |b| - i
  {
    if i < |b| {
      assert (a + b)[|a| + i] == b[i];
      if !cp.Lead(b[i]) {
        ShiftDecoded(a, b, i + 1, cp);
      } else if i + 1 < |b| {
        assert (a + b)[|a| + (i + 1)] == b[i + 1];
        ShiftDecoded(a, b, i + 2, cp);
      }
    }
  }

  // ----- one call

  /** The lead byte that is kept for the next call. */
  function Kept(bytes: seq<nat>, cp: CodePage): seq<nat> {
    if Bisected(bytes, 0, cp) then [bytes[|bytes| - 1]] else []
  }

  /** The bytes that a call reads: a kept lead byte is dropped if a control character follows. */
  function Whole(kept: seq<nat>, buffer: seq<nat>): seq<nat> {
    if buffer != [] && buffer[0] < 0x20 then buffer else kept + buffer
  }

  /** How many bytes the text takes when it is converted back. */
  function Length(text: seq<nat>, alen: nat -> nat): nat {
    if text == [] then 0 else alen(text[0]) + Length(text[1..], alen)
  }

  /** Along the greedy reading, no character takes more bytes when it is converted back than were read for it. */
  predicate NoneLonger(bytes: seq<nat>, i: nat, cp: CodePage, alen: nat -> nat)
    requires i <= |bytes|
    decreases |bytes| - i
  {
    if i == |bytes| then true
    else if !cp.Lead(bytes[i]) then alen(cp.single(bytes[i])) <= 1 && NoneLonger(bytes, i + 1, cp, alen)
    else i + 1 == |bytes| || (alen(cp.pair(bytes[i], bytes[i + 1])) <= 2 && NoneLonger(bytes, i + 2, cp, alen))
  }

  /** ... every one takes just as many. */
  predicate EachFits(bytes: seq<nat>, i: nat, cp: CodePage, alen: nat -> nat)
    requires i <= |bytes|
    decreases |bytes| - i
  {
    if i == |bytes| then true
    else if !cp.Lead(bytes[i]) then alen(cp.single(bytes[i])) == 1 && EachFits(bytes, i + 1, cp, alen)
    else i + 1 == |bytes| || (alen(cp.pair(bytes[i], bytes[i + 1])) == 2 && EachFits(bytes, i + 2, cp, alen))
  }

  /** The text that is written if the kept byte and the next one cannot be converted: it starts one place too late. */
  function Spoiled(text: seq<nat>): seq<nat> {
    if text == [] then [] else [0] + text[..|text| - 1]
  }

  class Output {
    /** WriteConsoleDbcsLeadByte[0]: 0 if there is none. */
    var lead: nat

    ghost predicate Valid(cp: CodePage)
      reads this
    {
      CodePageInfo(cp.lead) && (lead != 0 ==> cp.Lead(lead))
    }

    function Carry(): seq<nat>
      reads this
    {
      if lead == 0 then [] else [lead]
    }

    constructor ()
      ensures lead == 0
    {
      lead := 0;
    }

    /** The kept byte is completed by the first one of the buffer. */
    predicate Completes(buffer: seq<nat>)
      reads this
    {
      lead != 0 && buffer != [] && buffer[0] >= 0x20
    }

    /** WriteConsoleAImpl for a double-byte code page.  What is written is the greedy reading of the kept byte and
        the buffer.  The call reports as many bytes as the buffer has exactly if every character is converted back
        to as many bytes as it was read from, and never more if none is converted back to more.  If the kept byte
        and the next one cannot be converted, the last byte is lost and the text starts one place too late. */
    method WriteConsoleA(buffer: seq<nat>, cp: CodePage, alen: nat -> nat, convertible: bool)
      returns (wstr: seq<nat>, read: int)
      requires Valid(cp)
      modifies this
      ensures Valid(cp)
      ensures buffer == [] ==> wstr == [] && read == 0 && lead == old(lead)
      ensures buffer != [] && (convertible || !old(Completes(buffer))) ==>
        var whole := Whole(old(Carry()), buffer);
        && wstr == Decoded(whole, 0, cp) && Carry() == Kept(whole, cp)
        && (EachFits(whole, 0, cp, alen) ==> read == |buffer|)
        && (NoneLonger(whole, 0, cp, alen) ==> read <= |buffer| && (read == |buffer| <==> EachFits(whole, 0, cp, alen)))
      ensures buffer != [] && (old(lead) == 0 || buffer[0] < 0x20) ==> wstr == Decoded(buffer, 0, cp)
      ensures buffer != [] && convertible && old(lead) != 0 && buffer[0] >= 0x20 ==>
        wstr == [cp.pair(old(lead), buffer[0])] + Decoded(buffer[1..], 0, cp)
      ensures !convertible && old(Completes(buffer)) ==>
        var mb := buffer[..|buffer| - 1];
        && wstr == Spoiled(Decoded(mb, 0, cp)) && Carry() == Kept(mb, cp)
        && read == Length(wstr, alen) + |Kept(mb, cp)| - 1
    {
      wstr, read := [], 0;
      if |buffer| == 0 {
        return;
      }
      ghost var whole := Whole(Carry(), buffer);
      var captured, consumed := false, false;
      var mb := buffer;
      var front := [];
      if lead != 0 && buffer[0] >= 0x20 {
        if convertible {
          Completed(lead, buffer, cp);
          front := [cp.pair(lead, buffer[0])];
          mb := buffer[1..];
        } else {
          mb := buffer[..|buffer| - 1];
        }
        consumed := true;
      } else {
        Alone(Carry(), buffer);
      }
      var text;
      text, captured := WriteRest(mb, cp);
      assert [] + text == text;
      wstr := if consumed && !convertible then Spoiled(text) else front + text;
      read := Length(wstr, alen) + (if captured then 1 else 0) - (if consumed then 1 else 0);
      DecodedLength(whole, 0, cp, alen);
    }

    /** The bytes from the start of a character on; a lead byte at the end is kept. */
    method WriteRest(bytes: seq<nat>, cp: CodePage) returns (text: seq<nat>, captured: bool)
      requires CodePageInfo(cp.lead)
      modifies this
      ensures Valid(cp) && text == Decoded(bytes, 0, cp)
      ensures Carry() == Kept(bytes, cp) && captured == (Kept(bytes, cp) != [])
    {
      text, lead, captured := [], 0, false;
      var mb := bytes;
      if |mb| != 0 {
        captured := CheckBisect(mb, cp.lead, cp);
      }
      BisectedLead(mb, 0, cp);
      if captured {
        lead := mb[|mb| - 1];
        mb := mb[..|mb| - 1];
      }
      if |mb| != 0 {
        text := Decoded(mb, 0, cp);
      }
    }
  }

  lemma {:induction false} Completed(lead: nat, buffer: seq<nat>, cp: CodePage)
    requires cp.Lead(lead) && buffer != []
    ensures var whole := [lead] + buffer;
      && Decoded(whole, 0, cp) == [cp.pair(lead, buffer[0])] + Decoded(buffer[1..], 0, cp)
      && Bisected(whole, 0, cp) == Bisected(buffer[1..], 0, cp) && Kept(whole, cp) == Kept(buffer[1..], cp)
  {
    var whole := [lead] + buffer;
    assert whole == [lead, buffer[0]] + buffer[1..];
    Shift([lead, buffer[0]], buffer[1..], 0, cp);
    assert whole[0] == lead && whole[1] == buffer[0];
    if Bisected(buffer[1..], 0, cp) {
      assert buffer[1..][|buffer| - 2] == whole[|buffer|];
    }
  }

  /** What a call makes of its buffer if it need not complete a kept byte. */
  lemma {:induction false} Alone(kept: seq<nat>, buffer: seq<nat>)
    requires buffer != [] && (kept == [] || buffer[0] < 0x20)
    ensures Whole(kept, buffer) == buffer
  {
    assert [] + buffer == buffer;
  }

  /** The byte that ends a bisected stream is a lead byte, and does not matter for what is read. */
  lemma {:induction false} BisectedLead(bytes: seq<nat>, i: nat, cp: CodePage)
    requires i <= |bytes|
    ensures Bisected(bytes, i, cp) ==>
      && i < |bytes| && cp.Lead(bytes[|bytes| - 1]) && bytes[|bytes| - 1] != 0
      && Decoded(bytes[..|bytes| - 1], i, cp) == Decoded(bytes, i, cp)
    decreases |bytes| - i
  {
    if i < |bytes| {
      if !cp.Lead(bytes[i]) {
        BisectedLead(bytes, i + 1, cp);
      } else if i + 1 < |bytes| {
        BisectedLead(bytes, i + 2, cp);
      } else {
        LeadNotZero(bytes[i], cp.lead);
      }
    }
  }

  lemma {:induction false} LeadNotZero(b: nat, lb: seq<nat>)
    requires InRanges(b, lb)
    ensures b != 0
    decreases |lb|
  {
    if b == 0 {
      LeadNotZero(b, lb[2..]);
    }
  }

  lemma {:induction false} DecodedLength(bytes: seq<nat>, i: nat, cp: CodePage, alen: nat -> nat)
    requires i <= |bytes|
    ensures var n := |bytes| - i - (if Bisected(bytes, i, cp) then 1 else 0);
      var len := Length(Decoded(bytes, i, cp), alen);
      && (EachFits(bytes, i, cp, alen) ==> len == n)
      && (NoneLonger(bytes, i, cp, alen) ==> len <= n && (len == n <==> EachFits(bytes, i, cp, alen)))
    decreases |bytes| - i
  {
    if i < |bytes| {
      if !cp.Lead(bytes[i]) {
        DecodedLength(bytes, i + 1, cp, alen);
        LengthCons(cp.single(bytes[i]), Decoded(bytes, i + 1, cp), alen);
      } else if i + 1 < |bytes| {
        DecodedLength(bytes, i + 2, cp, alen);
        LengthCons(cp.pair(bytes[i], bytes[i + 1]), Decoded(bytes, i + 2, cp), alen);
      }
    }
  }

  lemma {:induction false} LengthCons(c: nat, text: seq<nat>, alen: nat -> nat)
    ensures Length([c] + text, alen) == alen(c) + Length(text, alen)
  {
    assert ([c] + text)[1..] == text;
  }

  /** A pair that the code page has no character for, read as a default character of one byte: the call reports one
      byte of two. */
  lemma {:induction false} ShortCountExample(l: nat, c: nat, cp: CodePage, alen: nat -> nat)
    requires cp.Lead(l) && alen(cp.pair(l, c)) == 1
    ensures Length(Decoded([l, c], 0, cp), alen) == 1 && !Bisected([l, c], 0, cp)
    ensures NoneLonger([l, c], 0, cp, alen) && !EachFits([l, c], 0, cp, alen)
  {
    assert Decoded([l, c], 2, cp) == [];
    LengthCons(cp.pair(l, c), [], alen);
  }

  // ----- any number of calls

  /** What a sequence of calls writes, if a byte was kept before. */
  function Written(kept: seq<nat>, chunks: seq<seq<nat>>, cp: CodePage): seq<nat>
    decreases |chunks|
  {
    if chunks == [] then []
    else
      var whole := Whole(kept, chunks[0]);
      Decoded(whole, 0, cp) + Written(Kept(whole, cp), chunks[1..], cp)
  }

  function KeptFrom(bytes: seq<nat>, i: nat, cp: CodePage): seq<nat>
    requires i <= |bytes|
  {
    if Bisected(bytes, i, cp) then [bytes[|bytes| - 1]] else []
  }

  /** A stream is read as its first part, and then the byte kept from that and the second part. */
  lemma {:induction false} ReadInParts(a: seq<nat>, b: seq<nat>, i: nat, cp: CodePage)
    requires i <= |a|
    ensures Decoded(a + b, i, cp) == Decoded(a, i, cp) + Decoded(KeptFrom(a, i, cp) + b, 0, cp)
    decreases |a| - i
  {
    var rest := Decoded(KeptFrom(a, i, cp) + b, 0, cp);
    assert [] + rest == rest;
    if i == |a| {
      Shift(a, b, 0, cp);
      assert [] + b == b;
    } else {
      assert (a + b)[i] == a[i];
      if !cp.Lead(a[i]) {
        ReadInParts(a, b, i + 1, cp);
        JoinMore([cp.single(a[i])], Decoded(a, i + 1, cp), rest);
      } else if i + 1 < |a| {
        assert (a + b)[i + 1] == a[i + 1];
        ReadInParts(a, b, i + 2, cp);
        JoinMore([cp.pair(a[i], a[i + 1])], Decoded(a, i + 2, cp), rest);
      } else {
        assert a + b == a[..i] + ([a[i]] + b);
        Shift(a[..i], [a[i]] + b, 0, cp);
      }
    }
  }

  lemma {:induction false} CleanInParts(a: seq<nat>, b: seq<nat>, i: nat, cp: CodePage)
    requires i <= |a|
    ensures Clean(a + b, i, cp) <==> Clean(a, i, cp) && Clean(KeptFrom(a, i, cp) + b, 0, cp)
    decreases |a| - i
  {
    if i == |a| {
      Shift(a, b, 0, cp);
      assert [] + b == b;
    } else {
      assert (a + b)[i] == a[i];
      if !cp.Lead(a[i]) {
        CleanInParts(a, b, i + 1, cp);
      } else if i + 1 < |a| {
        assert (a + b)[i + 1] == a[i + 1];
        CleanInParts(a, b, i + 2, cp);
      } else {
        assert a + b == a[..i] + ([a[i]] + b);
        Shift(a[..i], [a[i]] + b, 0, cp);
      }
    }
  }

  /** In a clean stream, a kept byte is never dropped. */
  lemma {:induction false} CleanWhole(kept: seq<nat>, chunk: seq<nat>, rest: seq<nat>, cp: CodePage)
    requires Clean(kept + (chunk + rest), 0, cp) && (kept == [] || (|kept| == 1 && cp.Lead(kept[0])))
    ensures Whole(kept, chunk) == kept + chunk
  {
    if kept == [] {
      assert [] + chunk == chunk;
    } else if chunk != [] {
      assert (kept + (chunk + rest))[1] == chunk[0];
    }
  }

  /** Without a lead byte before a control character, it does not matter how the stream is cut into calls. */
  lemma {:induction false} CutAnyhow(kept: seq<nat>, chunks: seq<seq<nat>>, cp: CodePage)
    requires Clean(kept + Flat(chunks), 0, cp) && (kept == [] || (|kept| == 1 && cp.Lead(kept[0])))
    ensures Written(kept, chunks, cp) == Decoded(kept + Flat(chunks), 0, cp)
    decreases |chunks|
  {
    if chunks == [] {
      assert kept + [] == kept;
    } else {
      var a, rest := kept + chunks[0], Flat(chunks[1..]);
      CleanWhole(kept, chunks[0], rest, cp);
      JoinMore(kept, chunks[0], rest);
      ReadInParts(a, rest, 0, cp);
      CleanInParts(a, rest, 0, cp);
      BisectedLead(a, 0, cp);
      CutAnyhow(Kept(a, cp), chunks[1..], cp);
    }
  }

  /** The character counts of a stream and of its tail agree. */
  lemma {:induction false} ShiftFits(a: seq<nat>, b: seq<nat>, i: nat, cp: CodePage, alen: nat -> nat)
    requires i <= |b|
    ensures NoneLonger(a + b, |a| + i, cp, alen) == NoneLonger(b, i, cp, alen)
    ensures EachFits(a + b, |a| + i, cp, alen) == EachFits(b, i, cp, alen)
    decreases |b| - i
  {
    if i < |b| {
      assert (a + b)[|a| + i] == b[i];
      if !cp.Lead(b[i]) {
        ShiftFits(a, b, i + 1, cp, alen);
      } else if i + 1 < |b| {
        assert (a + b)[|a| + (i + 1)] == b[i + 1];
        ShiftFits(a, b, i + 2, cp, alen);
      }
    }
  }

  lemma {:induction false} FitsInParts(a: seq<nat>, b: seq<nat>, i: nat, cp: CodePage, alen: nat -> nat)
    requires i <= |a|
    ensures var rest := KeptFrom(a, i, cp) + b;
      && (NoneLonger(a + b, i, cp, alen) <==> NoneLonger(a, i, cp, alen) && NoneLonger(rest, 0, cp, alen))
      && (EachFits(a + b, i, cp, alen) <==> EachFits(a, i, cp, alen) && EachFits(rest, 0, cp, alen))
    decreases |a| - i
  {
    if i == |a| {
      ShiftFits(a, b, 0, cp, alen);
      assert [] + b == b;
    } else {
      assert (a + b)[i] == a[i];
      if !cp.Lead(a[i]) {
        FitsInParts(a, b, i + 1, cp, alen);
      } else if i + 1 < |a| {
        assert (a + b)[i + 1] == a[i + 1];
        FitsInParts(a, b, i + 2, cp, alen);
      } else {
        assert a + b == a[..i] + ([a[i]] + b);
        ShiftFits(a[..i], [a[i]] + b, 0, cp, alen);
      }
    }
  }

  /** After the first of some calls: what the stream that is left means for the whole one. */
  lemma {:induction false} CallsOn(kept: seq<nat>, chunk: seq<nat>, rest: seq<nat>, cp: CodePage, alen: nat -> nat)
    requires kept == [] || (|kept| == 1 && cp.Lead(kept[0]))
    requires Clean(kept + (chunk + rest), 0, cp)
    ensures var whole := Whole(kept, chunk); var left := Kept(whole, cp) + rest;
      && whole == kept + chunk && Clean(left, 0, cp)
      && (NoneLonger(kept + (chunk + rest), 0, cp, alen) <==> NoneLonger(whole, 0, cp, alen) && NoneLonger(left, 0, cp, alen))
      && (EachFits(kept + (chunk + rest), 0, cp, alen) <==> EachFits(whole, 0, cp, alen) && EachFits(left, 0, cp, alen))
  {
    var a := kept + chunk;
    JoinMore(kept, chunk, rest);
    CleanInParts(a, rest, 0, cp);
    FitsInParts(a, rest, 0, cp, alen);
    CleanWhole(kept, chunk, rest, cp);
  }

  /** How the calls of a clean stream count, with n bytes passed and `left` still to come. */
  ghost predicate Counting(stream: seq<nat>, left: seq<nat>, n: nat, total: int, cp: CodePage, alen: nat -> nat) {
    Clean(stream, 0, cp) ==>
      && Clean(left, 0, cp)
      && (NoneLonger(stream, 0, cp, alen) ==>
            && NoneLonger(left, 0, cp, alen) && total <= n
            && (EachFits(stream, 0, cp, alen) <==> total == n && EachFits(left, 0, cp, alen)))
  }

  /** The calls, made one after the other.  If no lead byte comes before a control character, they write what one
      reading of the whole stream does, however it is cut; and together they report as many bytes as there are
      exactly if every character is converted back to as many as it was read from. */
  method WriteAll(o: Output, chunks: seq<seq<nat>>, cp: CodePage, alen: nat -> nat) returns (text: seq<nat>, total: int)
    requires o.Valid(cp)
    modifies o
    ensures o.Valid(cp) && text == Written(old(o.Carry()), chunks, cp)
    ensures var stream := old(o.Carry()) + Flat(chunks);
      Clean(stream, 0, cp) ==>
        && text == Decoded(stream, 0, cp)
        && (NoneLonger(stream, 0, cp, alen) ==>
              total <= |Flat(chunks)| && (total == |Flat(chunks)| <==> EachFits(stream, 0, cp, alen)))
  {
    text, total := [], 0;
    ghost var kept, stream := o.Carry(), o.Carry() + Flat(chunks);
    assert chunks[0..] == chunks && [] + Written(kept, chunks, cp) == Written(kept, chunks, cp);
    for i := 0 to |chunks|
      invariant o.Valid(cp)
      invariant text + Written(o.Carry(), chunks[i..], cp) == Written(kept, chunks, cp)
      invariant Counting(stream, o.Carry() + Flat(chunks[i..]), |Flat(chunks[..i])|, total, cp, alen)
    {
      text, total := WriteNext(o, chunks, i, cp, alen, text, total, stream);
    }
    assert chunks[|chunks|..] == [] && chunks[..|chunks|] == chunks;
    assert text + [] == text;
    if Clean(stream, 0, cp) {
      CutAnyhow(kept, chunks, cp);
    }
  }

  /** One turn of the loop. */
  method WriteNext(o: Output, chunks: seq<seq<nat>>, i: nat, cp: CodePage, alen: nat -> nat, text0: seq<nat>, total0: int,
                   ghost stream: seq<nat>)
    returns (text: seq<nat>, total: int)
    requires o.Valid(cp) && i < |chunks|
    requires Counting(stream, o.Carry() + Flat(chunks[i..]), |Flat(chunks[..i])|, total0, cp, alen)
    modifies o
    ensures o.Valid(cp)
    ensures text + Written(o.Carry(), chunks[i + 1..], cp) == text0 + Written(old(o.Carry()), chunks[i..], cp)
    ensures Counting(stream, o.Carry() + Flat(chunks[i + 1..]), |Flat(chunks[..i + 1])|, total, cp, alen)
  {
    ghost var carry := o.Carry();
    var wstr, read := o.WriteConsoleA(chunks[i], cp, alen, true);
    EmptyCall(carry, cp);
    WrittenNext(text0, carry, chunks, i, cp);
    FlatStep(chunks, i);
    CountingNext(stream, carry, chunks[i], Flat(chunks[i + 1..]), |Flat(chunks[..i])|, total0, read, cp, alen);
    text, total := text0 + wstr, total0 + read;
  }

  lemma {:induction false} WrittenNext(text: seq<nat>, carry: seq<nat>, chunks: seq<seq<nat>>, i: nat, cp: CodePage)
    requires i < |chunks|
    ensures Flat(chunks[i..]) == chunks[i] + Flat(chunks[i + 1..])
    ensures var whole := Whole(carry, chunks[i]);
      text + Written(carry, chunks[i..], cp) == text + Decoded(whole, 0, cp) + Written(Kept(whole, cp), chunks[i + 1..], cp)
  {
    var whole := Whole(carry, chunks[i]);
    assert chunks[i..][0] == chunks[i] && chunks[i..][1..] == chunks[i + 1..];
    JoinMore(text, Decoded(whole, 0, cp), Written(Kept(whole, cp), chunks[i + 1..], cp));
  }

  /** A call with nothing to write keeps what was kept. */
  lemma {:induction false} EmptyCall(kept: seq<nat>, cp: CodePage)
    requires kept == [] || (|kept| == 1 && cp.Lead(kept[0]))
    ensures Whole(kept, []) == kept && Decoded(kept, 0, cp) == [] && Kept(kept, cp) == kept
  {
    assert kept + [] == kept;
  }

  lemma {:induction false} CountingNext(stream: seq<nat>, kept: seq<nat>, chunk: seq<nat>, rest: seq<nat>, n: nat, total: int, read: int,
                                        cp: CodePage, alen: nat -> nat)
    requires Counting(stream, kept + (chunk + rest), n, total, cp, alen) && (kept == [] || (|kept| == 1 && cp.Lead(kept[0])))
    requires var whole := Whole(kept, chunk);
      && (EachFits(whole, 0, cp, alen) ==> read == |chunk|)
      && (NoneLonger(whole, 0, cp, alen) ==> read <= |chunk| && (read == |chunk| <==> EachFits(whole, 0, cp, alen)))
    ensures Counting(stream, Kept(Whole(kept, chunk), cp) + rest, n + |chunk|, total + read, cp, alen)
  {
    if Clean(stream, 0, cp) {
      CallsOn(kept, chunk, rest, cp, alen);
    }
  }

  /** ... and exactly then, if no character of two bytes reads like a control character. */
  lemma {:induction false} CutAnywhereIff(bytes: seq<nat>, cp: CodePage)
    requires forall b, c :: cp.Lead(b) && c < 0x20 ==> cp.pair(b, c) != cp.single(c)
    requires forall b :: b < 0x20 ==> !cp.Lead(b)
    ensures (forall k {:trigger bytes[..k]} :: 0 < k < |bytes| ==>
              Written([], [bytes[..k], bytes[k..]], cp) == Decoded(bytes, 0, cp))
       <==> Clean(bytes, 0, cp)
  {
    if Clean(bytes, 0, cp) {
      forall k | 0 < k < |bytes| ensures Written([], [bytes[..k], bytes[k..]], cp) == Decoded(bytes, 0, cp) {
        var chunks := [bytes[..k], bytes[k..]];
        assert chunks[1..] == [bytes[k..]] && |chunks[1..]| == 1;
        assert Flat(chunks[1..]) == bytes[k..] + [] == bytes[k..];
        assert [] + Flat(chunks) == bytes[..k] + bytes[k..] == bytes;
        CutAnyhow([], chunks, cp);
      }
    } else {
      var i := Unclean(bytes, 0, cp);
      WrongCut(bytes, i, cp);
      assert Written([], [bytes[..i + 1], bytes[i + 1..]], cp) != Decoded(bytes, 0, cp);
    }
  }

  /** The place of the first lead byte before a control character. */
  lemma {:induction false} Unclean(bytes: seq<nat>, i: nat, cp: CodePage) returns (k: nat)
    requires i <= |bytes| && !Clean(bytes, i, cp)
    ensures i <= k < |bytes| - 1 && cp.Lead(bytes[k]) && bytes[k + 1] < 0x20
    ensures !Bisected(bytes[..k], i, cp)
    decreases |bytes| - i
  {
    if !cp.Lead(bytes[i]) {
      k := Unclean(bytes, i + 1, cp);
    } else if bytes[i + 1] < 0x20 {
      k := i;
    } else {
      k := Unclean(bytes, i + 2, cp);
    }
  }

  /** A cut there loses the lead byte. */
  lemma {:induction false} WrongCut(bytes: seq<nat>, i: nat, cp: CodePage)
    requires i < |bytes| - 1 && cp.Lead(bytes[i]) && bytes[i + 1] < 0x20 && !Bisected(bytes[..i], 0, cp)
    requires !cp.Lead(bytes[i + 1]) && cp.pair(bytes[i], bytes[i + 1]) != cp.single(bytes[i + 1])
    ensures Written([], [bytes[..i + 1], bytes[i + 1..]], cp) != Decoded(bytes, 0, cp)
  {
    var a, l, c := bytes[..i], bytes[i], bytes[i + 1..];
    assert bytes[..i + 1] == a + [l] && bytes == a + ([l] + c);
    WrittenInTwo(a + [l], c, cp);
    ReadAroundLead(a, l, c, cp);
    DifferAt(Decoded(a, 0, cp), Decoded(c, 0, cp), Decoded([l] + c, 0, cp));
  }

  lemma {:induction false} WrittenInTwo(x: seq<nat>, y: seq<nat>, cp: CodePage)
    requires y != [] && y[0] < 0x20
    ensures Written([], [x, y], cp) == Decoded(Whole([], x), 0, cp) + Decoded(y, 0, cp)
    ensures Whole([], x) == x
  {
    assert [x, y][1..] == [y];
    assert [] + x == x;
    var kept := Kept(x, cp);
    assert Written(kept, [y], cp) == Decoded(y, 0, cp) + [] == Decoded(y, 0, cp);
  }

  lemma {:induction false} ReadAroundLead(a: seq<nat>, l: nat, c: seq<nat>, cp: CodePage)
    requires !Bisected(a, 0, cp) && cp.Lead(l) && c != [] && !cp.Lead(c[0])
    ensures Decoded(a + [l], 0, cp) == Decoded(a, 0, cp)
    ensures Decoded(a + ([l] + c), 0, cp) == Decoded(a, 0, cp) + Decoded([l] + c, 0, cp)
    ensures |Decoded(c, 0, cp)| > 0 && Decoded(c, 0, cp)[0] == cp.single(c[0])
    ensures |Decoded([l] + c, 0, cp)| > 0 && Decoded([l] + c, 0, cp)[0] == cp.pair(l, c[0])
  {
    ReadInParts(a, [l], 0, cp);
    ReadInParts(a, [l] + c, 0, cp);
    assert [] + [l] == [l] && [] + ([l] + c) == [l] + c;
    assert ([l] + c)[1] == c[0];
    assert Decoded(a, 0, cp) + [] == Decoded(a, 0, cp);
  }

  lemma {:induction false} DifferAt(front: seq<nat>, x: seq<nat>, y: seq<nat>)
    requires x != [] && y != [] && x[0] != y[0]
    ensures front + x != front + y
  {
    assert (front + x)[|front|] != (front + y)[|front|];
  }
}
