/** The console's input events: a queue whose reads split repeat counts, spell characters in a narrow
    code page and set the excess aside, and whose writes merge repeated keys. */
module InputQueue {
  import opened Basics

  /** INPUT_RECORD: what the queue looks at in key and mouse records. */
  datatype Event =
    | Key(down: bool, repeat: nat, vk: nat, scan: nat, ch: nat, ctrl: bv32)
    | Mouse(moved: bool, position: (int, int), buttons: nat)
    | Other(id: int)

  /** WideCharToMultiByte for one code unit: no bytes means that the conversion failed. */
  type Codec = nat -> seq<nat>

  /** How a caller reads. */
  datatype Reading = Reading(unicode: bool, stream: bool, codec: Codec)

  datatype Mode = Text | Wide | Narrow

  function ModeOf(unicode: bool): Mode {
    if unicode then Wide else Narrow
  }

  // ----- sequences

  function Times<T>(n: nat, x: T): seq<T> {
    seq(n, _ => x)
  }

  // ----- the plain queue that the reader sees

  /** The event once per byte. */
  function Spelled(e: Event, bytes: seq<nat>): seq<Event>
    requires e.Key?
  {
    seq(|bytes|, i requires 0 <= i < |bytes| => e.(ch := bytes[i]))
  }

  /** What one press of the event reads as: nothing only if it cannot be converted. */
  function Press(e: Event, how: Reading): seq<Event> {
    if !e.Key? then [e]
    else
      var one := if how.stream then e.(repeat := 1) else e;
      if how.unicode then [one] else Spelled(one, how.codec(e.ch))
  }

  function Copies(e: Event, how: Reading): nat {
    if e.Key? && how.stream && e.repeat > 1 then e.repeat else 1
  }

  /** The presses in storage, repetitions unpacked, each as the items it reads as. */
  function Presses(storage: seq<Event>, how: Reading): seq<seq<Event>> {
    if storage == [] then [] else Times(Copies(storage[0], how), Press(storage[0], how)) + Presses(storage[1..], how)
  }

  lemma {:induction false} PressesJoin(a: seq<Event>, b: seq<Event>, how: Reading)
    ensures Presses(a + b, how) == Presses(a, how) + Presses(b, how)
    decreases |a|
  {
    if a == [] {
      assert a + b == b;
    } else {
      assert (a + b)[0] == a[0] && (a + b)[1..] == a[1..] + b;
      PressesJoin(a[1..], b, how);
    }
  }

  lemma {:induction false} PressesOne(e: Event, how: Reading)
    ensures Presses([e], how) == Times(Copies(e, how), Press(e, how))
  {
    assert [e][1..] == [];
  }

  lemma {:induction false} PressesFrom(storage: seq<Event>, i: nat, how: Reading)
    requires i < |storage|
    ensures Presses(storage[i..], how) == Times(Copies(storage[i], how), Press(storage[i], how)) + Presses(storage[i + 1..], how)
  {
    assert storage[i..][0] == storage[i] && storage[i..][1..] == storage[i + 1..];
  }

  lemma {:induction false} PressesLast(storage: seq<Event>, how: Reading)
    requires storage != []
    ensures var n := |storage| - 1;
      Presses(storage, how) == Presses(storage[..n], how) + Times(Copies(storage[n], how), Press(storage[n], how))
  {
    var n := |storage| - 1;
    assert storage == storage[..n] + [storage[n]];
    PressesJoin(storage[..n], [storage[n]], how);
    PressesOne(storage[n], how);
  }

  lemma {:induction false} PressesWide(storage: seq<Event>, how: Reading)
    requires how.unicode
    ensures forall j :: 0 <= j < |Presses(storage, how)| ==> |Presses(storage, how)[j]| == 1
  {
    if storage != [] {
      PressesWide(storage[1..], how);
    }
  }

  // ----- what the items of the queue are

  /** How many keystrokes some events stand for: a count of 0 means one. */
  function Strokes(s: seq<Event>): nat {
    if s == [] then 0 else (if !s[0].Key? then 0 else if s[0].repeat > 1 then s[0].repeat else 1) + Strokes(s[1..])
  }

  lemma {:induction false} StrokesJoin(a: seq<Event>, b: seq<Event>)
    ensures Strokes(a + b) == Strokes(a) + Strokes(b)
    decreases |a|
  {
    if a == [] {
      assert a + b == b;
    } else {
      assert (a + b)[0] == a[0] && (a + b)[1..] == a[1..] + b;
      StrokesJoin(a[1..], b);
    }
  }

  /** One event of the storage is read as the spelling of its character, once for each keystroke if they are read
      one by one; nothing else of the event changes, but for the count, which is then 1. */
  lemma {:induction false} OneReads(e: Event, how: Reading)
    ensures !e.Key? ==> Flat(Presses([e], how)) == [e]
    ensures e.Key? ==>
      var n := if how.stream && e.repeat > 1 then e.repeat else 1;
      var text := if how.unicode then [e.ch] else how.codec(e.ch);
      Flat(Presses([e], how)) == Flat(seq(n, _ => seq(|text|, b requires 0 <= b < |text| =>
        Key(e.down, if how.stream then 1 else e.repeat, e.vk, e.scan, text[b], e.ctrl))))
  {
    PressesOne(e, how);
    if !e.Key? {
      assert Presses([e], how) == [[e]];
      FlatOne([e]);
    } else {
      var n := if how.stream && e.repeat > 1 then e.repeat else 1;
      var text := if how.unicode then [e.ch] else how.codec(e.ch);
      var spelling := seq(|text|, b requires 0 <= b < |text| =>
        Key(e.down, if how.stream then 1 else e.repeat, e.vk, e.scan, text[b], e.ctrl));
      assert Press(e, how) == spelling;
      assert Presses([e], how) == seq(n, _ => spelling);
    }
  }

  /** The item is the event, or, if that is a key, one byte or the character of it. */
  predicate ReadsAs(item: Event, e: Event, how: Reading) {
    if !e.Key? then item == e
    else
      && item.Key? && item.down == e.down && item.vk == e.vk && item.scan == e.scan && item.ctrl == e.ctrl
      && item.repeat == (if how.stream then 1 else e.repeat)
      && if how.unicode then item.ch == e.ch else item.ch in how.codec(e.ch)
  }

  predicate Stored(item: Event, storage: seq<Event>, how: Reading) {
    exists j :: 0 <= j < |storage| && ReadsAs(item, storage[j], how)
  }

  lemma {:induction false} ItemsStored(storage: seq<Event>, how: Reading)
    ensures forall k :: 0 <= k < |Flat(Presses(storage, how))| ==> Stored(Flat(Presses(storage, how))[k], storage, how)
  {
    if storage != [] {
      var e, rest := storage[0], storage[1..];
      var first, more := Flat(Times(Copies(e, how), Press(e, how))), Flat(Presses(rest, how));
      FlatJoin(Times(Copies(e, how), Press(e, how)), Presses(rest, how));
      CopiesRead(Copies(e, how), e, how);
      ItemsStored(rest, how);
      forall k | 0 <= k < |first + more| ensures Stored((first + more)[k], storage, how) {
        if k < |first| {
          assert ReadsAs(first[k], storage[0], how);
        } else {
          assert Stored(more[k - |first|], rest, how);
          var j :| 0 <= j < |rest| && ReadsAs(more[k - |first|], rest[j], how);
          assert storage[j + 1] == rest[j];
        }
      }
    }
  }

  lemma {:induction false} CopiesRead(n: nat, e: Event, how: Reading)
    ensures forall k :: 0 <= k < |Flat(Times(n, Press(e, how)))| ==> ReadsAs(Flat(Times(n, Press(e, how)))[k], e, how)
  {
    if n > 0 {
      var p := Press(e, how);
      assert Times(n, p)[0] == p && Times(n, p)[1..] == Times(n - 1, p);
      CopiesRead(n - 1, e, how);
    }
  }

  /** Nothing of what was there is lost, and nothing comes twice: all the events, or all the keystrokes. */
  ghost predicate Accounted(pending: seq<Event>, was: seq<Event>, out: seq<Event>, pending': seq<Event>, storage: seq<Event>, how: Reading) {
    && (how.unicode && !how.stream ==> out + (pending' + storage) == pending + was)
    && (how.unicode && how.stream ==>
          Strokes(out) + Strokes(pending') + Strokes(storage) == Strokes(pending) + Strokes(was))
  }

  lemma {:induction false} PlainItems(storage: seq<Event>, how: Reading)
    requires how.unicode && !how.stream
    ensures Flat(Presses(storage, how)) == storage
  {
    if storage != [] {
      PlainItems(storage[1..], how);
      assert Times(1, [storage[0]]) == [[storage[0]]];
      FlatOne([storage[0]]);
      FlatJoin([[storage[0]]], Presses(storage[1..], how));
      assert storage == [storage[0]] + storage[1..];
    }
  }

  lemma {:induction false} SameStrokes(storage: seq<Event>, how: Reading)
    requires how.unicode && how.stream
    ensures Strokes(Flat(Presses(storage, how))) == Strokes(storage)
  {
    if storage != [] {
      var e := storage[0];
      var n, p := Copies(e, how), Press(e, how);
      SameStrokes(storage[1..], how);
      FlatJoin(Times(n, p), Presses(storage[1..], how));
      StrokesJoin(Flat(Times(n, p)), Flat(Presses(storage[1..], how)));
      CopiesStrokes(n, e, how);
    }
  }

  lemma {:induction false} CopiesStrokes(n: nat, e: Event, how: Reading)
    requires how.unicode && how.stream
    ensures Strokes(Flat(Times(n, Press(e, how)))) == if e.Key? then n else 0
  {
    if n > 0 {
      var p := Press(e, how);
      assert Times(n, p)[0] == p && Times(n, p)[1..] == Times(n - 1, p);
      StrokesJoin(p, Flat(Times(n - 1, p)));
      assert |p| == 1 && p[1..] == [];
      CopiesStrokes(n - 1, e, how);
    }
  }

  lemma {:induction false} ReadAccounts(pending: seq<Event>, was: seq<Event>, n: nat, out: seq<Event>, pending': seq<Event>,
                                        storage: seq<Event>, how: Reading)
    requires out == Prefix(n, pending + Flat(Presses(was, how)))
    requires pending' + Flat(Presses(storage, how)) == Suffix(n, pending + Flat(Presses(was, how)))
    ensures Accounted(pending, was, out, pending', storage, how)
  {
    var all, left := pending + Flat(Presses(was, how)), pending' + Flat(Presses(storage, how));
    assert out + left == all;
    if how.unicode && !how.stream {
      PlainItems(was, how);
      PlainItems(storage, how);
    }
    if how.unicode && how.stream {
      SameStrokes(was, how);
      SameStrokes(storage, how);
      StrokesJoin(out, left);
      StrokesJoin(pending, Flat(Presses(was, how)));
      StrokesJoin(pending', Flat(Presses(storage, how)));
    }
  }

  lemma {:induction false} ReadIsStored(pending: seq<Event>, was: seq<Event>, n: nat, out: seq<Event>, how: Reading)
    requires out == Prefix(n, pending + Flat(Presses(was, how)))
    ensures forall k :: 0 <= k < |out| ==> out[k] in pending || Stored(out[k], was, how)
  {
    var items := Flat(Presses(was, how));
    ItemsStored(was, how);
    forall k | 0 <= k < |out| ensures out[k] in pending || Stored(out[k], was, how) {
      if k >= |pending| {
        assert out[k] == items[k - |pending|];
      }
    }
  }

  // ----- where a read stops

  /** The number of presses a read of n items takes, if it starts with `had` of them. */
  function Needed(presses: seq<seq<Event>>, had: nat, n: nat): (k: nat)
    ensures k <= |presses|
  {
    if had >= n || presses == [] then 0 else 1 + Needed(presses[1..], had + |presses[0]|, n)
  }

  /** The read comes to a press that cannot be converted. */
  predicate Stuck(presses: seq<seq<Event>>, had: nat, n: nat) {
    had < n && presses != [] && (presses[0] == [] || Stuck(presses[1..], had + |presses[0]|, n))
  }

  /** The rest of the character in whose middle the read ends. */
  function Overrun(presses: seq<seq<Event>>, had: nat, n: nat): seq<Event> {
    if had >= n || presses == [] then []
    else if had + |presses[0]| > n then presses[0][n - had..]
    else Overrun(presses[1..], had + |presses[0]|, n)
  }

  /** k presses have been taken, and the read goes on from here as it would have from the start. */
  ghost predicate Taken(presses: seq<seq<Event>>, k: nat, start: seq<Event>, n: nat, out: seq<Event>) {
    && k <= |presses|
    && out == start + Flat(presses[..k])
    && Needed(presses, |start|, n) == k + Needed(presses[k..], |out|, n)
    && (Stuck(presses, |start|, n) <==> Stuck(presses[k..], |out|, n))
  }

  lemma {:induction false} TakenNone(presses: seq<seq<Event>>, start: seq<Event>, n: nat)
    ensures Taken(presses, 0, start, n, start)
  {
    assert presses[0..] == presses && start + [] == start;
  }

  lemma {:induction false} TakenStep(presses: seq<seq<Event>>, k: nat, start: seq<Event>, n: nat, out: seq<Event>)
    requires Taken(presses, k, start, n, out) && |out| < n && k < |presses| && presses[k] != []
    ensures Taken(presses, k + 1, start, n, out + presses[k])
  {
    assert presses[k..][0] == presses[k] && presses[k..][1..] == presses[k + 1..];
    FlatStep(presses, k);
    assert start + (Flat(presses[..k]) + presses[k]) == out + presses[k];
  }

  /** The step where the next press is the first of some equal ones. */
  lemma {:induction false} TakenFront(presses: seq<seq<Event>>, k: nat, start: seq<Event>, n: nat, out: seq<Event>,
                   left: nat, p: seq<Event>, rest: seq<seq<Event>>)
    requires Taken(presses, k, start, n, out) && |out| < n && p != []
    requires left > 0 && presses[k..] == Times(left, p) + rest
    ensures k < |presses| && Taken(presses, k + 1, start, n, out + p)
    ensures presses[k + 1..] == Times(left - 1, p) + rest
  {
    assert presses[k..][0] == Times(left, p)[0] == p;
    assert presses[k + 1..] == presses[k..][1..];
    assert Times(left, p)[1..] == Times(left - 1, p);
    TakenStep(presses, k, start, n, out);
  }

  lemma {:induction false} TakenAll(presses: seq<seq<Event>>, k: nat, start: seq<Event>, n: nat, out: seq<Event>)
    requires Taken(presses, k, start, n, out) && (|out| >= n || k == |presses|)
    ensures k == Needed(presses, |start|, n) && !Stuck(presses, |start|, n)
  {
  }

  lemma {:induction false} NothingLeft(storage: seq<Event>, i: nat, presses: seq<seq<Event>>, k: nat, how: Reading)
    requires i == |storage| && k <= |presses| && Presses(storage[i..], how) == presses[k..]
    ensures k == |presses|
  {
    assert storage[i..] == [];
  }

  /** The items taken beyond n are the rest of the last character. */
  lemma {:induction false} OverrunTaken(presses: seq<seq<Event>>, start: seq<Event>, n: nat)
    requires |start| <= n
    ensures var k := Needed(presses, |start|, n);
      && Suffix(n, start + Flat(presses[..k])) == Overrun(presses, |start|, n)
      && (k == |presses| || |start + Flat(presses[..k])| >= n)
    decreases |presses|
  {
    if |start| < n && presses != [] {
      var p, k := presses[0], Needed(presses, |start|, n);
      assert presses[..k][0] == p && presses[..k][1..] == presses[1..][..k - 1];
      assert start + (p + Flat(presses[1..][..k - 1])) == start + p + Flat(presses[1..][..k - 1]);
      if |start + p| > n {
        assert Flat(presses[1..][..k - 1]) == [];
        assert (start + p)[n..] == p[n - |start|..];
      } else {
        OverrunTaken(presses[1..], start + p, n);
      }
    }
  }

  lemma {:induction false} NoOverrun(presses: seq<seq<Event>>, had: nat, n: nat)
    requires forall j :: 0 <= j < |presses| ==> |presses[j]| == 1
    ensures Overrun(presses, had, n) == [] && !Stuck(presses, had, n)
    decreases |presses|
  {
    if presses != [] {
      NoOverrun(presses[1..], had + |presses[0]|, n);
    }
  }

  /** What is left from position i on, if the key there has only so many presses left. */
  ghost predicate Stopped(storage: seq<Event>, how: Reading, i: nat, left: nat, rest: seq<seq<Event>>) {
    if left == 0 then i <= |storage| && Presses(storage[i..], how) == rest
    else
      && i < |storage| && storage[i].Key? && how.stream
      && rest == Times(left, Press(storage[i], how)) + Presses(storage[i + 1..], how)
  }

  /** A key of which some presses were taken keeps the others. */
  lemma {:induction false} LeftInPlace(storage: seq<Event>, i: nat, left: nat, how: Reading)
    requires i < |storage| && storage[i].Key? && left > 0 && how.stream
    ensures Presses(storage[i := storage[i].(repeat := left)][i..], how)
         == Times(left, Press(storage[i], how)) + Presses(storage[i + 1..], how)
  {
    var s := storage[i := storage[i].(repeat := left)];
    assert s[i..][0] == s[i] && s[i..][1..] == storage[i + 1..];
  }

  // ----- writing

  predicate Flag(x: bv32, bit: bv32) {
    x & bit != 0
  }

  /** Pause, or control-S without alt. */
  predicate PauseKey(e: Event)
    requires e.Key?
  {
    || e.vk == 0x13
    || ((Flag(e.ctrl, 8) || Flag(e.ctrl, 4)) && !Flag(e.ctrl, 2) && !Flag(e.ctrl, 1) && e.vk == 'S' as int)
  }

  /** _CoalesceEvent: the last event in storage takes the new one in. */
  predicate Merges(last: Event, e: Event) {
    || (last.Mouse? && e.Mouse? && last.moved && e.moved)
    || (&& last.Key? && e.Key? && last.down && e.down
        && (last.scan == e.scan || Flag(e.ctrl, 0x0400_0000))
        && last.ch == e.ch && last.ctrl == e.ctrl
        && !(0xD800 <= e.ch < 0xE000))
  }

  /** The repeat count is 16 bits wide. */
  function Merged(last: Event, e: Event): Event
    requires Merges(last, e)
  {
    if last.Mouse? then last.(position := e.position) else last.(repeat := (last.repeat + e.repeat) % 0x1_0000)
  }

  function MergeLast(storage: seq<Event>, e: Event): seq<Event>
    requires storage != [] && Merges(storage[|storage| - 1], e)
  {
    storage[|storage| - 1 := Merged(storage[|storage| - 1], e)]
  }

  /** The modes that decide about incoming keys, and the keyboard layout's key for a null. */
  datatype Settings = Settings(lineInput: bool, vtInput: bool, systemKey: nat -> bool, zeroKey: nat, zeroCtrl: bv32)

  /** The key events that type a text. */
  function Typed(text: seq<nat>, env: Settings): seq<Event> {
    seq(|text|, i requires 0 <= i < |text| =>
      if text[i] == 0 then Key(true, 1, env.zeroKey, 0, 0, env.zeroCtrl) else Key(true, 1, 0, 0, text[i], 0))
  }

  /** What becomes of incoming events: the ones stored, how many count as written, and whether output is
      suspended afterwards.  vt holds the terminal input module's answer to each event. */
  datatype Intake = Intake(stored: seq<Event>, written: nat, suspended: bool)

  function Releases(e: Event, env: Settings, suspended: bool): bool {
    e.Key? && e.down && suspended && !env.systemKey(e.vk)
  }

  function Suspends(e: Event, env: Settings): bool {
    e.Key? && e.down && env.lineInput && PauseKey(e)
  }

  function Take(e: Event, vt: Option<seq<nat>>, env: Settings, suspended: bool): Intake {
    if Releases(e, env, suspended) then Intake([], 0, false)
    else if Suspends(e, env) then Intake([], 0, true)
    else if env.vtInput && vt.Some? then Intake(Typed(vt.value, env), 1, suspended)
    else Intake([e], 1, suspended)
  }

  /** ... of the first n events. */
  function TakeFirst(events: seq<Event>, vt: seq<Option<seq<nat>>>, n: nat, env: Settings, suspended: bool): Intake
    requires |vt| == |events| && n <= |events|
  {
    if n == 0 then Intake([], 0, suspended)
    else
      var before := TakeFirst(events, vt, n - 1, env, suspended);
      var last := Take(events[n - 1], vt[n - 1], env, before.suspended);
      Intake(before.stored + last.stored, before.written + last.written, last.suspended)
  }

  function TakeAll(events: seq<Event>, vt: seq<Option<seq<nat>>>, env: Settings, suspended: bool): Intake
    requires |vt| == |events|
  {
    TakeFirst(events, vt, |events|, env, suspended)
  }

  /** The first n events have been taken in. */
  ghost predicate TakenIn(events: seq<Event>, vt: seq<Option<seq<nat>>>, n: nat, env: Settings, start: bool, was: seq<Event>,
                          storage: seq<Event>, suspended: bool, written: nat)
    requires |vt| == |events| && n <= |events|
  {
    var x := TakeFirst(events, vt, n, env, start);
    storage == was + x.stored && suspended == x.suspended && written == x.written
  }

  lemma {:induction false} TakenInNone(events: seq<Event>, vt: seq<Option<seq<nat>>>, env: Settings, start: bool, was: seq<Event>)
    requires |vt| == |events|
    ensures TakenIn(events, vt, 0, env, start, was, was, start, 0)
  {
    assert was + [] == was;
  }

  lemma {:induction false} TakenInNext(events: seq<Event>, vt: seq<Option<seq<nat>>>, i: nat, env: Settings, start: bool,
                                       was: seq<Event>, storage: seq<Event>, suspended: bool, written: nat)
    requires |vt| == |events| && i < |events| && TakenIn(events, vt, i, env, start, was, storage, suspended, written)
    ensures var one := Take(events[i], vt[i], env, suspended);
      TakenIn(events, vt, i + 1, env, start, was, storage + one.stored, one.suspended, written + one.written)
    ensures i == 0 ==> storage == was && suspended == start
  {
    JoinMore(was, TakeFirst(events, vt, i, env, start).stored, Take(events[i], vt[i], env, suspended).stored);
    assert was + [] == was;
  }

  // what a single event does, said once more without the functions above

  /** Any key resumes a suspended output, but for system keys. */
  predicate Resumes(e: Event, env: Settings, suspended: bool) {
    e.Key? && e.down && suspended && !env.systemKey(e.vk)
  }

  /** In line mode, the pause key, or S with a control key and no alt key, suspends it. */
  predicate Pauses(e: Event, env: Settings) {
    && e.Key? && e.down && env.lineInput
    && (e.vk == 0x13
        || ((e.ctrl & 8 != 0 || e.ctrl & 4 != 0) && e.ctrl & 2 == 0 && e.ctrl & 1 == 0 && e.vk == 0x53))
  }

  /** The last key is held on. */
  predicate Held(last: Event, e: Event) {
    && last.Key? && e.Key? && last.down && e.down && last.ch == e.ch && last.ctrl == e.ctrl
    && (last.scan == e.scan || e.ctrl & 0x0400_0000 != 0) && !(0xD800 <= e.ch <= 0xDFFF)
  }

  /** The mouse moves on. */
  predicate MovesOn(last: Event, e: Event) {
    last.Mouse? && e.Mouse? && last.moved && e.moved
  }

  /** The keys type the text. */
  ghost predicate Types(keys: seq<Event>, text: seq<nat>) {
    && |keys| == |text|
    && forall k :: 0 <= k < |keys| ==> keys[k].Key? && keys[k].down && keys[k].repeat == 1 && keys[k].ch == text[k]
  }

  ghost predicate WroteOne(was: seq<Event>, suspended: bool, e: Event, vt: Option<seq<nat>>, env: Settings,
                           storage: seq<Event>, suspended': bool, written: nat)
  {
    if Resumes(e, env, suspended) then storage == was && !suspended' && written == 0
    else if Pauses(e, env) then storage == was && suspended' && written == 0
    else
      && suspended' == suspended && written == 1
      && if env.vtInput && vt.Some? then was <= storage && Types(storage[|was|..], vt.value)
         else if was != [] && Held(was[|was| - 1], e) then
           var n := |was| - 1;
           var l := was[n];
           storage == was[..n] + [Key(true, (l.repeat + e.repeat) % 0x1_0000, l.vk, l.scan, l.ch, l.ctrl)]
         else if was != [] && MovesOn(was[|was| - 1], e) then
           var n := |was| - 1;
           storage == was[..n] + [Mouse(true, e.position, was[n].buttons)]
         else storage == was + [e]
  }

  lemma {:induction false} SameTests(last: Event, e: Event, env: Settings, suspended: bool)
    ensures Releases(e, env, suspended) <==> Resumes(e, env, suspended)
    ensures Suspends(e, env) <==> Pauses(e, env)
    ensures Merges(last, e) <==> Held(last, e) || MovesOn(last, e)
    ensures !(Held(last, e) && MovesOn(last, e))
  {
  }

  lemma {:induction false} OneTaken(events: seq<Event>, vt: seq<Option<seq<nat>>>, env: Settings, suspended: bool)
    requires |events| == |vt| == 1
    ensures TakeAll(events, vt, env, suspended) == Take(events[0], vt[0], env, suspended)
  {
    var x := Take(events[0], vt[0], env, suspended);
    assert TakeFirst(events, vt, 0, env, suspended) == Intake([], 0, suspended);
    assert [] + x.stored == x.stored;
  }

  lemma {:induction false} OneWritten(was: seq<Event>, suspended: bool, e: Event, vt: Option<seq<nat>>, env: Settings)
    ensures var x := Take(e, vt, env, suspended);
      WroteOne(was, suspended, e, vt, env,
               if Coalesces(was, e, vt, env, suspended) then MergeLast(was, e) else was + x.stored, x.suspended, x.written)
  {
    var last := if was != [] then was[|was| - 1] else e;
    SameTests(last, e, env, suspended);
    assert was + [] == was;
    if Releases(e, env, suspended) || Suspends(e, env) {
    } else if env.vtInput && vt.Some? {
      var keys := Typed(vt.value, env);
      assert (was + keys)[|was|..] == keys;
    } else if was != [] && Merges(last, e) {
      MergedOne(was, e);
    }
  }

  lemma {:induction false} MergedOne(was: seq<Event>, e: Event)
    requires was != [] && Merges(was[|was| - 1], e)
    ensures var n := |was| - 1; var l := was[n];
      MergeLast(was, e) == was[..n] + [if l.Mouse? then Mouse(true, e.position, l.buttons)
                                       else Key(true, (l.repeat + e.repeat) % 0x1_0000, l.vk, l.scan, l.ch, l.ctrl)]
  {
  }

  /** No event is a key that goes down, and none is handled as text. */
  ghost predicate Plain(events: seq<Event>, vt: seq<Option<seq<nat>>>, env: Settings)
    requires |vt| == |events|
  {
    forall i :: 0 <= i < |events| ==> !(events[i].Key? && events[i].down) && !(env.vtInput && vt[i].Some?)
  }

  lemma {:induction false} PlainTaken(events: seq<Event>, vt: seq<Option<seq<nat>>>, n: nat, env: Settings, suspended: bool)
    requires |vt| == |events| && n <= |events| && Plain(events, vt, env)
    ensures TakeFirst(events, vt, n, env, suspended) == Intake(events[..n], n, suspended)
  {
    if n > 0 {
      PlainTaken(events, vt, n - 1, env, suspended);
      assert events[..n] == events[..n - 1] + [events[n - 1]];
    }
  }

  /** What a write does: one event as above, and several that are plain go to the end. */
  ghost predicate Wrote(was: seq<Event>, suspended: bool, events: seq<Event>, vt: seq<Option<seq<nat>>>, env: Settings,
                        storage: seq<Event>, suspended': bool, written: nat)
    requires |vt| == |events|
  {
    && (|events| == 1 ==> WroteOne(was, suspended, events[0], vt[0], env, storage, suspended', written))
    && (|events| != 1 && Plain(events, vt, env) ==>
          storage == was + events && suspended' == suspended && written == |events|)
  }

  lemma {:induction false} WriteMeans(was: seq<Event>, start: bool, events: seq<Event>, vt: seq<Option<seq<nat>>>, env: Settings,
                                      storage: seq<Event>, suspended: bool, written: nat)
    requires |vt| == |events|
    requires var x := TakeAll(events, vt, env, start); suspended == x.suspended && written == x.written
    requires storage == if |events| == 1 && Coalesces(was, events[0], vt[0], env, start) then MergeLast(was, events[0])
                        else was + TakeAll(events, vt, env, start).stored
    ensures Wrote(was, start, events, vt, env, storage, suspended, written)
  {
    if |events| == 1 {
      OneTaken(events, vt, env, start);
      OneWritten(was, start, events[0], vt[0], env);
    } else if Plain(events, vt, env) {
      PlainTaken(events, vt, |events|, env, start);
      assert events[..|events|] == events;
    }
  }

  // ----- the buffer

  datatype Status = Success | Wait | Failed

  class InputBuffer {
    var storage: seq<Event>
    var cached: seq<Event>
    var mode: Mode
    var signaled: bool
    var suspended: bool

    /** Whoever waits for input is woken while there is something in storage. */
    ghost predicate Valid()
      reads this
    {
      storage != [] ==> signaled
    }

    /** The events set aside by the previous reads, if those were in the same mode. */
    function Pending(unicode: bool): seq<Event>
      reads this
    {
      if mode == ModeOf(unicode) then cached else []
    }

    /** All that a reader can still get, in order. */
    function Fifo(how: Reading): seq<Event>
      reads this
    {
      Pending(how.unicode) + Flat(Presses(storage, how))
    }

    constructor ()
      ensures Valid() && storage == [] && cached == []
    {
      storage, cached, mode, signaled, suspended := [], [], Text, false, false;
    }

    method SwitchReadingMode(unicode: bool)
      modifies this`cached, this`mode
      ensures mode == ModeOf(unicode) && cached == old(Pending(unicode))
    {
      if mode != ModeOf(unicode) {
        cached := [];
        mode := ModeOf(unicode);
      }
    }

    method ConsumeCached(unicode: bool, count: nat) returns (out: seq<Event>)
      modifies this`cached, this`mode
      ensures mode == ModeOf(unicode)
      ensures out == Prefix(count, old(Pending(unicode))) && cached == Suffix(count, old(Pending(unicode)))
    {
      SwitchReadingMode(unicode);
      ghost var all := cached;
      out := [];
      var i := 0;
      while i < count && cached != []
        invariant 0 <= i <= count && i == |out| && mode == ModeOf(unicode)
        invariant out + cached == all
        decreases |cached|
      {
        out := out + [cached[0]];
        cached := cached[1..];
        i := i + 1;
      }
      assert all[..|out|] == out && all[|out|..] == cached;
    }

    method PeekCached(unicode: bool, count: nat) returns (out: seq<Event>)
      modifies this`cached, this`mode
      ensures mode == ModeOf(unicode) && cached == old(Pending(unicode))
      ensures out == Prefix(count, cached)
    {
      SwitchReadingMode(unicode);
      out := [];
      var i := 0;
      while i < |cached| && i < count
        invariant 0 <= i <= |cached| && i <= count && out == cached[..i]
        invariant mode == ModeOf(unicode) && cached == old(Pending(unicode))
      {
        out := out + [cached[i]];
        i := i + 1;
      }
      assert cached[..|cached|] == cached;
    }

    method Cache(unicode: bool, source: seq<Event>, expected: nat) returns (trimmed: seq<Event>)
      modifies this`cached, this`mode
      ensures mode == ModeOf(unicode)
      ensures trimmed == Prefix(expected, source) && cached == old(Pending(unicode)) + Suffix(expected, source)
    {
      SwitchReadingMode(unicode);
      trimmed := source;
      if |source| > expected {
        cached := cached + source[expected..];
        trimmed := source[..expected];
      } else {
        assert cached + [] == cached;
      }
    }

    /** Read.  A removing read returns exactly the first n items of the queue and leaves exactly the others;
        a peek returns the same items and leaves the storage.  Only a narrow peek that ends within a
        character changes what later reads get: it sets the rest of that character aside a second time.
        A read fails exactly if it comes to a key it cannot convert; then what was set aside is lost. */
    method Read(n: nat, peek: bool, waitForData: bool, how: Reading) returns (out: seq<Event>, status: Status)
      requires Valid()
      modifies this
      ensures Valid() && mode == ModeOf(how.unicode)
      ensures status == Failed <==> Stuck(old(Presses(storage, how)), |old(Pending(how.unicode))|, n)
      ensures status != Failed ==> out == Prefix(n, old(Fifo(how)))
      ensures status != Failed && !peek ==> Fifo(how) == Suffix(n, old(Fifo(how)))
      ensures peek || status == Failed ==> storage == old(storage)
      ensures status != Failed && peek ==>
        cached == old(Pending(how.unicode)) + Overrun(old(Presses(storage, how)), |old(Pending(how.unicode))|, n)
      ensures status == Failed ==> cached == if peek then old(Pending(how.unicode)) else []
      ensures status == Wait <==> status != Failed && out == [] && waitForData
      ensures signaled == (old(signaled) && (status == Failed || out == [] || storage != []))
      ensures suspended == old(suspended)
      // the same, without the presses that the queue is made of
      ensures status != Failed && !peek ==>
        Accounted(old(Pending(how.unicode)), old(storage), out, Pending(how.unicode), storage, how)
      ensures status != Failed ==>
        forall k :: 0 <= k < |out| ==> out[k] in old(Pending(how.unicode)) || Stored(out[k], old(storage), how)
    {
      ghost var pending, was := Pending(how.unicode), storage;
      out, status := ReadItems(n, peek, waitForData, how);
      if status != Failed {
        ReadIsStored(pending, was, n, out, how);
        if !peek {
          ReadAccounts(pending, was, n, out, Pending(how.unicode), storage, how);
        }
      }
    }

    method ReadItems(n: nat, peek: bool, waitForData: bool, how: Reading) returns (out: seq<Event>, status: Status)
      requires Valid()
      modifies this
      ensures Valid() && mode == ModeOf(how.unicode)
      ensures status == Failed <==> Stuck(old(Presses(storage, how)), |old(Pending(how.unicode))|, n)
      ensures status != Failed ==> out == Prefix(n, old(Fifo(how)))
      ensures status != Failed && !peek ==> Fifo(how) == Suffix(n, old(Fifo(how)))
      ensures peek || status == Failed ==> storage == old(storage)
      ensures status != Failed && peek ==>
        cached == old(Pending(how.unicode)) + Overrun(old(Presses(storage, how)), |old(Pending(how.unicode))|, n)
      ensures status == Failed ==> cached == if peek then old(Pending(how.unicode)) else []
      ensures status == Wait <==> status != Failed && out == [] && waitForData
      ensures signaled == (old(signaled) && (status == Failed || out == [] || storage != []))
      ensures suspended == old(suspended)
    {
      var failed;
      out, failed := Collect(n, peek, how);
      if failed {
        return out, Failed;
      }
      if |out| == 0 {
        return out, if waitForData then Wait else Success;
      }
      if storage == [] {
        signaled := false;
      }
      status := Success;
    }

    /** The items of a read, and what it leaves. */
    method Collect(n: nat, peek: bool, how: Reading) returns (out: seq<Event>, failed: bool)
      modifies this`storage, this`cached, this`mode
      ensures mode == ModeOf(how.unicode) && (storage != [] ==> old(storage) != [])
      ensures failed <==> Stuck(old(Presses(storage, how)), |old(Pending(how.unicode))|, n)
      ensures !failed ==> out == Prefix(n, old(Fifo(how)))
      ensures !failed && !peek ==> Fifo(how) == Suffix(n, old(Fifo(how)))
      ensures peek || failed ==> storage == old(storage)
      ensures !failed && peek ==>
        cached == old(Pending(how.unicode)) + Overrun(old(Presses(storage, how)), |old(Pending(how.unicode))|, n)
      ensures failed ==> cached == if peek then old(Pending(how.unicode)) else []
    {
      ghost var all, pending := Presses(storage, how), Pending(how.unicode);
      if peek {
        out := PeekCached(how.unicode, n);
      } else {
        out := ConsumeCached(how.unicode, n);
      }
      var i;
      failed, out, i := Fetch(n, peek, how, out);
      ReadMeans(all, pending, n);
      if failed {
        return;
      }
      if !peek {
        storage := storage[i..];
      }
      out := Cache(how.unicode, out, n);
    }

    /** The loop over the storage: takes presses until there are n items.  Unless it peeks, what it took
        is what it leaves before position i, and a key taken in part keeps the presses left. */
    method Fetch(n: nat, peek: bool, how: Reading, start: seq<Event>)
      returns (failed: bool, out: seq<Event>, i: nat)
      modifies this`storage
      ensures failed <==> Stuck(old(Presses(storage, how)), |start|, n)
      ensures peek || failed ==> storage == old(storage)
      ensures !failed ==> var all := old(Presses(storage, how)); var k := Needed(all, |start|, n);
        && out == start + Flat(all[..k])
        && (!peek ==> i <= |storage| && Presses(storage[i..], how) == all[k..])
        && (storage == [] ==> old(storage) == [])
    {
      var left;
      failed, out, i, left := Scan(storage, n, peek, how, start);
      if !failed && !peek && left > 0 {
        LeftInPlace(storage, i, left, how);
        storage := storage[i := storage[i].(repeat := left)];
      }
    }

    /** Where the loop stops; some presses of the key there may be left. */
    static method Scan(storage: seq<Event>, n: nat, peek: bool, how: Reading, start: seq<Event>)
      returns (failed: bool, out: seq<Event>, i: nat, left: nat)
      ensures failed <==> Stuck(Presses(storage, how), |start|, n)
      ensures !failed ==> var all := Presses(storage, how); var k := Needed(all, |start|, n);
        && out == start + Flat(all[..k])
        && (!peek ==> Stopped(storage, how, i, left, all[k..]))
    {
      ghost var all, k := Presses(storage, how), 0;
      out, i, left := start, 0, 0;
      TakenNone(all, start, n);
      assert storage[0..] == storage && all[0..] == all;
      while i < |storage| && |out| < n
        invariant i <= |storage| && 0 <= k <= |all| && (!peek ==> left == 0)
        invariant Taken(all, k, start, n, out)
        invariant |out| < n || !peek ==> Presses(storage[i..], how) == all[k..]
        decreases |storage| - i
      {
        PressesFrom(storage, i, how);
        failed, out, left, k := TakeEvent(storage[i], n, how, out, start, all, k, Presses(storage[i + 1..], how));
        if failed {
          return;
        }
        if left > 0 && !peek {
          TakenAll(all, k, start, n, out);
          return;
        }
        i := i + 1;
      }
      if |out| < n {
        NothingLeft(storage, i, all, k, how);
      }
      TakenAll(all, k, start, n, out);
      failed := false;
    }

    /** _WriteBuffer.  A single event may be merged into the last one stored; otherwise what is taken in goes
        to the end of the storage. */
    method WriteBuffer(events: seq<Event>, vt: seq<Option<seq<nat>>>, env: Settings) returns (written: nat)
      requires |vt| == |events|
      modifies this`storage, this`suspended
      ensures suspended == TakeAll(events, vt, env, old(suspended)).suspended
      ensures written == TakeAll(events, vt, env, old(suspended)).written
      ensures storage ==
        if |events| == 1 && Coalesces(old(storage), events[0], vt[0], env, old(suspended))
        then MergeLast(old(storage), events[0])
        else old(storage) + TakeAll(events, vt, env, old(suspended)).stored
    {
      written := 0;
      ghost var was, start := storage, suspended;
      TakenInNone(events, vt, env, start, was);
      for i := 0 to |events|
        invariant TakenIn(events, vt, i, env, start, was, storage, suspended, written)
        invariant i == 1 == |events| ==> !Coalesces(was, events[0], vt[0], env, start)
      {
        var merged;
        written, merged := WriteNext(events, vt, i, env, written, start, was);
        if merged {
          return;
        }
      }
    }

    /** One turn of the loop. */
    method WriteNext(events: seq<Event>, vt: seq<Option<seq<nat>>>, i: nat, env: Settings, written0: nat,
                     ghost start: bool, ghost was: seq<Event>)
      returns (written: nat, merged: bool)
      requires |vt| == |events| && i < |events|
      requires TakenIn(events, vt, i, env, start, was, storage, suspended, written0)
      modifies this`storage, this`suspended
      ensures merged == (|events| == 1 && Coalesces(was, events[0], vt[0], env, start))
      ensures merged ==> storage == MergeLast(was, events[0])
      ensures merged ==> var x := TakeAll(events, vt, env, start); suspended == x.suspended && written == x.written
      ensures !merged ==> TakenIn(events, vt, i + 1, env, start, was, storage, suspended, written)
    {
      TakenInNext(events, vt, i, env, start, was, storage, suspended, written0);
      var more;
      more, merged := WriteEvent(events[i], vt[i], env, |events| == 1);
      written := written0 + more;
    }

    /** The loop's body. */
    method WriteEvent(e: Event, vt: Option<seq<nat>>, env: Settings, single: bool) returns (more: nat, merged: bool)
      modifies this`storage, this`suspended
      ensures var one := Take(e, vt, env, old(suspended));
        && more == one.written && suspended == one.suspended
        && merged == (single && Coalesces(old(storage), e, vt, env, old(suspended)))
        && storage == if merged then MergeLast(old(storage), e) else old(storage) + one.stored
    {
      if e.Key? && e.down {
        if suspended && !env.systemKey(e.vk) {
          suspended := false;
          return 0, false;
        }
        if env.lineInput && PauseKey(e) {
          suspended := true;
          return 0, false;
        }
      }
      if env.vtInput && vt.Some? {
        WriteText(vt.value, env);
        return 1, false;
      }
      if single && storage != [] {
        merged := CoalesceEvent(e);
        if merged {
          return 1, true;
        }
      }
      storage := storage + [e];
      return 1, false;
    }

    /** _CoalesceEvent. */
    method CoalesceEvent(e: Event) returns (merged: bool)
      requires storage != []
      modifies this`storage
      ensures merged <==> Merges(old(storage)[|old(storage)| - 1], e)
      ensures storage == if merged then MergeLast(old(storage), e) else old(storage)
    {
      var n := |storage| - 1;
      var last := storage[n];
      if last.Mouse? && e.Mouse? {
        if last.moved && e.moved {
          storage := storage[n := last.(position := e.position)];
          return true;
        }
      } else if last.Key? && e.Key? {
        if && last.down && e.down
           && (last.scan == e.scan || Flag(e.ctrl, 0x0400_0000))
           && last.ch == e.ch && last.ctrl == e.ctrl
           && !(0xD800 <= e.ch < 0xE000)
        {
          storage := storage[n := last.(repeat := (last.repeat + e.repeat) % 0x1_0000)];
          return true;
        }
      }
      return false;
    }

    /** _writeString. */
    method WriteText(text: seq<nat>, env: Settings)
      modifies this`storage
      ensures storage == old(storage) + Typed(text, env)
    {
      assert storage + Typed([], env) == storage;
      for i := 0 to |text|
        invariant storage == old(storage) + Typed(text[..i], env)
      {
        assert Typed(text[..i + 1], env) == Typed(text[..i], env) +
          [if text[i] == 0 then Key(true, 1, env.zeroKey, 0, 0, env.zeroCtrl) else Key(true, 1, 0, 0, text[i], 0)];
        if text[i] == 0 {
          storage := storage + [Key(true, 1, env.zeroKey, 0, 0, env.zeroCtrl)];
        } else {
          storage := storage + [Key(true, 1, 0, 0, text[i], 0)];
        }
      }
      assert text[..|text|] == text;
    }

    /** _wakeupReadersOnExit. */
    method WakeReaders(initiallyEmpty: bool)
      requires initiallyEmpty || storage == [] || signaled
      modifies this`signaled
      ensures Valid() && signaled == (old(signaled) || (initiallyEmpty && storage != []))
    {
      if storage != [] && initiallyEmpty {
        signaled := true;
      }
    }

    method Write(events: seq<Event>, vt: seq<Option<seq<nat>>>, env: Settings) returns (written: nat)
      requires Valid() && |vt| == |events|
      modifies this`storage, this`suspended, this`signaled
      ensures Valid() && signaled == (old(signaled) || (old(storage) == [] && storage != []))
      ensures suspended == TakeAll(events, vt, env, old(suspended)).suspended
      ensures written == TakeAll(events, vt, env, old(suspended)).written
      ensures storage ==
        if |events| == 1 && Coalesces(old(storage), events[0], vt[0], env, old(suspended))
        then MergeLast(old(storage), events[0])
        else old(storage) + TakeAll(events, vt, env, old(suspended)).stored
      ensures Wrote(old(storage), old(suspended), events, vt, env, storage, suspended, written)
    {
      if events == [] {
        return 0;
      }
      var initiallyEmpty := storage == [];
      ghost var was, start := storage, suspended;
      written := WriteBuffer(events, vt, env);
      WriteMeans(was, start, events, vt, env, storage, suspended, written);
      WakeReaders(initiallyEmpty);
    }

    /** Prepend: the new events come before all that is stored, and are never merged. */
    method Prepend(events: seq<Event>, vt: seq<Option<seq<nat>>>, env: Settings) returns (written: nat)
      requires Valid() && |vt| == |events|
      modifies this`storage, this`suspended, this`signaled
      ensures Valid() && signaled == (old(signaled) || (old(storage) == [] && storage != []))
      ensures suspended == TakeAll(events, vt, env, old(suspended)).suspended
      ensures written == TakeAll(events, vt, env, old(suspended)).written
      ensures storage == TakeAll(events, vt, env, old(suspended)).stored + old(storage)
      ensures Plain(events, vt, env) ==> storage == events + old(storage) && suspended == old(suspended) && written == |events|
    {
      if Plain(events, vt, env) {
        PlainTaken(events, vt, |events|, env, suspended);
        assert events[..|events|] == events;
      }
      if events == [] {
        return 0;
      }
      var initiallyEmpty := storage == [];
      var existing := storage;
      storage := [];
      ghost var taken := TakeAll(events, vt, env, suspended);
      written := WriteBuffer(events, vt, env);
      assert storage == [] + taken.stored == taken.stored;
      PutBack(existing);
      WakeReaders(initiallyEmpty);
    }

    method PutBack(existing: seq<Event>)
      modifies this`storage
      ensures storage == old(storage) + existing
    {
      for i := 0 to |existing|
        invariant storage == old(storage) + existing[..i]
      {
        storage := storage + [existing[i]];
      }
    }

    method Flush()
      modifies this`storage, this`signaled
      ensures Valid() && storage == [] && !signaled
    {
      storage, signaled := [], false;
    }

    /** One event of the loop: another event than a key is one item. */
    static method TakeEvent(e: Event, n: nat, how: Reading, out0: seq<Event>,
                            ghost start: seq<Event>, ghost all: seq<seq<Event>>, ghost k0: nat, ghost rest: seq<seq<Event>>)
      returns (failed: bool, out: seq<Event>, left: nat, ghost k: nat)
      requires |out0| < n && Taken(all, k0, start, n, out0)
      requires all[k0..] == Times(Copies(e, how), Press(e, how)) + rest
      ensures failed ==> Stuck(all, |start|, n)
      ensures !failed ==> Taken(all, k, start, n, out) && all[k..] == Times(left, Press(e, how)) + rest
      ensures !failed && left == 0 ==> all[k..] == rest
      ensures !failed && left > 0 ==> |out| >= n && how.stream && e.Key?
    {
      if e.Key? {
        failed, out, left, k := Unpack(e, n, how, out0, start, all, k0, rest);
      } else {
        TakenFront(all, k0, start, n, out0, 1, [e], rest);
        failed, out, left, k := false, out0 + [e], 0, k0 + 1;
      }
    }

    /** The presses of one key, until there are n items. */
    static method Unpack(e: Event, n: nat, how: Reading, out0: seq<Event>,
                         ghost start: seq<Event>, ghost all: seq<seq<Event>>, ghost k0: nat, ghost rest: seq<seq<Event>>)
      returns (failed: bool, out: seq<Event>, left: nat, ghost k: nat)
      requires e.Key? && |out0| < n && Taken(all, k0, start, n, out0)
      requires all[k0..] == Times(Copies(e, how), Press(e, how)) + rest
      ensures failed <==> Press(e, how) == []
      ensures failed ==> Stuck(all, |start|, n)
      ensures !failed ==> Taken(all, k, start, n, out) && all[k..] == Times(left, Press(e, how)) + rest
      ensures !failed && left > 0 ==> |out| >= n && how.stream
    {
      var event, repeat := e, 1;
      if how.stream {
        repeat := if e.repeat > 1 then e.repeat else 1;
        event := event.(repeat := 1);
      }
      ghost var p := Press(e, how);
      assert all[k0] == all[k0..][0] == p;
      out, left, k := out0, repeat, k0;
      var items := [event];
      if !how.unicode {
        var str := how.codec(event.ch);
        if |str| == 0 {
          return true, out, left, k;
        }
        items := SpellOut(event, str);
      }
      failed := false;
      while left > 0 && (left == repeat || |out| < n)
        invariant left <= repeat && Taken(all, k, start, n, out)
        invariant all[k..] == Times(left, p) + rest
        invariant left == repeat ==> |out| < n
      {
        TakenFront(all, k, start, n, out, left, p, rest);
        out, left, k := out + items, left - 1, k + 1;
      }
    }

    static method SpellOut(event: Event, str: seq<nat>) returns (items: seq<Event>)
      requires event.Key?
      ensures items == Spelled(event, str)
    {
      items := [];
      for i := 0 to |str|
        invariant items == Spelled(event, str[..i])
      {
        items := items + [event.(ch := str[i])];
      }
      assert str[..|str|] == str;
    }
  }

  /** What a read returns, and what it sets aside and leaves, in terms of the queue. */
  lemma {:induction false} ReadMeans(all: seq<seq<Event>>, pending: seq<Event>, n: nat)
    ensures var start := Prefix(n, pending); var k := Needed(all, |start|, n); var out := start + Flat(all[..k]);
      && Prefix(n, out) == Prefix(n, pending + Flat(all))
      && Suffix(n, pending) + Suffix(n, out) + Flat(all[k..]) == Suffix(n, pending + Flat(all))
      && Suffix(n, out) == Overrun(all, |pending|, n)
      && (Stuck(all, |start|, n) <==> Stuck(all, |pending|, n))
      && (Stuck(all, |pending|, n) ==> Suffix(n, pending) == [])
  {
    if |pending| < n {
      ReadBeyond(all, pending, n);
    } else {
      ReadWithin(all, pending, n);
    }
  }

  /** A read for which what was set aside is enough. */
  lemma {:induction false} ReadWithin(all: seq<seq<Event>>, pending: seq<Event>, n: nat)
    requires |pending| >= n
    ensures var start := Prefix(n, pending);
      && Needed(all, |start|, n) == 0 && !Stuck(all, |start|, n) && !Stuck(all, |pending|, n)
      && Overrun(all, |pending|, n) == [] && Suffix(n, start) == [] && Prefix(n, start) == start
      && start == Prefix(n, pending + Flat(all)) && Suffix(n, pending) + Flat(all) == Suffix(n, pending + Flat(all))
  {
    SplitAt(n, pending, Flat(all));
  }

  /** A read that goes on to the storage. */
  lemma {:induction false} ReadBeyond(all: seq<seq<Event>>, pending: seq<Event>, n: nat)
    requires |pending| < n
    ensures var k := Needed(all, |pending|, n); var out := pending + Flat(all[..k]);
      && Prefix(n, pending) == pending && Suffix(n, pending) == []
      && Prefix(n, out) == Prefix(n, pending + Flat(all)) && Suffix(n, out) + Flat(all[k..]) == Suffix(n, pending + Flat(all))
      && Suffix(n, out) == Overrun(all, |pending|, n)
  {
    var k := Needed(all, |pending|, n);
    var x, y := pending + Flat(all[..k]), Flat(all[k..]);
    OverrunTaken(all, pending, n);
    FlatCut(all, k);
    JoinMore(pending, Flat(all[..k]), y);
    SplitAt(n, x, y);
  }

  lemma {:induction false} SplitAt<T>(n: nat, x: seq<T>, y: seq<T>)
    requires |x| >= n || y == []
    ensures Prefix(n, x) == Prefix(n, x + y) && Suffix(n, x) + y == Suffix(n, x + y)
  {
    if n < |x| {
      assert (x + y)[n..] == x[n..] + y;
    }
  }

  /** A single event is merged if it is neither swallowed nor handled otherwise. */
  ghost predicate Coalesces(storage: seq<Event>, e: Event, vt: Option<seq<nat>>, env: Settings, suspended: bool) {
    && storage != []
    && !Releases(e, env, suspended) && !Suspends(e, env) && !(env.vtInput && vt.Some?)
    && Merges(storage[|storage| - 1], e)
  }

  // ----- what later reads get

  /** A key read press by press loses nothing by being merged exactly if it is the same key in all respects,
      both counts are real, and the sum fits 16 bits. */
  lemma {:induction false} MergedReadsIff(storage: seq<Event>, e: Event, how: Reading)
    requires storage != [] && e.Key? && Merges(storage[|storage| - 1], e)
    requires how.stream && Press(e, how) != []
    ensures var last := storage[|storage| - 1];
      Presses(MergeLast(storage, e), how) == Presses(storage, how) + Presses([e], how)
      <==> last.vk == e.vk && last.scan == e.scan
           && last.repeat > 0 && e.repeat > 0 && last.repeat + e.repeat < 0x1_0000
  {
    var n := |storage| - 1;
    var last, all := storage[n], Presses(storage[..n], how);
    var merged := MergeLast(storage, e);
    assert merged[..n] == storage[..n];
    PressesLast(storage, how);
    PressesLast(merged, how);
    PressesOne(e, how);
    assert Press(merged[n], how) == Press(last, how);
    var a, b := Times(Copies(last, how), Press(last, how)), Times(Copies(e, how), Press(e, how));
    CancelFront(all, Times(Copies(merged[n], how), Press(last, how)), a, b);
    SameCopies(Copies(merged[n], how), Copies(last, how), Copies(e, how), Press(last, how), Press(e, how));
    SamePress(last, e, how);
    MergedCopies(last, e, how);
  }

  lemma {:induction false} MergedCopies(last: Event, e: Event, how: Reading)
    requires e.Key? && Merges(last, e) && how.stream
    ensures Copies(Merged(last, e), how) == Copies(last, how) + Copies(e, how)
       <==> last.repeat > 0 && e.repeat > 0 && last.repeat + e.repeat < 0x1_0000
  {
    var sum := last.repeat + e.repeat;
    assert sum % 0x1_0000 <= sum && (sum < 0x1_0000 ==> sum % 0x1_0000 == sum);
  }

  lemma {:induction false} CancelFront<T>(all: seq<T>, x: seq<T>, y: seq<T>, z: seq<T>)
    ensures all + x == all + y + z <==> x == y + z
  {
    assert all + y + z == all + (y + z);
    assert (all + x)[|all|..] == x && (all + (y + z))[|all|..] == y + z;
  }

  lemma {:induction false} SameCopies<T>(m: nat, a: nat, b: nat, x: T, y: T)
    requires a > 0 && b > 0
    ensures Times(m, x) == Times(a, x) + Times(b, y) <==> m == a + b && x == y
  {
    var s := Times(a, x) + Times(b, y);
    assert |s| == a + b && s[a] == y;
    if m == a + b {
      assert Times(m, x)[a] == x;
    }
  }

  lemma {:induction false} SamePress(last: Event, e: Event, how: Reading)
    requires e.Key? && Merges(last, e) && how.stream && Press(e, how) != []
    ensures Press(last, how) == Press(e, how) <==> last.vk == e.vk && last.scan == e.scan
  {
    assert Press(last, how)[0].vk == last.vk && Press(last, how)[0].scan == last.scan;
    assert Press(e, how)[0].vk == e.vk && Press(e, how)[0].scan == e.scan;
  }

  /** Storing at the end appends to what readers get. */
  lemma {:induction false} StoredReads(pending: seq<Event>, storage: seq<Event>, more: seq<Event>, how: Reading)
    ensures pending + Flat(Presses(storage + more, how))
         == pending + Flat(Presses(storage, how)) + Flat(Presses(more, how))
  {
    PressesJoin(storage, more, how);
    FlatJoin(Presses(storage, how), Presses(more, how));
  }

  /** A read of n items that starts with `had` of them ends with the items there are, or where a character ends. */
  ghost predicate EndsWithCharacter(presses: seq<seq<Event>>, had: nat, n: nat) {
    || n <= had
    || had + |Flat(presses)| <= n
    || exists k {:trigger presses[..k]} :: 0 <= k <= |presses| && had + |Flat(presses[..k])| == n
  }

  lemma {:induction false} OverrunIff(presses: seq<seq<Event>>, had: nat, n: nat)
    ensures Overrun(presses, had, n) == [] <==> EndsWithCharacter(presses, had, n)
    decreases |presses|
  {
    if had < n && presses != [] {
      var p, rest := presses[0], presses[1..];
      if had + |p| > n {
        forall k | 0 <= k <= |presses| ensures had + |Flat(presses[..k])| != n {
          if k > 0 {
            assert presses[..k][0] == p;
          }
        }
      } else {
        OverrunIff(rest, had + |p|, n);
        EndsLater(presses, had, n);
      }
    }
  }

  /** The same, seen from behind the first character. */
  lemma {:induction false} EndsLater(presses: seq<seq<Event>>, had: nat, n: nat)
    requires presses != [] && had < n && had + |presses[0]| <= n
    ensures EndsWithCharacter(presses, had, n) <==> EndsWithCharacter(presses[1..], had + |presses[0]|, n)
  {
    var p, rest := presses[0], presses[1..];
    forall k | 0 <= k <= |rest| ensures |Flat(presses[..k + 1])| == |p| + |Flat(rest[..k])| {
      assert presses[..k + 1][0] == p && presses[..k + 1][1..] == rest[..k];
    }
    if EndsWithCharacter(presses, had, n) && had + |Flat(presses)| > n {
      var k :| 0 <= k <= |presses| && had + |Flat(presses[..k])| == n;
      assert k > 0;
      assert had + |p| + |Flat(rest[..k - 1])| == n;
    }
    if EndsWithCharacter(rest, had + |p|, n) && had + |p| + |Flat(rest)| > n {
      if n <= had + |p| {
        assert rest[..0] == [] && had + |Flat(presses[..0 + 1])| == n;
      } else {
        var k :| 0 <= k <= |rest| && had + |p| + |Flat(rest[..k])| == n;
        assert had + |Flat(presses[..k + 1])| == n;
      }
    }
  }

  /** A peek leaves the queue as it was exactly if it does not end within a character; a Unicode one never does. */
  lemma {:induction false} PeekKeepsIff(pending: seq<Event>, storage: seq<Event>, n: nat, how: Reading)
    ensures var all := Presses(storage, how);
      pending + Overrun(all, |pending|, n) + Flat(all) == pending + Flat(all) <==> EndsWithCharacter(all, |pending|, n)
    ensures how.unicode ==> EndsWithCharacter(Presses(storage, how), |pending|, n)
  {
    var all := Presses(storage, how);
    DoubledIff(pending, Overrun(all, |pending|, n), Flat(all));
    OverrunIff(all, |pending|, n);
    if how.unicode {
      PressesWide(storage, how);
      NoOverrun(all, |pending|, n);
    }
  }

  lemma {:induction false} DoubledIff<T>(a: seq<T>, b: seq<T>, c: seq<T>)
    ensures a + b + c == a + c <==> b == []
  {
    assert |a + b + c| == |a + c| + |b|;
    assert b == [] ==> a + b == a;
  }

  /** A narrow peek of one item at a two-byte character leaves its second byte in the queue twice. */
  lemma {:induction false} PeekDoubles(e: Event, n: nat, how: Reading)
    requires e.Key? && !how.unicode && !how.stream && |how.codec(e.ch)| == 2 && n == 1
    ensures var item := (b: nat) => e.(ch := b); var bytes := how.codec(e.ch);
      Overrun(Presses([e], how), 0, n) + Flat(Presses([e], how)) == [item(bytes[1]), item(bytes[0]), item(bytes[1])]
  {
    PressesOne(e, how);
    var p := Press(e, how);
    assert Presses([e], how) == [p] && [p][1..] == [] && Flat([p]) == p;
  }
}
