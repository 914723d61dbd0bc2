/** Whole runs of writes to the input buffer and reads from it: what is taken and what is left, against what was
    there and what was written. */
module InputRuns {
  import opened Basics
  import opened InputQueue

  /** The buffer as a reader of one kind sees it. */
  datatype State = State(storage: seq<Event>, pending: seq<Event>, suspended: bool)

  ghost function View(b: InputBuffer, how: Reading): State
    reads b
  {
    State(b.storage, b.Pending(how.unicode), b.suspended)
  }

  ghost function Fifo(s: State, how: Reading): seq<Event> {
    s.pending + Flat(Presses(s.storage, how))
  }

  datatype Op =
    | DoWrite(events: seq<Event>, vt: seq<Option<seq<nat>>>, env: Settings)
    | DoRead(n: nat, waitForData: bool)

  predicate Proper(op: Op) {
    op.DoWrite? ==> |op.vt| == |op.events|
  }

  // ----- one operation

  /** The write puts its event into the last one stored. */
  ghost predicate WriteMerges(s: State, op: Op)
    requires Proper(op)
  {
    op.DoWrite? && |op.events| == 1 && Coalesces(s.storage, op.events[0], op.vt[0], op.env, s.suspended)
  }

  /** What a write is to add to the queue. */
  ghost function Items(s: State, op: Op, how: Reading): seq<Event>
    requires Proper(op)
  {
    if op.DoRead? then [] else Flat(Presses(TakeAll(op.events, op.vt, op.env, s.suspended).stored, how))
  }

  /** What Write and a removing Read promise. */
  ghost predicate Moves(s: State, op: Op, out: seq<Event>, s': State, how: Reading)
    requires Proper(op)
  {
    match op
    case DoWrite(events, vt, env) =>
      && out == [] && s'.pending == s.pending && s'.suspended == TakeAll(events, vt, env, s.suspended).suspended
      && s'.storage == if WriteMerges(s, op) then MergeLast(s.storage, events[0])
                       else s.storage + TakeAll(events, vt, env, s.suspended).stored
    case DoRead(n, _) =>
      s'.suspended == s.suspended &&
      if Stuck(Presses(s.storage, how), |s.pending|, n) then
        out == [] && s'.pending == [] && s'.storage == s.storage
      else
        out == Prefix(n, Fifo(s, how)) && Fifo(s', how) == Suffix(n, Fifo(s, how))
  }

  /** The event loses nothing by being merged: it reads as nothing, or it is the same key read press by press,
      both counts are real and the sum fits 16 bits. */
  predicate Lossless(last: Event, e: Event, how: Reading) {
    || Press(e, how) == []
    || (&& last.Key? && e.Key? && how.stream && last.vk == e.vk && last.scan == e.scan
        && last.repeat > 0 && e.repeat > 0 && last.repeat + e.repeat < 0x1_0000)
  }

  /** When an operation keeps to the plain queue: a merge is lossless, and a read that fails had nothing set aside. */
  ghost predicate Keeps(s: State, op: Op, how: Reading)
    requires Proper(op)
  {
    && (WriteMerges(s, op) ==> Lossless(s.storage[|s.storage| - 1], op.events[0], how))
    && (op.DoRead? && Stuck(Presses(s.storage, how), |s.pending|, op.n) ==> s.pending == [])
  }

  /** What was taken and what is left, against what was there and what was to be added: something is missing; or
      all is there, what was there unchanged, and the rest right exactly if `ok`. */
  ghost predicate Settles(before: seq<Event>, items: seq<Event>, out: seq<Event>, after: seq<Event>, ok: bool) {
    if |out + after| < |before + items| then !ok
    else |out + after| == |before + items| && before <= out + after && (out + after == before + items <==> ok)
  }

  lemma {:induction false} FlatTimes<T>(n: nat, p: seq<T>)
    ensures |Flat(Times(n, p))| == n * |p|
  {
    if n > 0 {
      assert Times(n, p)[0] == p && Times(n, p)[1..] == Times(n - 1, p);
      FlatTimes(n - 1, p);
    }
  }

  lemma {:induction false} TimesJoin<T>(m: nat, n: nat, p: T)
    ensures Times(m, p) + Times(n, p) == Times(m + n, p)
  {
  }

  lemma {:induction false} FlatLast(storage: seq<Event>, how: Reading)
    requires storage != []
    ensures var n := |storage| - 1;
      Flat(Presses(storage, how))
      == Flat(Presses(storage[..n], how)) + Flat(Times(Copies(storage[n], how), Press(storage[n], how)))
  {
    var n := |storage| - 1;
    PressesLast(storage, how);
    FlatJoin(Presses(storage[..n], how), Times(Copies(storage[n], how), Press(storage[n], how)));
  }

  lemma {:induction false} SameFlat<T>(n: nat, p: seq<T>, q: seq<T>)
    requires n > 0 && |p| == |q|
    ensures Flat(Times(n, p)) == Flat(Times(n, q)) <==> p == q
  {
    assert Times(n, p)[0] == p && Times(n, q)[0] == q;
    var x, y := Flat(Times(n, p)), Flat(Times(n, q));
    assert x[..|p|] == p && y[..|p|] == q;
    if p == q {
      assert Times(n, p) == Times(n, q);
    }
  }

  lemma {:induction false} MergedCopiesAtMost(last: Event, e: Event, how: Reading)
    requires e.Key? && Merges(last, e)
    ensures Copies(Merged(last, e), how) <= Copies(last, how) + Copies(e, how)
  {
    var sum := last.repeat + e.repeat;
    assert sum % 0x1_0000 <= sum;
  }

  /** a presses of one kind and b of another, merged into m of the first kind. */
  lemma {:induction false} CopiesSettle(a: nat, b: nat, m: nat, p: seq<Event>, q: seq<Event>)
    requires a > 0 && b > 0 && m <= a + b && |p| == |q| > 0
    ensures Settles(Flat(Times(a, p)), Flat(Times(b, q)), [], Flat(Times(m, p)), m == a + b && p == q)
  {
    FlatTimes(a, p);
    FlatTimes(b, q);
    FlatTimes(m, p);
    var x, y, z := Flat(Times(a, p)), Flat(Times(b, q)), Flat(Times(m, p));
    assert [] + z == z;
    assert (a + b) * |p| == a * |p| + b * |p|;
    if m == a + b {
      TimesJoin(a, b, p);
      FlatJoin(Times(a, p), Times(b, p));
      SameFlat(b, p, q);
      var x' := Flat(Times(b, p));
      assert z == x + x';
      assert z[|x|..] == x' && (x + y)[|x|..] == y;
    } else {
      Less(m, a + b, |p|);
    }
  }

  lemma {:induction false} Less(m: nat, n: nat, k: nat)
    requires m < n && k > 0
    ensures m * k < n * k
  {
    assert n * k == m * k + (n - m) * k;
    assert (n - m) * k >= 1;
  }

  lemma {:induction false} NothingFlat(n: nat, p: seq<Event>)
    requires p == []
    ensures Flat(Times(n, p)) == []
  {
    FlatTimes(n, p);
  }

  /** The presses of the merged event, against those of the two. */
  lemma {:induction false} MergeSettles(last: Event, e: Event, how: Reading)
    requires Merges(last, e)
    ensures Settles(Flat(Times(Copies(last, how), Press(last, how))), Flat(Times(Copies(e, how), Press(e, how))), [],
                    Flat(Times(Copies(Merged(last, e), how), Press(Merged(last, e), how))), Lossless(last, e, how))
  {
    var m := Merged(last, e);
    var a, b, c := Copies(last, how), Copies(e, how), Copies(m, how);
    assert |Press(last, how)| == |Press(e, how)| == |Press(m, how)|;
    if Press(e, how) == [] {
      NothingFlat(a, Press(last, how));
      NothingFlat(b, Press(e, how));
      NothingFlat(c, Press(m, how));
    } else if e.Key? && how.stream {
      assert Press(m, how) == Press(last, how);
      MergedCopies(last, e, how);
      MergedCopiesAtMost(last, e, how);
      SamePress(last, e, how);
      CopiesSettle(a, b, c, Press(last, how), Press(e, how));
    } else {
      FlatTimes(a, Press(last, how));
      FlatTimes(b, Press(e, how));
      FlatTimes(c, Press(m, how));
    }
  }

  /** Something in front of both does not matter. */
  lemma {:induction false} SettlesBehind(front: seq<Event>, before: seq<Event>, items: seq<Event>, after: seq<Event>, ok: bool)
    requires Settles(before, items, [], after, ok)
    ensures Settles(front + before, items, [], front + after, ok)
  {
    assert [] + after == after && [] + (front + after) == front + after;
    assert front + before + items == front + (before + items);
    assert (front + after)[|front|..] == after && (front + (before + items))[|front|..] == before + items;
    if before <= after {
      assert after == before + after[|before|..];
      assert front + after == front + before + after[|before|..];
    }
  }

  lemma {:induction false} WriteSettles(s: State, op: Op, s': State, how: Reading)
    requires Proper(op) && op.DoWrite? && Moves(s, op, [], s', how)
    ensures Settles(Fifo(s, how), Items(s, op, how), [], Fifo(s', how), Keeps(s, op, how))
  {
    var stored := TakeAll(op.events, op.vt, op.env, s.suspended).stored;
    if WriteMerges(s, op) {
      var n, e := |s.storage| - 1, op.events[0];
      var last, merged := s.storage[n], MergeLast(s.storage, op.events[0]);
      StoredWhenMerged(s, op);
      FlatLast(s.storage, how);
      FlatLast(merged, how);
      assert merged[..n] == s.storage[..n];
      PressesOne(e, how);
      MergeSettles(last, e, how);
      var front, x, y := Flat(Presses(s.storage[..n], how)), Flat(Times(Copies(last, how), Press(last, how))),
        Flat(Times(Copies(merged[n], how), Press(merged[n], how)));
      JoinMore(s.pending, front, x);
      JoinMore(s.pending, front, y);
      SettlesBehind(s.pending + front, x, Items(s, op, how), y, Keeps(s, op, how));
    } else {
      StoredReads(s.pending, s.storage, stored, how);
      assert [] + Fifo(s', how) == Fifo(s', how);
    }
  }

  lemma {:induction false} StoredWhenMerged(s: State, op: Op)
    requires Proper(op) && WriteMerges(s, op)
    ensures TakeAll(op.events, op.vt, op.env, s.suspended).stored == [op.events[0]]
  {
    assert TakeFirst(op.events, op.vt, 0, op.env, s.suspended).stored == [];
  }

  lemma {:induction false} ReadSettles(s: State, op: Op, out: seq<Event>, s': State, how: Reading)
    requires op.DoRead? && Moves(s, op, out, s', how)
    ensures Settles(Fifo(s, how), Items(s, op, how), out, Fifo(s', how), Keeps(s, op, how))
  {
    var all := Flat(Presses(s.storage, how));
    assert Fifo(s, how) + [] == Fifo(s, how);
    if Stuck(Presses(s.storage, how), |s.pending|, op.n) {
      assert [] + ([] + all) == all;
      if s.pending == [] {
        assert s.pending + all == all;
      }
    } else {
      assert out + Fifo(s', how) == Fifo(s, how);
    }
  }

  lemma {:induction false} StepSettles(s: State, op: Op, out: seq<Event>, s': State, how: Reading)
    requires Proper(op) && Moves(s, op, out, s', how)
    ensures Settles(Fifo(s, how), Items(s, op, how), out, Fifo(s', how), Keeps(s, op, how))
  {
    if op.DoRead? {
      ReadSettles(s, op, out, s', how);
    } else {
      WriteSettles(s, op, s', how);
    }
  }

  // ----- runs

  /** The states that a run goes through, and what each operation returns. */
  ghost predicate Run(states: seq<State>, ops: seq<Op>, outs: seq<seq<Event>>, how: Reading) {
    && |states| == |ops| + 1 && |outs| == |ops|
    && forall i :: 0 <= i < |ops| ==> Proper(ops[i]) && Moves(states[i], ops[i], outs[i], states[i + 1], how)
  }

  /** What the writes of a run are to add. */
  ghost function Written(states: seq<State>, ops: seq<Op>, how: Reading): seq<seq<Event>>
    requires |ops| <= |states| && forall i :: 0 <= i < |ops| ==> Proper(ops[i])
  {
    seq(|ops|, i requires 0 <= i < |ops| => Items(states[i], ops[i], how))
  }

  ghost predicate AllKeep(states: seq<State>, ops: seq<Op>, how: Reading)
    requires |ops| <= |states| && forall i :: 0 <= i < |ops| ==> Proper(ops[i])
  {
    forall i :: 0 <= i < |ops| ==> Keeps(states[i], ops[i], how)
  }

  lemma {:induction false} SettlesNext(start: seq<Event>, written: seq<Event>, taken: seq<Event>, fifo: seq<Event>, ok: bool,
                                       items: seq<Event>, out: seq<Event>, fifo': seq<Event>, ok': bool)
    requires Settles(start, written, taken, fifo, ok) && Settles(fifo, items, out, fifo', ok')
    ensures Settles(start, written + items, taken + out, fifo', ok && ok')
  {
    JoinMore(start, written, items);
    assert taken + out + fifo' == taken + (out + fifo');
    if |taken + fifo| == |start + written| && |out + fifo'| == |fifo + items| {
      var x := (out + fifo')[|fifo|..];
      assert out + fifo' == fifo + x;
      JoinMore(taken, fifo, x);
      assert taken + (out + fifo') == (taken + fifo) + x;
      SameParts(taken + fifo, x, start + written, items);
      CancelSame(fifo, x, items);
    }
  }

  lemma {:induction false} SameParts<T>(a: seq<T>, b: seq<T>, c: seq<T>, d: seq<T>)
    requires |a| == |c|
    ensures a + b == c + d <==> a == c && b == d
  {
    assert (a + b)[..|a|] == a && (a + b)[|a|..] == b && (c + d)[..|a|] == c && (c + d)[|a|..] == d;
  }

  lemma {:induction false} CancelSame<T>(a: seq<T>, b: seq<T>, c: seq<T>)
    ensures a + b == a + c <==> b == c
  {
    SameParts(a, b, a, c);
  }

  /** Step by step, over a chain of queues. */
  lemma {:induction false} ChainSettles(fifos: seq<seq<Event>>, items: seq<seq<Event>>, outs: seq<seq<Event>>, oks: seq<bool>,
                                        n: nat)
    requires n <= |items| == |outs| == |oks| && |fifos| == |items| + 1
    requires forall i {:trigger items[i]} :: 0 <= i < |items| ==> Settles(fifos[i], items[i], outs[i], fifos[i + 1], oks[i])
    ensures Settles(fifos[0], Flat(items[..n]), Flat(outs[..n]), fifos[n], forall i :: 0 <= i < n ==> oks[i])
  {
    if n == 0 {
      assert items[..0] == [] && outs[..0] == [] && fifos[0] + [] == fifos[0] && [] + fifos[0] == fifos[0];
    } else {
      var i := n - 1;
      ChainSettles(fifos, items, outs, oks, i);
      FlatStep(items, i);
      FlatStep(outs, i);
      SettlesNext(fifos[0], Flat(items[..i]), Flat(outs[..i]), fifos[i], forall k :: 0 <= k < i ==> oks[k],
                  items[i], outs[i], fifos[n], oks[i]);
    }
  }

  /** Over any run of writes and removing reads, what was taken and what is left are what was there and what was
      written, in order, if and only if every merge was lossless and no read that failed had items set aside. */
  lemma {:induction false} RunConservesIff(states: seq<State>, ops: seq<Op>, outs: seq<seq<Event>>, how: Reading)
    requires Run(states, ops, outs, how)
    ensures Flat(outs) + Fifo(states[|ops|], how) == Fifo(states[0], how) + Flat(Written(states, ops, how))
       <==> AllKeep(states, ops, how)
  {
    var n, items := |ops|, Written(states, ops, how);
    var fifos := seq(n + 1, i requires 0 <= i <= n => Fifo(states[i], how));
    var oks := seq(n, i requires 0 <= i < n => Keeps(states[i], ops[i], how));
    forall i | 0 <= i < n ensures Settles(fifos[i], items[i], outs[i], fifos[i + 1], oks[i]) {
      StepSettles(states[i], ops[i], outs[i], states[i + 1], how);
    }
    ChainSettles(fifos, items, outs, oks, n);
    assert items[..n] == items && outs[..n] == outs;
    assert forall i :: 0 <= i < n ==> oks[i] == Keeps(states[i], ops[i], how);
    assert (forall i :: 0 <= i < n ==> oks[i]) ==> AllKeep(states, ops, how);
  }

  /** The operations, made on a buffer. */
  method Drive(b: InputBuffer, ops: seq<Op>, how: Reading)
    returns (taken: seq<Event>, ghost states: seq<State>, ghost outs: seq<seq<Event>>)
    requires b.Valid() && forall i :: 0 <= i < |ops| ==> Proper(ops[i])
    modifies b
    ensures b.Valid() && Run(states, ops, outs, how) && taken == Flat(outs)
    ensures states[0] == old(View(b, how)) && states[|ops|] == View(b, how)
    ensures taken + b.Fifo(how) == old(b.Fifo(how)) + Flat(Written(states, ops, how)) <==> AllKeep(states, ops, how)
  {
    taken, states, outs := [], [View(b, how)], [];
    for i := 0 to |ops|
      invariant b.Valid() && |states| == i + 1 && |outs| == i
      invariant states[0] == old(View(b, how)) && states[i] == View(b, how) && taken == Flat(outs)
      invariant forall k :: 0 <= k < i ==> Moves(states[k], ops[k], outs[k], states[k + 1], how)
    {
      var out := DriveOne(b, ops[i], how);
      ghost var outs' := outs + [out];
      FlatStep(outs', i);
      assert outs'[..i] == outs && outs'[..i + 1] == outs';
      outs, states, taken := outs', states + [View(b, how)], taken + out;
    }
    RunConservesIff(states, ops, outs, how);
  }

  method DriveOne(b: InputBuffer, op: Op, how: Reading) returns (out: seq<Event>)
    requires b.Valid() && Proper(op)
    modifies b
    ensures b.Valid() && Moves(old(View(b, how)), op, out, View(b, how), how)
  {
    match op
    case DoWrite(events, vt, env) =>
      var _ := b.Write(events, vt, env);
      out := [];
    case DoRead(n, waitForData) =>
      var status;
      out, status := b.Read(n, false, waitForData, how);
      if status == Failed {
        out := [];
      }
  }
}
