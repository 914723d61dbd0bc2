/** Notions that several parts of the model share. */
module Basics {

  datatype Option<T> = None | Some(value: T)

  datatype Point = Point(x: int, y: int)

  function Max(a: int, b: int): int {
    if a > b then a else b
  }

  function Min(a: int, b: int): int {
    if a < b then a else b
  }

  // ----- sequences

  /** The first n elements, or all of them. */
  function Prefix<T>(n: nat, s: seq<T>): seq<T> {
    if n < |s| then s[..n] else s
  }

  /** ... and the others. */
  function Suffix<T>(n: nat, s: seq<T>): seq<T> {
    if n < |s| then s[n..] else []
  }

  lemma {:induction false} JoinMore<T>(a: seq<T>, b: seq<T>, c: seq<T>)
    ensures a + (b + c) == a + b + c
  {
  }

  function Flat<T>(ss: seq<seq<T>>): seq<T> {
    if ss == [] then [] else ss[0] + Flat(ss[1..])
  }

  lemma {:induction false} FlatJoin<T>(a: seq<seq<T>>, b: seq<seq<T>>)
    ensures Flat(a + b) == Flat(a) + Flat(b)
    decreases |a|
  {
    if a == [] {
      assert a + b == b;
    } else {
      assert (a + b)[0] == a[0] && (a + b)[1..] == a[1..] + b;
      FlatJoin(a[1..], b);
      JoinMore(a[0], Flat(a[1..]), Flat(b));
    }
  }

  lemma {:induction false} FlatOne<T>(s: seq<T>)
    ensures Flat([s]) == s
  {
    assert [s][1..] == [] && s + [] == s;
  }

  lemma {:induction false} FlatStep<T>(ss: seq<seq<T>>, k: nat)
    requires k < |ss|
    ensures Flat(ss[..k + 1]) == Flat(ss[..k]) + ss[k]
  {
    assert ss[..k + 1] == ss[..k] + [ss[k]];
    FlatJoin(ss[..k], [ss[k]]);
    FlatOne(ss[k]);
  }

  lemma {:induction false} FlatCut<T>(ss: seq<seq<T>>, k: nat)
    requires k <= |ss|
    ensures Flat(ss) == Flat(ss[..k]) + Flat(ss[k..])
  {
    FlatJoin(ss[..k], ss[k..]);
    assert ss[..k] + ss[k..] == ss;
  }
}
