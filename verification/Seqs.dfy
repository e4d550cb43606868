/** Facts about sequences that the solver needs spelled out. */
module Seqs {

  lemma Assoc<T>(a: seq<T>, b: seq<T>, c: seq<T>)
    ensures (a + b) + c == a + (b + c)
  {
  }

  lemma PrefixCancel<T>(a: seq<T>, b: seq<T>, c: seq<T>)
    requires a + b <= a + c
    ensures b <= c
  {
    assert (a + b)[|a|..] == b && (a + c)[|a|..] == c;
    assert (a + c)[..|a + b|] == a + b;
    assert c[..|b|] == (a + c)[|a|..|a| + |b|];
  }

  lemma PrefixTransitive<T>(a: seq<T>, b: seq<T>, c: seq<T>)
    requires a <= b && b <= c
    ensures a <= c
  {
    assert c[..|a|] == b[..|a|];
  }

  lemma PrefixAppend<T>(a: seq<T>, b: seq<T>)
    ensures a <= a + b
  {
  }

  lemma Regroup<T>(a: seq<T>, q: seq<T>, n: nat, more: seq<T>)
    requires n <= |q|
    ensures (a + q[..n]) + (q[n..] + more) == (a + q) + more
  {
    assert q == q[..n] + q[n..];
  }

  function Flatten<T>(ss: seq<seq<T>>): seq<T> {
    if ss == [] then [] else Flatten(ss[..|ss| - 1]) + ss[|ss| - 1]
  }

  lemma FlattenSnoc<T>(ss: seq<seq<T>>, s: seq<T>)
    ensures Flatten(ss + [s]) == Flatten(ss) + s
  {
    assert (ss + [s])[..|ss|] == ss;
  }

  lemma {:induction false} InFlatten<T>(ss: seq<seq<T>>, i: nat, j: nat)
    requires i < |ss| && j < |ss[i]|
    ensures ss[i][j] in Flatten(ss)
  {
    if i < |ss| - 1 {
      InFlatten(ss[..|ss| - 1], i, j);
    }
  }

  /** What holds at `a` and is kept by every step up to `b` holds at `b`. */
  lemma {:induction false} Stepwise(p: nat -> bool, a: nat, b: nat)
    requires a <= b && p(a) && forall k: nat :: a <= k < b && p(k) ==> p(k + 1)
    ensures p(b)
    decreases b
  {
    if a < b {
      Stepwise(p, a, b - 1);
    }
  }
}
