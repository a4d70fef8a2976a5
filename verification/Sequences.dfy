/** Slices and concatenations of sequences. */
module Sequences {
  lemma {:induction false} Assoc<T>(a: seq<T>, b: seq<T>, c: seq<T>)
    ensures a + b + c == a + (b + c)
  {
  }

  lemma {:induction false} DropAppend<T>(a: seq<T>, b: seq<T>, k: nat)
    requires k <= |a|
    ensures (a + b)[k..] == a[k..] + b
  {
  }

  lemma {:induction false} TakeAppend<T>(a: seq<T>, b: seq<T>)
    ensures (a + b)[..|a|] == a && (a + b)[|a|..] == b
  {
  }

  lemma {:induction false} TakeMore<T>(a: seq<T>, b: seq<T>, n: nat)
    requires |a| <= n <= |a| + |b|
    ensures (a + b)[..n] == a + b[..n - |a|]
  {
  }

  lemma {:induction false} DropTake<T>(t: seq<T>, from: nat, n: nat)
    requires from + n <= |t|
    ensures t[from..][..n] == t[from..from + n]
  {
  }

  lemma {:induction false} DropDrop<T>(t: seq<T>, a: nat, b: nat)
    requires a + b <= |t|
    ensures t[a..][b..] == t[a + b..]
  {
  }

  lemma {:induction false} TakeSlice<T>(t: seq<T>, n: nat, from: nat, to: nat)
    requires from <= to <= n <= |t|
    ensures t[..n][from..to] == t[from..to]
  {
  }

  lemma {:induction false} NotInAppend<T>(x: T, a: seq<T>, b: seq<T>)
    requires x !in a && x !in b
    ensures x !in a + b
  {
  }
}
