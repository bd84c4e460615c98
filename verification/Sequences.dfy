/** Sequence facts the solver needs in this form. */
module Sequences {

  lemma Reassociate<T>(a: seq<T>, b: seq<T>, c: seq<T>)
    ensures a + (b + c) == a + b + c
  {
  }

  lemma PrefixOfPrefix<T>(a: seq<T>, m: nat, n: nat)
    requires n <= m <= |a|
    ensures a[..m][..n] == a[..n] && a[..n] <= a && (m == |a| ==> a[..m] == a)
  {
  }
}
