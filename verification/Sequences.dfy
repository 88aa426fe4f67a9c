/** Sequences without repetition, and facts about slices that the verifier needs to be told. */
module Sequences {
  predicate NoDuplicates<T(==)>(s: seq<T>) {
    forall i, j | 0 <= i < j < |s| :: s[i] != s[j]
  }

  lemma SliceOfSlice<T>(s: seq<T>, i: nat, end: nat, a: nat, b: nat)
    requires i <= end <= |s| && a <= b <= end - i
    ensures s[i..end][a..b] == s[i + a..i + b]
  {
    forall k | 0 <= k < b - a ensures s[i..end][a..b][k] == s[i + a..i + b][k] {
      assert s[i..end][a + k] == s[i + (a + k)];
    }
  }

  lemma SplitAt<T>(s: seq<T>, i: nat, k: nat, end: nat)
    requires i <= k <= end <= |s|
    ensures s[i..end] == s[i..k] + s[k..end]
  {
  }

  lemma Associate<T>(a: seq<T>, b: seq<T>, c: seq<T>)
    ensures (a + b) + c == a + (b + c)
  {
  }
}
