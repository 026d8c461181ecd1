/** Sequences without repetition, and selections from sequences. */
module Sequences {

  predicate Distinct<T(==)>(s: seq<T>) {
    forall i, j :: 0 <= i < j < |s| ==> s[i] != s[j]
  }

  lemma AppendKeepsDistinct<T>(a: seq<T>, b: seq<T>)
    requires Distinct(a) && Distinct(b) && forall x :: x in a ==> x !in b
    ensures Distinct(a + b)
  {
    forall i, j | 0 <= i < |a| <= j < |a| + |b| ensures (a + b)[i] != (a + b)[j] {
      assert a[i] in a && b[j - |a|] in b;
    }
  }

  /** `r` lists the elements of `s` at the positions `idx`, which ascend. */
  predicate Selects<T(==)>(s: seq<T>, idx: seq<nat>, r: seq<T>) {
    && |r| == |idx|
    && (forall a, b :: 0 <= a < b < |idx| ==> idx[a] < idx[b])
    && (forall a :: 0 <= a < |idx| ==> idx[a] < |s| && r[a] == s[idx[a]])
  }

  /** One more element, taken or not. */
  lemma SelectsMore<T>(s: seq<T>, idx: seq<nat>, r: seq<T>, x: T)
    requires Selects(s, idx, r)
    ensures Selects(s + [x], idx, r) && Selects(s + [x], idx + [|s|], r + [x])
  {
  }
}
