/** Permutations of argument positions, in the order std::next_permutation visits them, and the
    permutation of the arguments of a Boolean function. */
module Permutations {
  import opened BoolFunctions
  import opened Sequences

  type Perm = seq<nat>

  function Iota(n: nat): (s: Perm)
    ensures |s| == n && forall i :: 0 <= i < n ==> s[i] == i
  {
    seq(n, i requires 0 <= i < n => i)
  }

  /** The positions below `|p|`, each once. */
  ghost predicate IsPerm(p: Perm) {
    multiset(p) == multiset(Iota(|p|))
  }

  ghost predicate OneToOne(p: Perm) {
    && (forall i :: 0 <= i < |p| ==> p[i] < |p|)
    && Distinct(p)
    && (forall k :: 0 <= k < |p| ==> k in p)
  }

  lemma {:induction false} DistinctCounts(s: Perm, x: nat)
    requires Distinct(s)
    ensures multiset(s)[x] == if x in s then 1 else 0
  {
    if s != [] {
      DistinctCounts(s[1..], x);
      assert s == [s[0]] + s[1..];
    }
  }

  lemma IsPermIffOneToOne(p: Perm)
    ensures IsPerm(p) <==> OneToOne(p)
  {
    var n := |p|;
    if OneToOne(p) {
      forall x: nat ensures multiset(p)[x] == multiset(Iota(n))[x] {
        DistinctCounts(p, x);
        DistinctCounts(Iota(n), x);
        assert x < n ==> Iota(n)[x] == x;
      }
    }
    if IsPerm(p) {
      forall i | 0 <= i < n ensures p[i] < n { assert p[i] in multiset(p); }
      forall k | 0 <= k < n ensures k in p { assert Iota(n)[k] == k && k in multiset(Iota(n)); }
      forall i, j | 0 <= i < j < n ensures p[i] != p[j] {
        if p[i] == p[j] {
          assert p == p[..j] + [p[j]] + p[j + 1..];
          assert p[i] in p[..j];
          assert multiset(p)[p[i]] >= 2;
          DistinctCounts(Iota(n), p[i]);
        }
      }
    }
  }

  /** xs[p[0]], xs[p[1]], ... */
  function Gather<T>(xs: seq<T>, p: Perm): (ys: seq<T>)
    requires IsPerm(p) && |xs| == |p|
    ensures |ys| == |p|
  {
    IsPermIffOneToOne(p);
    seq(|p|, i requires 0 <= i < |p| => xs[p[i]])
  }

  lemma GatherAt<T>(xs: seq<T>, p: Perm)
    requires IsPerm(p) && |xs| == |p|
    ensures forall i :: 0 <= i < |p| ==> p[i] < |p| && Gather(xs, p)[i] == xs[p[i]]
  {
    IsPermIffOneToOne(p);
  }

  function IndexOf(p: Perm, k: nat): (i: nat)
    requires k in p
    ensures i < |p| && p[i] == k
  {
    if p[0] == k then 0 else 1 + IndexOf(p[1..], k)
  }

  function Inverse(p: Perm): (q: Perm)
    requires IsPerm(p)
    ensures |q| == |p|
  {
    IsPermIffOneToOne(p);
    seq(|p|, k requires 0 <= k < |p| => IndexOf(p, k))
  }

  lemma InverseAt(p: Perm)
    requires IsPerm(p)
    ensures forall i :: 0 <= i < |p| ==> Inverse(p)[i] < |p| && p[Inverse(p)[i]] == i
    ensures forall i {:trigger p[i]} :: 0 <= i < |p| ==> p[i] < |p| && Inverse(p)[p[i]] == i
  {
    IsPermIffOneToOne(p);
  }

  lemma InverseIsPerm(p: Perm)
    requires IsPerm(p)
    ensures IsPerm(Inverse(p))
  {
    var q := Inverse(p);
    InverseAt(p);
    forall k | 0 <= k < |p| ensures k in q { assert q[p[k]] == k; }
    forall i, j | 0 <= i < j < |p| ensures q[i] != q[j] { assert p[q[i]] == i && p[q[j]] == j; }
    IsPermIffOneToOne(q);
  }

  lemma ComposeIsPerm(p: Perm, q: Perm)
    requires IsPerm(p) && IsPerm(q) && |p| == |q|
    ensures IsPerm(Gather(p, q))
  {
    var r := Gather(p, q);
    GatherAt(p, q);
    InverseAt(p);
    InverseAt(q);
    forall i, j | 0 <= i < j < |p| ensures r[i] != r[j] {
      assert Inverse(q)[Inverse(p)[r[i]]] == i && Inverse(q)[Inverse(p)[r[j]]] == j;
    }
    forall k | 0 <= k < |p| ensures k in r {
      assert r[Inverse(q)[Inverse(p)[k]]] == k;
    }
    IsPermIffOneToOne(r);
  }

  /** The sequence with xs[0] at position p[0], xs[1] at position p[1], ... */
  function Spread<T>(xs: seq<T>, p: Perm): (ys: seq<T>)
    requires IsPerm(p) && |xs| == |p|
    ensures |ys| == |p|
  {
    InverseIsPerm(p);
    Gather(xs, Inverse(p))
  }

  lemma SpreadAt<T>(xs: seq<T>, p: Perm)
    requires IsPerm(p) && |xs| == |p|
    ensures forall i :: 0 <= i < |p| ==> p[i] < |p| && Spread(xs, p)[p[i]] == xs[i]
    ensures forall k :: 0 <= k < |p| ==> Inverse(p)[k] < |p| && Spread(xs, p)[k] == xs[Inverse(p)[k]]
  {
    InverseAt(p);
    InverseIsPerm(p);
    GatherAt(xs, Inverse(p));
  }

  lemma SpreadGather<T>(ys: seq<T>, p: Perm)
    requires IsPerm(p) && |ys| == |p|
    ensures Spread(Gather(ys, p), p) == ys
  {
    InverseAt(p);
    GatherAt(ys, p);
    SpreadAt(Gather(ys, p), p);
  }

  lemma SpreadCompose<T>(xs: seq<T>, p: Perm, q: Perm)
    requires IsPerm(p) && IsPerm(q) && |p| == |q| == |xs|
    ensures IsPerm(Gather(p, q)) && Spread(Spread(xs, q), p) == Spread(xs, Gather(p, q))
  {
    ComposeIsPerm(p, q);
    var r := Gather(p, q);
    var zs := Spread(Spread(xs, q), p);
    GatherAt(p, q);
    SpreadAt(xs, q);
    SpreadAt(Spread(xs, q), p);
    GatherAt(zs, r);
    assert Gather(zs, r) == xs;
    SpreadGather(zs, r);
  }

  lemma IotaIsPerm(n: nat)
    ensures IsPerm(Iota(n))
    ensures forall xs: Bits :: |xs| == n ==> Gather(xs, Iota(n)) == xs
  {
    forall xs: Bits | |xs| == n ensures Gather(xs, Iota(n)) == xs {
      GatherAt(xs, Iota(n));
    }
  }

  // ---- permuting the arguments of a function ----

  /** The function a cover gets when its leaves are put in the order leaves[p[0]], leaves[p[1]], ... */
  ghost function Permute(f: Fn, p: Perm): (g: Fn)
    requires IsPerm(p) && |p| == f.arity
    ensures g.Valid() && g.arity == f.arity
  {
    Fn(f.arity, set xs | xs in Vectors(f.arity) && f.Apply(Spread(xs, p)))
  }

  lemma PermuteApply(f: Fn, p: Perm, xs: Bits)
    requires IsPerm(p) && |p| == |xs| == f.arity
    ensures Permute(f, p).Apply(xs) == f.Apply(Spread(xs, p))
  {
  }

  lemma PermuteIdentity(f: Fn)
    requires f.Valid()
    ensures IsPerm(Iota(f.arity)) && Permute(f, Iota(f.arity)) == f
  {
    IotaIsPerm(f.arity);
    forall xs: Bits | |xs| == f.arity
      ensures Permute(f, Iota(f.arity)).Apply(xs) == f.Apply(xs)
    {
      PermuteApply(f, Iota(f.arity), xs);
      SpreadGather(xs, Iota(f.arity));
    }
    SameFunction(Permute(f, Iota(f.arity)), f);
  }

  lemma PermuteCompose(f: Fn, p: Perm, q: Perm)
    requires IsPerm(p) && IsPerm(q) && |p| == |q| == f.arity
    ensures IsPerm(Gather(p, q)) && Permute(Permute(f, p), q) == Permute(f, Gather(p, q))
  {
    ComposeIsPerm(p, q);
    var r := Gather(p, q);
    forall xs: Bits | |xs| == f.arity
      ensures Permute(Permute(f, p), q).Apply(xs) == Permute(f, r).Apply(xs)
    {
      PermuteApply(Permute(f, p), q, xs);
      PermuteApply(f, p, Spread(xs, q));
      PermuteApply(f, r, xs);
      SpreadCompose(xs, p, q);
    }
    SameFunction(Permute(Permute(f, p), q), Permute(f, r));
  }

  lemma PermuteBack(f: Fn, p: Perm)
    requires f.Valid() && IsPerm(p) && |p| == f.arity
    ensures IsPerm(Inverse(p)) && Permute(Permute(f, p), Inverse(p)) == f
  {
    InverseIsPerm(p);
    PermuteCompose(f, p, Inverse(p));
    InverseAt(p);
    GatherAt(p, Inverse(p));
    assert Gather(p, Inverse(p)) == Iota(f.arity);
    PermuteIdentity(f);
  }

  ghost predicate EqualUpToPermutation(f: Fn, g: Fn) {
    f.arity == g.arity && exists p :: IsPerm(p) && |p| == f.arity && g == Permute(f, p)
  }

  ghost predicate Symmetric(f: Fn) {
    forall p :: IsPerm(p) && |p| == f.arity ==> Permute(f, p) == f
  }

  // ---- all permutations, in lexicographic order ----

  function Without(s: Perm, i: nat): Perm
    requires i < |s|
  {
    s[..i] + s[i + 1..]
  }

  function PrependAll(k: nat, ps: seq<Perm>): (r: seq<Perm>)
    ensures |r| == |ps| && forall j :: 0 <= j < |ps| ==> r[j] == [k] + ps[j]
  {
    seq(|ps|, j requires 0 <= j < |ps| => [k] + ps[j])
  }

  /** The arrangements of `s` that start with one of its elements from position `i` on, in order. */
  function ArrangementsFrom(s: Perm, i: nat): (r: seq<Perm>)
    requires i <= |s|
    decreases |s|, |s| - i
  {
    if i == |s| then []
    else PrependAll(s[i], Arrangements(Without(s, i))) + ArrangementsFrom(s, i + 1)
  }

  function Arrangements(s: Perm): (r: seq<Perm>)
    decreases |s|, |s| + 1
  {
    if s == [] then [[]] else ArrangementsFrom(s, 0)
  }

  function AllPermutations(n: nat): seq<Perm> {
    Arrangements(Iota(n))
  }

  lemma WithoutMultiset(s: Perm, i: nat)
    requires i < |s|
    ensures multiset(s) == multiset(Without(s, i)) + multiset{s[i]}
  {
    assert s == s[..i] + [s[i]] + s[i + 1..];
  }

  lemma {:induction false} ArrangementsFromAre(s: Perm, i: nat, p: Perm)
    requires i <= |s| && Distinct(s)
    ensures p in ArrangementsFrom(s, i) <==> multiset(p) == multiset(s) && p != [] && p[0] in s[i..]
    decreases |s|, |s| - i
  {
    if i < |s| {
      var rest := Without(s, i);
      ArrangementsFromAre(s, i + 1, p);
      assert s[i..] == [s[i]] + s[i + 1..];
      if p != [] {
        ArrangementsAre(rest, p[1..]);
        InPrependAll(s[i], Arrangements(rest), p);
        if p[0] == s[i] { SameHeadMultisets(s, i, p); }
      }
    }
  }

  lemma SameHeadMultisets(s: Perm, i: nat, p: Perm)
    requires i < |s| && p != [] && p[0] == s[i]
    ensures multiset(p) == multiset(s) <==> multiset(p[1..]) == multiset(Without(s, i))
  {
    WithoutMultiset(s, i);
    assert p == [p[0]] + p[1..];
    assert multiset(p) - multiset{p[0]} == multiset(p[1..]);
    assert multiset(s) - multiset{s[i]} == multiset(Without(s, i));
  }

  lemma InPrependAll(k: nat, ps: seq<Perm>, p: Perm)
    requires p != []
    ensures p in PrependAll(k, ps) <==> p[0] == k && p[1..] in ps
  {
    assert p == [p[0]] + p[1..];
    if p[0] == k && p[1..] in ps {
      var j :| 0 <= j < |ps| && ps[j] == p[1..];
      assert PrependAll(k, ps)[j] == p;
    }
  }

  lemma {:induction false} ArrangementsAre(s: Perm, p: Perm)
    requires Distinct(s)
    ensures p in Arrangements(s) <==> multiset(p) == multiset(s)
    decreases |s|, |s| + 1
  {
    if s == [] {
      assert multiset(p) == multiset(s) ==> |multiset(p)| == 0 && |p| == 0;
    } else {
      ArrangementsFromAre(s, 0, p);
      assert s[0..] == s;
      if multiset(p) == multiset(s) {
        assert |multiset(p)| == |p| == |s|;
        assert p[0] in multiset(p);
      }
    }
  }

  /** Every permutation of `n` positions is visited, and nothing else. */
  lemma AllPermutationsComplete(n: nat, p: Perm)
    ensures p in AllPermutations(n) <==> IsPerm(p) && |p| == n
  {
    ArrangementsAre(Iota(n), p);
    assert multiset(p) == multiset(Iota(n)) ==> |p| == |multiset(p)| == |multiset(Iota(n))| == n;
  }

  ghost predicate LexLess(a: Perm, b: Perm) {
    a != [] && b != [] && (a[0] < b[0] || (a[0] == b[0] && LexLess(a[1..], b[1..])))
  }

  /** Where they first differ `a` has the smaller element. */
  ghost predicate FirstDifference(a: Perm, b: Perm) {
    exists k :: 0 <= k < |a| && k < |b| && a[..k] == b[..k] && a[k] < b[k]
  }

  lemma {:induction false} LexLessIs(a: Perm, b: Perm)
    requires LexLess(a, b)
    ensures FirstDifference(a, b)
  {
    if a[0] < b[0] {
      assert a[..0] == b[..0];
    } else {
      LexLessIs(a[1..], b[1..]);
      var k :| 0 <= k < |a| - 1 && k < |b| - 1 && a[1..][..k] == b[1..][..k] && a[1..][k] < b[1..][k];
      assert a[..k + 1] == [a[0]] + a[1..][..k] && b[..k + 1] == [b[0]] + b[1..][..k];
    }
  }

  ghost predicate LexSorted(ps: seq<Perm>) {
    forall i, j :: 0 <= i < j < |ps| ==> LexLess(ps[i], ps[j])
  }

  ghost predicate Ascending(s: Perm) {
    forall i, j :: 0 <= i < j < |s| ==> s[i] < s[j]
  }

  lemma {:induction false} ArrangementsFromSorted(s: Perm, i: nat)
    requires i <= |s| && Ascending(s)
    ensures LexSorted(ArrangementsFrom(s, i))
    ensures forall p :: p in ArrangementsFrom(s, i) ==> p != [] && p[0] in s[i..]
    decreases |s|, |s| - i
  {
    if i < |s| {
      var first, later := PrependAll(s[i], Arrangements(Without(s, i))), ArrangementsFrom(s, i + 1);
      ArrangementsSorted(Without(s, i));
      ArrangementsFromSorted(s, i + 1);
      forall a, b | 0 <= a < b < |first + later|
        ensures LexLess((first + later)[a], (first + later)[b])
      {
        if b < |first| {
          assert first[a][1..] == Arrangements(Without(s, i))[a] && first[b][1..] == Arrangements(Without(s, i))[b];
        } else if a < |first| {
          assert later[b - |first|] in later;
        }
      }
    }
  }

  lemma {:induction false} ArrangementsSorted(s: Perm)
    requires Ascending(s)
    ensures LexSorted(Arrangements(s))
    decreases |s|, |s| + 1
  {
    if s != [] { ArrangementsFromSorted(s, 0); }
  }

  lemma {:induction false} FirstArrangement(s: Perm)
    ensures Arrangements(s) != [] && Arrangements(s)[0] == s
    decreases |s|
  {
    if s != [] {
      FirstArrangement(s[1..]);
      assert Without(s, 0) == s[1..];
      assert s == [s[0]] + s[1..];
    }
  }

  /** They are visited in strictly ascending lexicographic order, starting with the identity. */
  lemma AllPermutationsInOrder(n: nat)
    ensures forall i, j :: 0 <= i < j < |AllPermutations(n)| ==>
              FirstDifference(AllPermutations(n)[i], AllPermutations(n)[j])
    ensures AllPermutations(n) != [] && AllPermutations(n)[0] == Iota(n)
  {
    ArrangementsSorted(Iota(n));
    forall i, j | 0 <= i < j < |AllPermutations(n)|
      ensures FirstDifference(AllPermutations(n)[i], AllPermutations(n)[j])
    {
      LexLessIs(AllPermutations(n)[i], AllPermutations(n)[j]);
    }
    FirstArrangement(Iota(n));
  }
}
