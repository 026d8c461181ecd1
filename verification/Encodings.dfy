/** Linear constraints over 0/1 variables that say which modules and slices may be kept together. */
module Encodings {
  import opened Cones
  import opened Slices

  /** A bound on a linear sum; variables without a coefficient do not count. */
  datatype Range = AtLeast(bound: int, coef: map<nat, int>) | AtMost(bound: int, coef: map<nat, int>)
  {
    ghost predicate Holds(x: seq<int>) {
      match this
      case AtLeast(b, c) => Sum(c, x, |x|) >= b
      case AtMost(b, c) => Sum(c, x, |x|) <= b
    }
  }

  ghost function Sum(coef: map<nat, int>, x: seq<int>, n: nat): int
    requires n <= |x|
  {
    if n == 0 then 0 else Sum(coef, x, n - 1) + Term(coef, x, n - 1)
  }

  function Term(coef: map<nat, int>, x: seq<int>, v: nat): int
    requires v < |x|
  {
    if v in coef then coef[v] * x[v] else 0
  }

  lemma TermOfBit(coef: map<nat, int>, x: seq<int>, v: nat)
    requires ZeroOne(x) && v < |x|
    ensures Term(coef, x, v) == if v in coef && x[v] == 1 then coef[v] else 0
  {
  }

  ghost predicate AllHold(cs: seq<Range>, x: seq<int>) {
    forall k :: 0 <= k < |cs| ==> cs[k].Holds(x)
  }

  ghost predicate ZeroOne(x: seq<int>) {
    forall v :: 0 <= v < |x| ==> x[v] == 0 || x[v] == 1
  }

  lemma AllHoldMore(cs: seq<Range>, ds: seq<Range>, x: seq<int>)
    ensures AllHold(cs + ds, x) <==> AllHold(cs, x) && AllHold(ds, x)
  {
    if AllHold(cs + ds, x) {
      assert forall k :: 0 <= k < |cs| ==> (cs + ds)[k] == cs[k];
      assert forall k :: 0 <= k < |ds| ==> (cs + ds)[|cs| + k] == ds[k];
    }
  }

  // ---- at most one of some variables ----

  ghost predicate AtMostOne(coef: map<nat, int>, x: seq<int>, n: nat)
    requires n <= |x|
  {
    forall a, b :: 0 <= a < b < n && a in coef && b in coef ==> !(x[a] == 1 && x[b] == 1)
  }

  ghost predicate None(coef: map<nat, int>, x: seq<int>, n: nat)
    requires n <= |x|
  {
    forall a :: 0 <= a < n && a in coef ==> x[a] == 0
  }

  lemma {:induction false} SumOfOnes(coef: map<nat, int>, x: seq<int>, n: nat)
    requires ZeroOne(x) && n <= |x| && forall v :: v in coef ==> coef[v] == 1
    ensures Sum(coef, x, n) >= 0
    ensures Sum(coef, x, n) == 0 <==> None(coef, x, n)
    ensures Sum(coef, x, n) <= 1 <==> AtMostOne(coef, x, n)
  {
    if n > 0 {
      SumOfOnes(coef, x, n - 1);
      if n - 1 in coef && x[n - 1] == 1 {
        if None(coef, x, n - 1) {
          assert AtMostOne(coef, x, n);
        } else {
          var a :| 0 <= a < n - 1 && a in coef && x[a] != 0;
          assert !AtMostOne(coef, x, n);
        }
      } else {
        assert Term(coef, x, n - 1) == 0;
      }
    }
  }

  // ---- sums over a stretch of variables ----

  /** The sum of the variables from `a` up to and without `b`. */
  ghost function Ones(x: seq<int>, a: nat, b: nat): int
    requires a <= b <= |x|
    decreases b
  {
    if a == b then 0 else Ones(x, a, b - 1) + x[b - 1]
  }

  /** The sum reaches 1 if one of the variables is 1, and 2 if two of them are. */
  lemma {:induction false} OnesAre(x: seq<int>, a: nat, b: nat)
    requires a <= b <= |x| && ZeroOne(x)
    ensures Ones(x, a, b) >= 0
    ensures Ones(x, a, b) >= 1 <==> exists u :: a <= u < b && x[u] == 1
    ensures Ones(x, a, b) >= 2 <==> exists u, v :: a <= u < v < b && x[u] == 1 && x[v] == 1
    decreases b
  {
    if a < b {
      OnesAre(x, a, b - 1);
      if x[b - 1] == 1 && Ones(x, a, b - 1) >= 1 {
        var u :| a <= u < b - 1 && x[u] == 1;
        assert a <= u < b - 1 < b && x[u] == 1 && x[b - 1] == 1;
      }
    }
  }

  /** Where no variable has a coefficient nothing is added. */
  lemma {:induction false} SumSkips(coef: map<nat, int>, x: seq<int>, a: nat, b: nat)
    requires a <= b <= |x| && forall v :: a <= v < b ==> v !in coef
    ensures Sum(coef, x, b) == Sum(coef, x, a)
    decreases b
  {
    if a < b { SumSkips(coef, x, a, b - 1); }
  }

  lemma {:induction false} SumCounts(coef: map<nat, int>, x: seq<int>, a: nat, b: nat)
    requires a <= b <= |x| && forall v :: a <= v < b ==> v in coef && coef[v] == 1
    ensures Sum(coef, x, b) == Sum(coef, x, a) + Ones(x, a, b)
    decreases b
  {
    if a < b { SumCounts(coef, x, a, b - 1); }
  }

  /** The slice constraint `x[start] - x[v] >= 0`. */
  function SliceRange(start: nat, v: nat): Range {
    AtLeast(0, map[v := -1][start := 1])
  }

  lemma SliceRangeMeans(start: nat, v: nat, x: seq<int>)
    requires start < v < |x|
    ensures SliceRange(start, v).Holds(x) <==> x[v] <= x[start]
  {
    var c := SliceRange(start, v).coef;
    SumSkips(c, x, 0, start);
    SumSkips(c, x, start + 1, v);
    SumSkips(c, x, v + 1, |x|);
    assert Sum(c, x, start + 1) == Sum(c, x, start) + x[start];
    assert Sum(c, x, v + 1) == Sum(c, x, v) - x[v];
  }

  /** The size constraint: the slices' variables add up to at least twice that of the module. */
  lemma SizeRangeMeans(start: nat, end: nat, coef: map<nat, int>, x: seq<int>)
    requires start < end < |x| && forall v: nat :: v in coef <==> start <= v <= end
    requires coef[start] == -2 && forall v :: start < v <= end ==> coef[v] == 1
    ensures AtLeast(0, coef).Holds(x) <==> Ones(x, start + 1, end + 1) >= 2 * x[start]
  {
    SumSkips(coef, x, 0, start);
    assert Sum(coef, x, start + 1) == Sum(coef, x, start) + -2 * x[start];
    SumCounts(coef, x, start + 1, end + 1);
    SumSkips(coef, x, end + 1, |x|);
  }
}
