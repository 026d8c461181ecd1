/** Choosing among overlapping modules: what a solution of the constraints means, and what is left of the
    modules when it is carried out. */
module Overlaps {
  import opened Cones
  import opened Sequences
  import opened Slices
  import opened Encodings

  /** The first variable of module `i` when every module's variables follow those of the one before. */
  function First(ps: seq<Part>, i: nat): nat
    requires i <= |ps|
  {
    if i == 0 then 0 else ps[i - 1].end + 1
  }

  ghost predicate Laid(ps: seq<Part>) {
    forall i :: 0 <= i < |ps| ==> LaidAt(ps, i)
  }

  predicate LaidAt(ps: seq<Part>, i: nat)
    requires i < |ps|
  {
    ps[i].start == First(ps, i) && ps[i].start <= ps[i].end
  }

  ghost predicate AllReady(ps: seq<Part>) {
    forall i {:trigger ps[i].Ready()} :: 0 <= i < |ps| ==> ps[i].Ready()
  }

  lemma {:induction false} LaidApart(ps: seq<Part>, i: nat, j: nat)
    requires Laid(ps) && i < j < |ps|
    ensures ps[i].end < ps[j].start
    decreases j
  {
    assert LaidAt(ps, j) && LaidAt(ps, j - 1);
    if i < j - 1 { LaidApart(ps, i, j - 1); }
  }

  lemma {:induction false} LaidWithin(ps: seq<Part>, i: nat)
    requires Laid(ps) && i < |ps|
    ensures ps[i].start <= ps[i].end < First(ps, |ps|)
  {
    assert LaidAt(ps, i) && LaidAt(ps, |ps| - 1);
    if i < |ps| - 1 { LaidApart(ps, i, |ps| - 1); }
  }

  lemma LaidSized(ps: seq<Part>, i: nat)
    requires Laid(ps) && AllReady(ps) && i < |ps|
    ensures ps[i].Sized() && ps[i].start == First(ps, i) && First(ps, i + 1) == ps[i].end + 1 <= First(ps, |ps|)
  {
    LaidWithin(ps, i);
    assert ps[i].Ready() && LaidAt(ps, i);
  }

  // ---- what a solution says ----

  /** A solution: a 0 or 1 for every variable. */
  ghost predicate Answers(ps: seq<Part>, x: seq<int>) {
    Laid(ps) && AllReady(ps) && |x| == First(ps, |ps|) && ZeroOne(x)
  }

  /** The module takes node `n`: it owns the node and the node's variable is 1. */
  ghost predicate Takes(p: Part, x: seq<int>, n: nat) {
    && n in p.internals && (p.sliceable.SLICEABLE? ==> n in p.index)
    && p.VarOf(n) < |x| && x[p.VarOf(n)] == 1
  }

  ghost predicate NoClash(ps: seq<Part>, x: seq<int>, n: nat) {
    forall i, j :: 0 <= i < j < |ps| ==> !(Takes(ps[i], x, n) && Takes(ps[j], x, n))
  }

  /** No slice without its module, and no module with fewer than two slices. */
  ghost predicate SliceRules(p: Part, x: seq<int>)
    requires p.Ready() && p.end < |x|
  {
    p.sliceable.SLICEABLE? ==>
      && (forall v :: p.start < v <= p.end ==> x[v] <= x[p.start])
      && Ones(x, p.start + 1, p.end + 1) >= 2 * x[p.start]
  }

  /** In a sliceable module a slice is chosen only with the module, and the module only with two slices. */
  lemma SliceRulesMean(p: Part, x: seq<int>)
    requires p.Ready() && p.end < |x| && ZeroOne(x)
    ensures SliceRules(p, x) <==>
              (p.sliceable.SLICEABLE? ==>
                 && (forall v :: p.start < v <= p.start + |p.outputs| && x[v] == 1 ==> x[p.start] == 1)
                 && (x[p.start] == 1 ==>
                       exists u, v :: p.start < u < v <= p.start + |p.outputs| && x[u] == 1 && x[v] == 1))
  {
    if p.sliceable.SLICEABLE? {
      OnesAre(x, p.start + 1, p.end + 1);
      if u, v :| p.start < u < v <= p.start + |p.outputs| && x[u] == 1 && x[v] == 1 {
        assert p.start + 1 <= u < v < p.end + 1 && x[u] == 1 && x[v] == 1;
      }
      if u, v :| p.start + 1 <= u < v < p.end + 1 && x[u] == 1 && x[v] == 1 {
        assert p.start < u < v <= p.start + |p.outputs| && x[u] == 1 && x[v] == 1;
      }
    }
  }

  /** The nodes that the variables `start` to `start + m` of a module account for. */
  ghost function WeightTo(p: Part, x: seq<int>, m: nat): int
    requires p.Sized() && p.end < |x| && p.start + m <= p.end
  {
    (if IsGood(p, x, m) then p.Weight(m) else 0) + if m == 0 then 0 else WeightTo(p, x, m - 1)
  }

  ghost function WeightOf(p: Part, x: seq<int>): int
    requires p.Sized() && p.end < |x|
  {
    WeightTo(p, x, p.end - p.start)
  }

  ghost function TotalWeight(ps: seq<Part>, x: seq<int>, m: nat): int
    requires Answers(ps, x) && m <= |ps|
  {
    if m == 0 then 0
    else
      LaidSized(ps, m - 1);
      TotalWeight(ps, x, m - 1) + WeightOf(ps[m - 1], x)
  }

  /** What the constraints are for. */
  ghost predicate Consistent(ps: seq<Part>, x: seq<int>)
    requires Answers(ps, x)
  {
    && (forall n: nat :: NoClash(ps, x, n))
    && (forall i :: 0 <= i < |ps| ==> SliceRulesAt(ps, x, i))
  }

  ghost predicate SliceRulesAt(ps: seq<Part>, x: seq<int>, i: nat)
    requires Answers(ps, x) && i < |ps|
  {
    LaidWithin(ps, i);
    assert ps[i].Ready();
    SliceRules(ps[i], x)
  }

  // ---- what is left of a module ----

  /** The slices up to `m` whose variable is 1. */
  function GoodSlices(p: Part, x: seq<int>, m: nat): (good: seq<nat>)
    requires p.start + m < |x|
    ensures forall i :: 0 <= i < |good| ==> 1 <= good[i] <= m && IsGood(p, x, good[i])
  {
    if m == 0 then [] else GoodSlices(p, x, m - 1) + if IsGood(p, x, m) then [m] else []
  }

  predicate IsGood(p: Part, x: seq<int>, s: nat) {
    p.start + s < |x| && x[p.start + s] == 1
  }

  /** Every slice whose variable is 1 is listed, once, in ascending order. */
  lemma {:induction false} GoodSlicesAre(p: Part, x: seq<int>, m: nat)
    requires p.start + m < |x|
    ensures forall i, j :: 0 <= i < j < |GoodSlices(p, x, m)| ==> GoodSlices(p, x, m)[i] < GoodSlices(p, x, m)[j]
    ensures forall s: nat :: s in GoodSlices(p, x, m) <==> 1 <= s <= m && x[p.start + s] == 1
  {
    if m > 0 { GoodSlicesAre(p, x, m - 1); }
  }

  lemma {:induction false} GoodSlicesCount(p: Part, x: seq<int>, m: nat)
    requires p.start + m < |x| && ZeroOne(x)
    ensures |GoodSlices(p, x, m)| == Ones(x, p.start + 1, p.start + m + 1) <= m
    ensures |GoodSlices(p, x, m)| == m ==> forall s: nat :: 1 <= s <= m ==> IsGood(p, x, s)
  {
    if m > 0 {
      GoodSlicesCount(p, x, m - 1);
      assert x[p.start + m] == 0 || x[p.start + m] == 1;
    }
  }

  /** Whether the module is pruned rather than left as it is. */
  predicate Pruned(p: Part, x: seq<int>)
    requires p.start <= p.end < |x|
  {
    p.end != p.start && 0 < |GoodSlices(p, x, p.end - p.start)| < p.numSlices
  }

  /** The outputs a kept module ends up with. */
  function LeftOutputs(p: Part, x: seq<int>): seq<nat>
    requires p.start <= p.end < |x| && (p.start < p.end ==> p.end - p.start == |p.outputs|)
  {
    if Pruned(p, x) then Picked(p.outputs, GoodSlices(p, x, p.end - p.start)) else p.outputs
  }

  ghost function LeftInternals(p: Part, x: seq<int>): set<nat>
    requires p.Ready() && p.end < |x|
  {
    if Pruned(p, x) then ConesOf(p.w, p.inputs, Picked(p.outputs, GoodSlices(p, x, p.end - p.start))) else p.internals
  }

  /** A kept sliceable module keeps two slices or more. */
  lemma KeepsTwoSlices(p: Part, x: seq<int>)
    requires p.Ready() && p.end < |x| && ZeroOne(x) && SliceRules(p, x) && x[p.start] == 1
    ensures p.sliceable.SLICEABLE? ==>
              |GoodSlices(p, x, p.end - p.start)| >= 2 && |LeftOutputs(p, x)| == |GoodSlices(p, x, p.end - p.start)|
  {
    if p.sliceable.SLICEABLE? { GoodSlicesCount(p, x, p.end - p.start); }
  }

  lemma PrunedOutputs(p: Part, x: seq<int>) returns (idx: seq<nat>)
    requires p.start + |p.outputs| == p.end < |x| && Pruned(p, x)
    ensures Selects(p.outputs, idx, LeftOutputs(p, x))
    ensures forall k: nat :: k < |p.outputs| ==> (k in idx <==> x[p.start + k + 1] == 1)
  {
    var good := GoodSlices(p, x, p.end - p.start);
    GoodSlicesAre(p, x, p.end - p.start);
    idx := seq(|good|, i requires 0 <= i < |good| => good[i] - 1);
    forall k: nat | k < |p.outputs| ensures k in idx <==> x[p.start + k + 1] == 1 {
      if k + 1 in good {
        var i :| 0 <= i < |good| && good[i] == k + 1;
        assert idx[i] == k;
      }
    }
  }

  /** A kept sliceable module is left with exactly the outputs whose variables are 1, two at least, in order. */
  lemma SlicedOutputs(p: Part, x: seq<int>) returns (idx: seq<nat>)
    requires p.Ready() && p.sliceable.SLICEABLE? && p.end < |x| && ZeroOne(x) && SliceRules(p, x) && x[p.start] == 1
    ensures |idx| >= 2 && Selects(p.outputs, idx, LeftOutputs(p, x))
    ensures forall k: nat :: k < |p.outputs| ==> (k in idx <==> x[p.start + k + 1] == 1)
  {
    KeepsTwoSlices(p, x);
    if Pruned(p, x) {
      idx := PrunedOutputs(p, x);
    } else {
      UnprunedHasAll(p, x);
      idx := seq(|p.outputs|, i requires 0 <= i < |p.outputs| => i);
      forall k: nat | k < |p.outputs| ensures k in idx && x[p.start + k + 1] == 1 {
        assert idx[k] == k && IsGood(p, x, k + 1);
      }
    }
  }

  /** `n` lies behind an output whose variable is 1. */
  ghost predicate BehindChosen(p: Part, x: seq<int>, n: nat) {
    exists k: nat :: k < |p.outputs| && p.start + k + 1 < |x| && x[p.start + k + 1] == 1 &&
      n in Cone(p.w, p.inputs, p.outputs[k])
  }

  /** And exactly with the nodes behind those outputs. */
  lemma SlicedInternals(p: Part, x: seq<int>, n: nat)
    requires p.Ready() && p.sliceable.SLICEABLE? && p.end < |x| && ZeroOne(x) && SliceRules(p, x) && x[p.start] == 1
    ensures n in LeftInternals(p, x) <==> BehindChosen(p, x, n)
  {
    var idx := SlicedOutputs(p, x);
    LeftIsBehind(p, x, n);
    if InSomeCone(p.w, p.inputs, LeftOutputs(p, x), n) { LeftIsChosenOne(p, x, n, idx); }
    if BehindChosen(p, x, n) { ChosenIsLeft(p, x, n, idx); }
  }

  lemma LeftIsBehind(p: Part, x: seq<int>, n: nat)
    requires p.Ready() && p.end < |x|
    ensures n in LeftInternals(p, x) <==> InSomeCone(p.w, p.inputs, LeftOutputs(p, x), n)
  {
  }

  lemma LeftIsChosenOne(p: Part, x: seq<int>, n: nat, idx: seq<nat>)
    requires p.start <= p.end < |x| && (p.start < p.end ==> p.end - p.start == |p.outputs|)
    requires InSomeCone(p.w, p.inputs, LeftOutputs(p, x), n) && Selects(p.outputs, idx, LeftOutputs(p, x))
    requires forall k: nat :: k < |p.outputs| ==> p.start + k + 1 < |x| && (k in idx <==> x[p.start + k + 1] == 1)
    ensures BehindChosen(p, x, n)
  {
    var i :| 0 <= i < |LeftOutputs(p, x)| && n in Cone(p.w, p.inputs, LeftOutputs(p, x)[i]);
    assert idx[i] in idx;
  }

  lemma ChosenIsLeft(p: Part, x: seq<int>, n: nat, idx: seq<nat>)
    requires p.start <= p.end < |x| && (p.start < p.end ==> p.end - p.start == |p.outputs|)
    requires BehindChosen(p, x, n) && Selects(p.outputs, idx, LeftOutputs(p, x))
    requires forall k: nat :: k < |p.outputs| && p.start + k + 1 < |x| ==> (k in idx <==> x[p.start + k + 1] == 1)
    ensures InSomeCone(p.w, p.inputs, LeftOutputs(p, x), n)
  {
    var k: nat :| k < |p.outputs| && p.start + k + 1 < |x| && x[p.start + k + 1] == 1 &&
                  n in Cone(p.w, p.inputs, p.outputs[k]);
    assert k in idx;
    var i :| 0 <= i < |idx| && idx[i] == k;
    assert n in Cone(p.w, p.inputs, LeftOutputs(p, x)[i]);
  }

  /** So every node of one slice alone that a kept module takes is left. */
  lemma TakenIsLeft(p: Part, x: seq<int>, n: nat)
    requires p.Ready() && p.sliceable.SLICEABLE? && p.end < |x| && ZeroOne(x) && SliceRules(p, x) && x[p.start] == 1
    requires n in p.internals && n in p.index && p.index[n] > 0 && p.start + p.index[n] < |x|
    requires x[p.start + p.index[n]] == 1
    ensures n in LeftInternals(p, x)
  {
    assert NodeIndexOk(p.w, p.inputs, p.outputs, p.index, n);
    SlicedInternals(p, x, n);
    assert n in Cone(p.w, p.inputs, p.outputs[p.index[n] - 1]);
  }

  lemma UnprunedHasAll(p: Part, x: seq<int>)
    requires p.start < p.end < |x| && ZeroOne(x) && p.end - p.start == p.numSlices
    requires GoodSlices(p, x, p.end - p.start) != [] && !Pruned(p, x)
    ensures forall s: nat :: 1 <= s <= p.end - p.start ==> IsGood(p, x, s)
  {
    GoodSlicesCount(p, x, p.end - p.start);
  }

  /** Whatever node a kept module is left with, it takes. */
  lemma LeftIsTaken(p: Part, x: seq<int>, n: nat)
    requires p.Ready() && p.end < |x| && ZeroOne(x) && SliceRules(p, x) && x[p.start] == 1
    requires n in LeftInternals(p, x)
    ensures Takes(p, x, n)
  {
    if p.sliceable.SLICEABLE? {
      KeepsTwoSlices(p, x);
      SlicedIsTaken(p, x, n);
    }
  }

  lemma SlicedIsTaken(p: Part, x: seq<int>, n: nat)
    requires p.Ready() && p.sliceable.SLICEABLE? && p.end < |x| && ZeroOne(x) && x[p.start] == 1
    requires GoodSlices(p, x, p.end - p.start) != [] && n in LeftInternals(p, x)
    ensures Takes(p, x, n)
  {
    if Pruned(p, x) {
      PrunedIsTaken(p, x, n);
    } else {
      UnprunedHasAll(p, x);
      UnprunedIsTaken(p, x, n);
    }
  }

  lemma PrunedIsTaken(p: Part, x: seq<int>, n: nat)
    requires p.Ready() && p.sliceable.SLICEABLE? && p.end < |x| && x[p.start] == 1
    requires Pruned(p, x) && n in ConesOf(p.w, p.inputs, Picked(p.outputs, GoodSlices(p, x, p.end - p.start)))
    ensures Takes(p, x, n)
  {
    var good := GoodSlices(p, x, p.end - p.start);
    var k := PickedCone(p.w, p.inputs, p.outputs, good, n);
    var s := good[k];
    assert 1 <= s <= p.numSlices && IsGood(p, x, s);
    SliceTakes(p, x, n, s);
  }

  lemma UnprunedIsTaken(p: Part, x: seq<int>, n: nat)
    requires p.Ready() && p.sliceable.SLICEABLE? && p.end < |x| && x[p.start] == 1
    requires n in ConesOf(p.w, p.inputs, p.outputs)
    requires forall s: nat :: 1 <= s <= p.end - p.start ==> IsGood(p, x, s)
    ensures Takes(p, x, n)
  {
    var k :| 0 <= k < |p.outputs| && n in Cone(p.w, p.inputs, p.outputs[k]);
    assert IsGood(p, x, k + 1);
    SliceTakes(p, x, n, k + 1);
  }

  lemma PickedCone(w: Wires, cut: seq<nat>, outs: seq<nat>, good: seq<nat>, n: nat) returns (k: nat)
    requires forall i :: 0 <= i < |good| ==> 1 <= good[i] <= |outs|
    requires n in ConesOf(w, cut, Picked(outs, good))
    ensures k < |good| && n in Cone(w, cut, outs[good[k] - 1])
  {
    k :| 0 <= k < |good| && n in Cone(w, cut, Picked(outs, good)[k]);
  }

  /** The node of a slice whose variable is 1 is taken. */
  lemma SliceTakes(p: Part, x: seq<int>, n: nat, s: nat)
    requires p.Ready() && p.end < |x| && x[p.start] == 1 && p.sliceable.SLICEABLE?
    requires 1 <= s <= p.numSlices && IsGood(p, x, s) && n in Cone(p.w, p.inputs, p.outputs[s - 1])
    ensures Takes(p, x, n)
  {
    assert InSomeCone(p.w, p.inputs, p.outputs, n);
    assert NodeIndexOk(p.w, p.inputs, p.outputs, p.index, n);
  }

  ghost predicate Kept(ps: seq<Part>, x: seq<int>, i: nat)
    requires Answers(ps, x) && i < |ps|
  {
    LaidWithin(ps, i);
    x[ps[i].start] == 1
  }

  ghost function LeftAt(ps: seq<Part>, x: seq<int>, i: nat): set<nat>
    requires Answers(ps, x) && i < |ps|
  {
    LaidWithin(ps, i);
    assert ps[i].Ready();
    LeftInternals(ps[i], x)
  }

  /** Modules kept by a consistent solution share no node. */
  lemma LeftDisjoint(ps: seq<Part>, x: seq<int>, i: nat, j: nat)
    requires Answers(ps, x) && Consistent(ps, x) && i < j < |ps|
    requires Kept(ps, x, i) && Kept(ps, x, j)
    ensures LeftAt(ps, x, i) !! LeftAt(ps, x, j)
  {
    LaidWithin(ps, i);
    LaidWithin(ps, j);
    assert ps[i].Ready() && ps[j].Ready();
    assert SliceRulesAt(ps, x, i) && SliceRulesAt(ps, x, j);
    forall n ensures n !in LeftInternals(ps[i], x) || n !in LeftInternals(ps[j], x) {
      assert NoClash(ps, x, n);
      if n in LeftInternals(ps[i], x) { LeftIsTaken(ps[i], x, n); }
      if n in LeftInternals(ps[j], x) { LeftIsTaken(ps[j], x, n); }
    }
  }

  // ---- coverage ----

  ghost function TakenTo(p: Part, x: seq<int>, m: nat): set<nat> {
    set n | n in p.index && p.index[n] <= m && IsGood(p, x, p.index[n])
  }

  ghost function TakenBy(p: Part, x: seq<int>): set<nat> {
    set n | n in p.internals && Takes(p, x, n)
  }

  lemma TakenToStep(p: Part, x: seq<int>, m: nat)
    ensures |TakenTo(p, x, m)| == (if m == 0 then 0 else |TakenTo(p, x, m - 1)|) +
                                  (if IsGood(p, x, m) then |Members(p.index, m)| else 0)
  {
    var mine := Members(p.index, m);
    var before := if m == 0 then {} else TakenTo(p, x, m - 1);
    if IsGood(p, x, m) {
      assert TakenTo(p, x, m) == before + mine && before !! mine;
    } else {
      assert TakenTo(p, x, m) == before;
    }
  }

  lemma {:induction false} WeightToCounts(p: Part, x: seq<int>, m: nat)
    requires p.Ready() && p.end < |x| && ZeroOne(x) && p.start + m <= p.end && p.sliceable.SLICEABLE?
    ensures WeightTo(p, x, m) == |TakenTo(p, x, m)|
  {
    if m > 0 { WeightToCounts(p, x, m - 1); }
    TakenToStep(p, x, m);
    assert p.Weight(m) == |Members(p.index, m)|;
  }

  /** The weight of a module's variables is the number of nodes it takes. */
  lemma WeightCounts(p: Part, x: seq<int>)
    requires p.Ready() && p.end < |x| && ZeroOne(x)
    ensures WeightOf(p, x) == |TakenBy(p, x)|
  {
    if p.sliceable.SLICEABLE? {
      WeightToCounts(p, x, p.end - p.start);
      forall n ensures n in TakenBy(p, x) <==> n in TakenTo(p, x, p.end - p.start) {
        if n in p.internals { p.VarInRange(n); }
      }
      assert TakenBy(p, x) == TakenTo(p, x, p.end - p.start);
    } else {
      assert TakenBy(p, x) == if x[p.start] == 1 then p.internals else {};
    }
  }

  /** The nodes taken by the first `m` modules, each with its module. */
  ghost function TakenPairs(ps: seq<Part>, x: seq<int>, m: nat): (pairs: set<(nat, nat)>)
    requires m <= |ps|
    ensures forall i: nat, n: nat :: (i, n) in pairs <==> i < m && n in ps[i].internals && Takes(ps[i], x, n)
  {
    set i: nat, n | i < m && n in ps[i].internals && Takes(ps[i], x, n) :: (i, n)
  }

  ghost function Tagged(a: set<nat>, i: nat): (t: set<(nat, nat)>) {
    set n: nat | n in a :: (i, n)
  }

  lemma {:induction false} TaggedSize(a: set<nat>, i: nat)
    ensures |Tagged(a, i)| == |a|
    decreases a
  {
    if a != {} {
      var n :| n in a;
      TaggedSize(a - {n}, i);
      assert Tagged(a, i) == Tagged(a - {n}, i) + {(i, n)};
    }
  }

  lemma OneMoreModule(ps: seq<Part>, x: seq<int>, m: nat)
    requires m < |ps|
    ensures |TakenPairs(ps, x, m + 1)| == |TakenPairs(ps, x, m)| + |TakenBy(ps[m], x)|
  {
    var last := Tagged(TakenBy(ps[m], x), m);
    TaggedSize(TakenBy(ps[m], x), m);
    assert TakenPairs(ps, x, m + 1) == TakenPairs(ps, x, m) + last;
    assert TakenPairs(ps, x, m) !! last;
  }

  /** The total weight counts every module's taken nodes. */
  lemma {:induction false} TotalCounts(ps: seq<Part>, x: seq<int>, m: nat)
    requires Answers(ps, x) && m <= |ps|
    ensures TotalWeight(ps, x, m) == |TakenPairs(ps, x, m)|
  {
    if m > 0 {
      TotalCounts(ps, x, m - 1);
      OneMoreModule(ps, x, m - 1);
      LaidSized(ps, m - 1);
      assert ps[m - 1].Ready();
      WeightCounts(ps[m - 1], x);
    }
  }

  /** Modules that are not kept take nothing. */
  lemma DroppedHasNoWeight(p: Part, x: seq<int>)
    requires p.Ready() && p.end < |x| && ZeroOne(x) && SliceRules(p, x) && x[p.start] == 0
    ensures WeightOf(p, x) == 0
  {
    WeightCounts(p, x);
    forall n ensures n !in TakenBy(p, x) {
      if n in p.internals { p.VarInRange(n); }
    }
    assert TakenBy(p, x) == {};
  }

  /** The nodes left in one of the first `m` modules. */
  ghost function LeftNodes(ps: seq<Part>, x: seq<int>, m: nat): set<nat>
    requires Answers(ps, x) && m <= |ps|
  {
    if m == 0 then {} else LeftNodes(ps, x, m - 1) + if Kept(ps, x, m - 1) then LeftAt(ps, x, m - 1) else {}
  }

  /** The weight of a consistent solution is at least the number of nodes left covered. */
  lemma {:induction false} WeightCoversLeft(ps: seq<Part>, x: seq<int>, m: nat)
    requires Answers(ps, x) && Consistent(ps, x) && m <= |ps|
    ensures |LeftNodes(ps, x, m)| <= TotalWeight(ps, x, m)
  {
    if m > 0 {
      WeightCoversLeft(ps, x, m - 1);
      LaidWithin(ps, m - 1);
      assert ps[m - 1].Ready() && SliceRulesAt(ps, x, m - 1);
      LeftFits(ps[m - 1], x);
      assert |LeftNodes(ps, x, m)| <=
             |LeftNodes(ps, x, m - 1)| + if Kept(ps, x, m - 1) then |LeftAt(ps, x, m - 1)| else 0;
    }
  }

  lemma LeftFits(p: Part, x: seq<int>)
    requires p.Ready() && p.end < |x| && ZeroOne(x) && SliceRules(p, x)
    ensures (if x[p.start] == 1 then |LeftInternals(p, x)| else 0) <= WeightOf(p, x)
  {
    WeightCounts(p, x);
    if x[p.start] == 1 {
      forall n | n in LeftInternals(p, x) ensures n in TakenBy(p, x) { LeftIsTaken(p, x, n); }
      SubsetIsSmaller(LeftInternals(p, x), TakenBy(p, x));
    }
  }

  lemma SubsetIsSmaller(a: set<nat>, b: set<nat>)
    requires a <= b
    ensures |a| <= |b|
  {
    assert b == a + (b - a);
  }

  // ---- constraints ----

  /** Variable `v` stands for node `n` in module `i`. */
  ghost predicate StandsFor(ps: seq<Part>, i: nat, n: nat, v: nat)
    requires i < |ps|
  {
    n in ps[i].internals && (ps[i].sliceable.SLICEABLE? ==> n in ps[i].index) && ps[i].VarOf(n) == v
  }

  /** Coefficients 1 for the variables that stand for `n` in some module. */
  ghost predicate ConflictCoefs(ps: seq<Part>, n: nat, coef: map<nat, int>) {
    && (forall v :: v in coef ==> coef[v] == 1 && exists i :: 0 <= i < |ps| && StandsFor(ps, i, n, v))
    && (forall i, v: nat :: 0 <= i < |ps| && StandsFor(ps, i, n, v) ==> v in coef)
  }

  lemma VarsApart(ps: seq<Part>, i: nat, j: nat, n: nat)
    requires Laid(ps) && AllReady(ps) && i < j < |ps| && n in ps[i].internals && n in ps[j].internals
    ensures ps[i].sliceable.SLICEABLE? ==> n in ps[i].index
    ensures ps[j].sliceable.SLICEABLE? ==> n in ps[j].index
    ensures ps[i].VarOf(n) < ps[j].VarOf(n)
  {
    LaidApart(ps, i, j);
    assert ps[i].Ready() && ps[j].Ready();
    ps[i].VarInRange(n);
    ps[j].VarInRange(n);
  }

  /** The conflict constraint of a node says that at most one module takes it. */
  lemma ConflictMeans(ps: seq<Part>, x: seq<int>, n: nat, coef: map<nat, int>)
    requires Answers(ps, x) && ConflictCoefs(ps, n, coef)
    ensures AtMost(1, coef).Holds(x) <==> NoClash(ps, x, n)
  {
    SumOfOnes(coef, x, |x|);
    if AtMostOne(coef, x, |x|) {
      forall i, j | 0 <= i < j < |ps| ensures !(Takes(ps[i], x, n) && Takes(ps[j], x, n)) {
        if n in ps[i].internals && n in ps[j].internals {
          VarsApart(ps, i, j, n);
          assert StandsFor(ps, i, n, ps[i].VarOf(n)) && StandsFor(ps, j, n, ps[j].VarOf(n));
        }
      }
    }
    if NoClash(ps, x, n) {
      forall a, b | 0 <= a < b < |x| && a in coef && b in coef ensures !(x[a] == 1 && x[b] == 1) {
        var i :| 0 <= i < |ps| && StandsFor(ps, i, n, a);
        var j :| 0 <= j < |ps| && StandsFor(ps, j, n, b);
        if i < j {
          assert !(Takes(ps[i], x, n) && Takes(ps[j], x, n));
        } else {
          assert !(Takes(ps[j], x, n) && Takes(ps[i], x, n));
        }
      }
    }
  }

  /** A node of at most one module cannot clash. */
  lemma LonelyNode(ps: seq<Part>, x: seq<int>, n: nat)
    requires forall i, j :: 0 <= i < j < |ps| ==> !(n in ps[i].internals && n in ps[j].internals)
    ensures NoClash(ps, x, n)
  {
  }

  /** The coverage constraint gives every variable its weight. */
  ghost predicate WeightCoefs(ps: seq<Part>, m: nat, coef: map<nat, int>)
    requires Laid(ps) && AllReady(ps) && m <= |ps|
  {
    && (forall v: nat :: v in coef <==> v < First(ps, m))
    && forall i :: 0 <= i < m ==> WeightCoefsOf(ps, i, coef)
  }

  ghost predicate WeightCoefsOf(ps: seq<Part>, i: nat, coef: map<nat, int>)
    requires Laid(ps) && AllReady(ps) && i < |ps|
  {
    assert ps[i].Ready();
    forall s: nat :: ps[i].start + s <= ps[i].end ==> WeightCoef(ps[i], s, coef)
  }

  predicate WeightCoef(p: Part, s: nat, coef: map<nat, int>)
    requires p.sliceable.SLICEABLE? ==> s < |p.sizes|
  {
    p.start + s in coef && coef[p.start + s] == p.Weight(s)
  }

  lemma {:induction false} SumOfWeight(p: Part, x: seq<int>, coef: map<nat, int>, m: nat)
    requires p.Sized() && p.end < |x| && ZeroOne(x) && p.start + m <= p.end
    requires forall s: nat :: p.start + s <= p.end ==> WeightCoef(p, s, coef)
    ensures Sum(coef, x, p.start + m + 1) == Sum(coef, x, p.start) + WeightTo(p, x, m)
  {
    if m > 0 { SumOfWeight(p, x, coef, m - 1); }
    assert WeightCoef(p, m, coef);
    TermOfBit(coef, x, p.start + m);
  }

  lemma {:induction false} CoverageMeans(ps: seq<Part>, x: seq<int>, coef: map<nat, int>, m: nat)
    requires Answers(ps, x) && WeightCoefs(ps, |ps|, coef) && m <= |ps|
    ensures First(ps, m) <= |x| && Sum(coef, x, First(ps, m)) == TotalWeight(ps, x, m)
  {
    if m > 0 {
      CoverageMeans(ps, x, coef, m - 1);
      assert WeightCoefsOf(ps, m - 1, coef);
      LaidSized(ps, m - 1);
      SumOfWeight(ps[m - 1], x, coef, ps[m - 1].end - ps[m - 1].start);
    }
  }

  // ---- putting constraints together ----

  /** Coefficients 1 for the variables that stand for `n` in the modules `done`. */
  ghost predicate PartialCoefs(ps: seq<Part>, n: nat, done: set<nat>, coef: map<nat, int>) {
    && (forall v :: v in coef ==> coef[v] == 1 && exists i :: i in done && i < |ps| && StandsFor(ps, i, n, v))
    && (forall i, v: nat :: i in done && i < |ps| && StandsFor(ps, i, n, v) ==> v in coef)
  }

  lemma PartialCoefsStep(ps: seq<Part>, n: nat, done: set<nat>, i: nat, v: nat, coef: map<nat, int>)
    requires PartialCoefs(ps, n, done, coef) && i < |ps| && StandsFor(ps, i, n, v)
    ensures PartialCoefs(ps, n, done + {i}, coef[v := 1])
  {
    var after := coef[v := 1];
    forall u | u in after ensures exists j :: j in done + {i} && j < |ps| && StandsFor(ps, j, n, u) {
      if u == v {
        assert i in done + {i};
      } else {
        var j :| j in done && j < |ps| && StandsFor(ps, j, n, u);
        assert j in done + {i};
      }
    }
  }

  /** `cs` say that no module clashes at the nodes below `n`. */
  ghost predicate ForbidClashes(ps: seq<Part>, cs: seq<Range>, n: nat) {
    forall x :: Answers(ps, x) ==> (AllHold(cs, x) <==> NoClashBelow(ps, x, n))
  }

  ghost predicate NoClashBelow(ps: seq<Part>, x: seq<int>, n: nat) {
    forall m: nat :: m < n ==> NoClash(ps, x, m)
  }

  lemma AllHoldOne(c: Range, x: seq<int>)
    ensures AllHold([c], x) <==> c.Holds(x)
  {
    assert [c][0] == c;
  }

  lemma ForbidNext(ps: seq<Part>, cs: seq<Range>, n: nat, coef: map<nat, int>)
    requires ForbidClashes(ps, cs, n) && ConflictCoefs(ps, n, coef)
    ensures ForbidClashes(ps, cs + [AtMost(1, coef)], n + 1)
  {
    forall x | Answers(ps, x) ensures AllHold(cs + [AtMost(1, coef)], x) <==> NoClashBelow(ps, x, n + 1) {
      AllHoldMore(cs, [AtMost(1, coef)], x);
      AllHoldOne(AtMost(1, coef), x);
      ConflictMeans(ps, x, n, coef);
      ClashesBelowNext(ps, x, n);
    }
  }

  lemma ForbidLonely(ps: seq<Part>, cs: seq<Range>, n: nat)
    requires ForbidClashes(ps, cs, n)
    requires forall i, j :: 0 <= i < j < |ps| ==> !(n in ps[i].internals && n in ps[j].internals)
    ensures ForbidClashes(ps, cs, n + 1)
  {
    forall x | Answers(ps, x) ensures AllHold(cs, x) <==> NoClashBelow(ps, x, n + 1) {
      LonelyNode(ps, x, n);
      ClashesBelowNext(ps, x, n);
    }
  }

  lemma ClashesBelowNext(ps: seq<Part>, x: seq<int>, n: nat)
    ensures NoClashBelow(ps, x, n + 1) <==> NoClashBelow(ps, x, n) && NoClash(ps, x, n)
  {
  }

  /** `cs` say that the first `m` modules obey the slice rules. */
  ghost predicate ImposeRules(ps: seq<Part>, cs: seq<Range>, m: nat)
    requires m <= |ps|
  {
    forall x :: Answers(ps, x) ==> (AllHold(cs, x) <==> RulesBelow(ps, x, m))
  }

  ghost predicate RulesBelow(ps: seq<Part>, x: seq<int>, m: nat)
    requires Answers(ps, x) && m <= |ps|
  {
    forall i :: 0 <= i < m ==> SliceRulesAt(ps, x, i)
  }

  /** The constraints of one module: one for each slice, and one for their number. */
  ghost predicate SliceRanges(p: Part, cs: seq<Range>) {
    if p.sliceable.SLICEABLE? then
      && p.start < p.end && |cs| == p.end - p.start + 1
      && (forall k :: 0 <= k < p.end - p.start ==> cs[k] == SliceRange(p.start, p.start + 1 + k))
      && cs[p.end - p.start].AtLeast? && cs[p.end - p.start].bound == 0
      && SizeCoefs(p.start, p.end, cs[p.end - p.start].coef)
    else cs == []
  }

  ghost predicate SizeCoefs(start: nat, end: nat, coef: map<nat, int>) {
    && (forall v: nat :: v in coef <==> start <= v <= end)
    && (start in coef ==> coef[start] == -2) && (forall v :: v in coef && v != start ==> coef[v] == 1)
  }

  lemma SliceRangesMean(p: Part, cs: seq<Range>, x: seq<int>)
    requires p.Ready() && p.end < |x| && SliceRanges(p, cs)
    ensures AllHold(cs, x) <==> SliceRules(p, x)
  {
    if p.sliceable.SLICEABLE? {
      var m := p.end - p.start;
      forall k | 0 <= k < m ensures cs[k].Holds(x) <==> x[p.start + 1 + k] <= x[p.start] {
        SliceRangeMeans(p.start, p.start + 1 + k, x);
      }
      SizeRangeMeans(p.start, p.end, cs[m].coef, x);
      assert cs[m] == AtLeast(0, cs[m].coef);
      if AllHold(cs, x) {
        forall v | p.start < v <= p.end ensures x[v] <= x[p.start] { assert cs[v - p.start - 1].Holds(x); }
      }
      if SliceRules(p, x) {
        forall k | 0 <= k < |cs| ensures cs[k].Holds(x) {}
      }
    }
  }

  lemma ImposeNext(ps: seq<Part>, cs: seq<Range>, i: nat, ds: seq<Range>)
    requires i < |ps| && ImposeRules(ps, cs, i) && SliceRanges(ps[i], ds)
    ensures ImposeRules(ps, cs + ds, i + 1)
  {
    forall x | Answers(ps, x) ensures AllHold(cs + ds, x) <==> RulesBelow(ps, x, i + 1) {
      AllHoldMore(cs, ds, x);
      LaidWithin(ps, i);
      assert ps[i].Ready();
      SliceRangesMean(ps[i], ds, x);
      assert SliceRulesAt(ps, x, i) <==> SliceRules(ps[i], x);
    }
  }
}
