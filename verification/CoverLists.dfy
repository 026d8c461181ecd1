/** The covers kept for every node: one cover of each input, merged, pruned, and kept if small and new. */
module CoverLists {
  import opened BoolFunctions
  import opened Netlists
  import opened Permutations
  import opened Sequences
  import opened Covers
  import opened FunctionTables

  /** A finished cover; `internals` is empty until it is asked for, unless the cover was pruned. */
  datatype Cut = Cut(root: nat, leaves: seq<nat>, internals: set<nat>)

  /** `x` is a gate strictly above the leaves, and every way down from it ends in one. */
  ghost predicate IsInner(g: Graph, rank: seq<nat>, leaves: seq<nat>, x: nat)
    requires g.Valid() && g.RankedBy(rank)
  {
    x < |g.nodes| && g.IsGate(x) && x !in leaves && CutOff(g, rank, leaves, x)
  }

  /** The leaves are below `root` and cut it off; the internals, if any, lie between. */
  ghost predicate IsCut(g: Graph, rank: seq<nat>, c: Cut)
    requires g.Valid() && g.RankedBy(rank)
  {
    && c.root < |g.nodes| && Distinct(c.leaves) && CutOff(g, rank, c.leaves, c.root)
    && (forall l :: l in c.leaves ==> IsLow(g, rank, l, c.root))
    && (forall x :: x in c.internals ==> IsInner(g, rank, c.leaves, x))
  }

  ghost predicate IsLow(g: Graph, rank: seq<nat>, l: nat, root: nat)
    requires g.Valid() && g.RankedBy(rank) && root < |g.nodes|
  {
    l < |g.nodes| && rank[l] <= rank[root]
  }

  /** The walk down from `n` that stops at the leaves; a cover without leaves has no internals. */
  function Behind(g: Graph, ghost rank: seq<nat>, leaves: seq<nat>, n: nat): (s: set<nat>)
    requires g.Valid() && g.RankedBy(rank) && n < |g.nodes| && CutOff(g, rank, leaves, n)
    decreases rank[n]
  {
    if |leaves| == 0 || n in leaves then {}
    else {n} + set i: nat, x | i < |g.inputs[n]| && x in Behind(g, rank, leaves, g.inputs[n][i]) :: x
  }

  lemma {:induction false} BehindIsInner(g: Graph, rank: seq<nat>, leaves: seq<nat>, n: nat, x: nat)
    requires g.Valid() && g.RankedBy(rank) && n < |g.nodes| && CutOff(g, rank, leaves, n)
    requires x in Behind(g, rank, leaves, n)
    ensures IsInner(g, rank, leaves, x)
    decreases rank[n]
  {
    if x != n {
      var i: nat :| i < |g.inputs[n]| && x in Behind(g, rank, leaves, g.inputs[n][i]);
      BehindIsInner(g, rank, leaves, g.inputs[n][i], x);
    }
  }

  /** `x` is reached going down from `root` without passing a leaf. */
  ghost predicate IsBetween(g: Graph, rank: seq<nat>, leaves: seq<nat>, root: nat, x: nat)
    requires g.Valid() && g.RankedBy(rank) && root < |g.nodes|
    decreases rank[root]
  {
    root !in leaves && g.IsGate(root) &&
    (x == root || exists i :: 0 <= i < |g.inputs[root]| && IsBetween(g, rank, leaves, g.inputs[root][i], x))
  }

  lemma {:induction false} BehindIsBetween(g: Graph, rank: seq<nat>, leaves: seq<nat>, n: nat, x: nat)
    requires g.Valid() && g.RankedBy(rank) && n < |g.nodes| && CutOff(g, rank, leaves, n)
    ensures x in Behind(g, rank, leaves, n) <==> leaves != [] && IsBetween(g, rank, leaves, n, x)
    decreases rank[n]
  {
    if leaves != [] && n !in leaves {
      forall i | 0 <= i < |g.inputs[n]|
        ensures x in Behind(g, rank, leaves, g.inputs[n][i]) <==> IsBetween(g, rank, leaves, g.inputs[n][i], x)
      {
        BehindIsBetween(g, rank, leaves, g.inputs[n][i], x);
      }
    }
  }

  function Internals(g: Graph, ghost rank: seq<nat>, c: Cut): (s: set<nat>)
    requires g.Valid() && g.RankedBy(rank) && IsCut(g, rank, c)
    ensures forall x :: x in s ==> IsInner(g, rank, c.leaves, x)
  {
    if c.internals != {} then c.internals
    else
      var s := Behind(g, rank, c.leaves, c.root);
      assert forall x :: x in s ==> IsInner(g, rank, c.leaves, x) by {
        forall x | x in s ensures IsInner(g, rank, c.leaves, x) {
          BehindIsInner(g, rank, c.leaves, c.root, x);
        }
      }
      s
  }

  /** The inner nodes of a cover: the internals of a pruned one, and of another what lies between its root and
      its leaves, if it has any. */
  ghost predicate InnerOf(g: Graph, rank: seq<nat>, p: Cut, x: nat)
    requires g.Valid() && g.RankedBy(rank) && IsCut(g, rank, p)
  {
    if p.internals != {} then x in p.internals else p.leaves != [] && IsBetween(g, rank, p.leaves, p.root, x)
  }

  lemma InternalsAreInner(g: Graph, rank: seq<nat>, p: Cut, x: nat)
    requires g.Valid() && g.RankedBy(rank) && IsCut(g, rank, p)
    ensures x in Internals(g, rank, p) <==> InnerOf(g, rank, p, x)
  {
    if p.internals == {} { BehindIsBetween(g, rank, p.leaves, p.root, x); }
  }

  // ---- merged and pruned ----

  /** Every leaf of the covers `ps` is kept or an internal node of one of them. */
  ghost predicate KeepsEnough(g: Graph, rank: seq<nat>, ps: seq<Cut>, kept: seq<nat>)
    requires g.Valid() && g.RankedBy(rank) && forall p :: p in ps ==> IsCut(g, rank, p)
  {
    forall p, l :: p in ps && l in p.leaves ==> l in kept || IsSomeInternal(g, rank, ps, l)
  }

  ghost predicate IsSomeInternal(g: Graph, rank: seq<nat>, ps: seq<Cut>, x: nat)
    requires g.Valid() && g.RankedBy(rank) && forall p :: p in ps ==> IsCut(g, rank, p)
  {
    exists p :: p in ps && x in Internals(g, rank, p)
  }

  /** What one of the covers cuts off is cut off by the leaves kept: a leaf that goes is above leaves of the
      cover it is internal to. */
  lemma {:induction false} KeptCutOff(g: Graph, rank: seq<nat>, ps: seq<Cut>, kept: seq<nat>, p: Cut, m: nat)
    requires g.Valid() && g.RankedBy(rank) && forall p :: p in ps ==> IsCut(g, rank, p)
    requires KeepsEnough(g, rank, ps, kept) && p in ps && m < |g.nodes| && CutOff(g, rank, p.leaves, m)
    ensures CutOff(g, rank, kept, m)
    decreases rank[m]
  {
    if m !in kept {
      var q := p;
      if m in p.leaves {
        assert IsSomeInternal(g, rank, ps, m);
        q :| q in ps && m in Internals(g, rank, q);
        assert IsInner(g, rank, q.leaves, m);
      }
      forall i | 0 <= i < |g.inputs[m]| ensures CutOff(g, rank, kept, g.inputs[m][i]) {
        KeptCutOff(g, rank, ps, kept, q, g.inputs[m][i]);
      }
    }
  }

  /** One cover for each input of gate `n`. */
  ghost predicate OneEach(g: Graph, rank: seq<nat>, ps: seq<Cut>, n: nat)
    requires g.Valid() && g.RankedBy(rank) && n < |g.nodes|
  {
    && (forall p :: p in ps ==> IsCut(g, rank, p) && p.root in g.inputs[n])
    && (forall i :: 0 <= i < |g.inputs[n]| ==> HasCoverOf(ps, g.inputs[n][i]))
  }

  ghost predicate HasCoverOf(ps: seq<Cut>, y: nat) {
    exists p :: p in ps && p.root == y
  }

  lemma KeptIsCut(g: Graph, rank: seq<nat>, ps: seq<Cut>, kept: seq<nat>, n: nat)
    requires g.Valid() && g.RankedBy(rank) && n < |g.nodes| && g.IsGate(n) && OneEach(g, rank, ps, n)
    requires KeepsEnough(g, rank, ps, kept)
    ensures CutOff(g, rank, kept, n)
    ensures forall x: nat :: IsSomeInternal(g, rank, ps, x) ==> x < |g.nodes| && g.IsGate(x) && CutOff(g, rank, kept, x)
  {
    forall i | 0 <= i < |g.inputs[n]| ensures CutOff(g, rank, kept, g.inputs[n][i]) {
      assert HasCoverOf(ps, g.inputs[n][i]);
      var p :| p in ps && p.root == g.inputs[n][i];
      KeptCutOff(g, rank, ps, kept, p, g.inputs[n][i]);
    }
    forall x: nat | IsSomeInternal(g, rank, ps, x) ensures x < |g.nodes| && g.IsGate(x) && CutOff(g, rank, kept, x) {
      var p :| p in ps && x in Internals(g, rank, p);
      assert IsInner(g, rank, p.leaves, x);
      KeptCutOff(g, rank, ps, kept, p, x);
    }
  }

  predicate DependsOn(f: Fn, i: nat)
    requires i < f.arity
  {
    exists xs :: xs in Vectors(f.arity) && f.Apply(xs) != f.Apply(xs[i := !xs[i]])
  }

  function SupportSize(f: Fn): nat {
    |set i: nat | i < f.arity && DependsOn(f, i)|
  }

  /** The leaves are those of the covers `ps`, without repetition. */
  ghost predicate LeavesOf(ps: seq<Cut>, leaves: seq<nat>) {
    Distinct(leaves) && forall l :: l in leaves <==> IsLeafOf(ps, l)
  }

  ghost predicate IsLeafOf(ps: seq<Cut>, l: nat) {
    exists p :: p in ps && l in p.leaves
  }

  /** The covers `ps` of the inputs of gate `n` with their leaves. */
  ghost predicate CoversOfInputs(g: Graph, rank: seq<nat>, n: nat, ps: seq<Cut>, leaves: seq<nat>)
    requires g.Valid() && g.RankedBy(rank)
  {
    n < |g.nodes| && g.IsGate(n) && OneEach(g, rank, ps, n) && LeavesOf(ps, leaves)
  }

  lemma MergedCutOff(g: Graph, rank: seq<nat>, n: nat, ps: seq<Cut>, leaves: seq<nat>)
    requires g.Valid() && g.RankedBy(rank) && CoversOfInputs(g, rank, n, ps, leaves)
    ensures CutOff(g, rank, leaves, n) && n !in leaves
    ensures forall l :: l in leaves ==> IsLow(g, rank, l, n)
  {
    assert KeepsEnough(g, rank, ps, leaves) by {
      forall p, l | p in ps && l in p.leaves ensures l in leaves { assert IsLeafOf(ps, l); }
    }
    KeptIsCut(g, rank, ps, leaves, n);
    forall l | l in leaves ensures IsLow(g, rank, l, n) && l != n {
      assert IsLeafOf(ps, l);
      var p :| p in ps && l in p.leaves;
      assert IsLow(g, rank, l, p.root);
    }
  }

  /** The internal nodes a pruned cover gets: those of the covers merged, and its root. */
  ghost function MergedInternals(g: Graph, rank: seq<nat>, n: nat, ps: seq<Cut>): (s: set<nat>)
    requires g.Valid() && g.RankedBy(rank) && forall p :: p in ps ==> IsCut(g, rank, p)
    ensures forall x: nat :: x in s <==> (ps != [] && x == n) || IsSomeInternal(g, rank, ps, x)
  {
    if ps == [] then {}
    else {n} + set p, x | p in ps && x in Internals(g, rank, p) :: x
  }

  /** The cover made of the merged leaves: if its function does not depend on all of them, the leaves that
      are internal to one of the covers merged go. */
  ghost function PrunedCut(g: Graph, rank: seq<nat>, n: nat, ps: seq<Cut>, leaves: seq<nat>): (c: Cut)
    requires g.Valid() && g.RankedBy(rank) && CoversOfInputs(g, rank, n, ps, leaves)
  {
    MergedCutOff(g, rank, n, ps, leaves);
    if SupportSize(GetFn(g, rank, leaves, n)) == |leaves| then Cut(n, leaves, {})
    else
      var internals := MergedInternals(g, rank, n, ps);
      Cut(n, Extended([], leaves, internals), internals)
  }

  /** For some values of the leaves the value of `n` changes with that of leaf `i`. */
  ghost predicate Matters(g: Graph, rank: seq<nat>, leaves: seq<nat>, n: nat, i: nat)
    requires g.Valid() && g.RankedBy(rank) && n < |g.nodes| && CutOff(g, rank, leaves, n) && i < |leaves|
  {
    exists xs: Bits :: |xs| == |leaves| &&
      CutValue(g, rank, leaves, xs, n) != CutValue(g, rank, leaves, xs[i := !xs[i]], n)
  }

  lemma FlipMatters(g: Graph, rank: seq<nat>, leaves: seq<nat>, n: nat, i: nat, xs: Bits)
    requires g.Valid() && g.RankedBy(rank) && n < |g.nodes| && CutOff(g, rank, leaves, n) && i < |leaves| == |xs|
    ensures GetFn(g, rank, leaves, n).Apply(xs) != GetFn(g, rank, leaves, n).Apply(xs[i := !xs[i]]) <==>
            CutValue(g, rank, leaves, xs, n) != CutValue(g, rank, leaves, xs[i := !xs[i]], n)
  {
    assert xs in Vectors(|leaves|) && xs[i := !xs[i]] in Vectors(|leaves|);
  }

  lemma MattersIsDependence(g: Graph, rank: seq<nat>, leaves: seq<nat>, n: nat, i: nat)
    requires g.Valid() && g.RankedBy(rank) && n < |g.nodes| && CutOff(g, rank, leaves, n) && i < |leaves|
    ensures DependsOn(GetFn(g, rank, leaves, n), i) <==> Matters(g, rank, leaves, n, i)
  {
    var f := GetFn(g, rank, leaves, n);
    if DependsOn(f, i) {
      var xs :| xs in Vectors(f.arity) && f.Apply(xs) != f.Apply(xs[i := !xs[i]]);
      FlipMatters(g, rank, leaves, n, i, xs);
    }
    if Matters(g, rank, leaves, n, i) {
      var xs: Bits :| |xs| == |leaves| &&
                      CutValue(g, rank, leaves, xs, n) != CutValue(g, rank, leaves, xs[i := !xs[i]], n);
      FlipMatters(g, rank, leaves, n, i, xs);
      assert xs in Vectors(f.arity);
    }
  }

  function Below(n: nat): (s: set<nat>)
    ensures |s| == n && forall i: nat :: i in s <==> i < n
  {
    if n == 0 then {} else Below(n - 1) + {n - 1}
  }

  lemma FullSupport(f: Fn)
    ensures SupportSize(f) == f.arity <==> forall i: nat :: i < f.arity ==> DependsOn(f, i)
  {
    var s := set i: nat | i < f.arity && DependsOn(f, i);
    var all := Below(f.arity);
    assert s <= all && all == s + (all - s) && |all| == |s| + |all - s|;
    if |s| == f.arity {
      assert |all - s| == 0 && all - s == {};
      forall i: nat | i < f.arity ensures DependsOn(f, i) { assert i in all && i !in all - s; }
    }
    if forall i: nat :: i < f.arity ==> DependsOn(f, i) { assert s == all; }
  }

  /** `c` is what becomes of the merged cover: it stays if every leaf matters; otherwise exactly the leaves go
      that are inner nodes of one of the covers merged, the others keep their order, and the internals are those
      inner nodes and the root. */
  ghost predicate IsPruning(g: Graph, rank: seq<nat>, n: nat, ps: seq<Cut>, leaves: seq<nat>, c: Cut)
    requires g.Valid() && g.RankedBy(rank) && CoversOfInputs(g, rank, n, ps, leaves) && CutOff(g, rank, leaves, n)
  {
    if forall i: nat :: i < |leaves| ==> Matters(g, rank, leaves, n, i) then c == Cut(n, leaves, {})
    else
      && c.root == n
      && (exists idx: seq<nat> :: Selects(leaves, idx, c.leaves) && PicksOuter(g, rank, ps, leaves, idx))
      && (forall x: nat :: x in c.internals <==> x == n || IsInnerOfOne(g, rank, ps, x))
  }

  ghost predicate PicksOuter(g: Graph, rank: seq<nat>, ps: seq<Cut>, leaves: seq<nat>, idx: seq<nat>)
    requires g.Valid() && g.RankedBy(rank) && forall p :: p in ps ==> IsCut(g, rank, p)
  {
    forall k: nat :: k < |leaves| ==> (k in idx <==> !IsInnerOfOne(g, rank, ps, leaves[k]))
  }

  ghost predicate IsInnerOfOne(g: Graph, rank: seq<nat>, ps: seq<Cut>, x: nat)
    requires g.Valid() && g.RankedBy(rank) && forall p :: p in ps ==> IsCut(g, rank, p)
  {
    exists p :: p in ps && InnerOf(g, rank, p, x)
  }

  lemma SomeInternalIsInner(g: Graph, rank: seq<nat>, ps: seq<Cut>, x: nat)
    requires g.Valid() && g.RankedBy(rank) && forall p :: p in ps ==> IsCut(g, rank, p)
    ensures IsSomeInternal(g, rank, ps, x) <==> IsInnerOfOne(g, rank, ps, x)
  {
    forall p | p in ps ensures x in Internals(g, rank, p) <==> InnerOf(g, rank, p, x) {
      InternalsAreInner(g, rank, p, x);
    }
  }

  lemma PrunedMeans(g: Graph, rank: seq<nat>, n: nat, ps: seq<Cut>, leaves: seq<nat>)
    requires g.Valid() && g.RankedBy(rank) && CoversOfInputs(g, rank, n, ps, leaves)
    ensures CutOff(g, rank, leaves, n) && IsPruning(g, rank, n, ps, leaves, PrunedCut(g, rank, n, ps, leaves))
  {
    MergedCutOff(g, rank, n, ps, leaves);
    FullSupport(GetFn(g, rank, leaves, n));
    forall i: nat | i < |leaves|
      ensures DependsOn(GetFn(g, rank, leaves, n), i) <==> Matters(g, rank, leaves, n, i)
    {
      MattersIsDependence(g, rank, leaves, n, i);
    }
    if !forall i: nat :: i < |leaves| ==> Matters(g, rank, leaves, n, i) {
      PrunedLosesInner(g, rank, n, ps, leaves);
    }
  }

  /** Either every leaf of the cover matters, or the cover knows its internals and none of them is a leaf. */
  ghost predicate IsTight(g: Graph, rank: seq<nat>, n: nat, c: Cut)
    requires g.Valid() && g.RankedBy(rank)
  {
    n < |g.nodes| && CutOff(g, rank, c.leaves, n) &&
    if c.internals == {} then forall i: nat :: i < |c.leaves| ==> Matters(g, rank, c.leaves, n, i)
    else n in c.internals && forall l :: l in c.leaves ==> l !in c.internals
  }

  lemma PrunedIsTight(g: Graph, rank: seq<nat>, n: nat, ps: seq<Cut>, leaves: seq<nat>)
    requires g.Valid() && g.RankedBy(rank) && CoversOfInputs(g, rank, n, ps, leaves)
    ensures IsTight(g, rank, n, PrunedCut(g, rank, n, ps, leaves))
  {
    PrunedIsCut(g, rank, n, ps, leaves);
    PrunedMeans(g, rank, n, ps, leaves);
    PruningIsTight(g, rank, n, ps, leaves, PrunedCut(g, rank, n, ps, leaves));
  }

  lemma PruningIsTight(g: Graph, rank: seq<nat>, n: nat, ps: seq<Cut>, leaves: seq<nat>, c: Cut)
    requires g.Valid() && g.RankedBy(rank) && CoversOfInputs(g, rank, n, ps, leaves) && CutOff(g, rank, leaves, n)
    requires IsPruning(g, rank, n, ps, leaves, c) && CutOff(g, rank, c.leaves, n) && n !in c.leaves
    ensures IsTight(g, rank, n, c)
  {
    if !forall i: nat :: i < |leaves| ==> Matters(g, rank, leaves, n, i) {
      var idx: seq<nat> :| Selects(leaves, idx, c.leaves) && PicksOuter(g, rank, ps, leaves, idx);
      forall l | l in c.leaves ensures l !in c.internals {
        var a :| 0 <= a < |c.leaves| && c.leaves[a] == l;
        assert idx[a] in idx && leaves[idx[a]] == l;
        assert !IsInnerOfOne(g, rank, ps, l);
      }
      assert n in c.internals;
    }
  }

  lemma PrunedLosesInner(g: Graph, rank: seq<nat>, n: nat, ps: seq<Cut>, leaves: seq<nat>)
    requires g.Valid() && g.RankedBy(rank) && CoversOfInputs(g, rank, n, ps, leaves) && leaves != []
    ensures var internals := MergedInternals(g, rank, n, ps);
            && (exists idx: seq<nat> ::
                  Selects(leaves, idx, Extended([], leaves, internals)) && PicksOuter(g, rank, ps, leaves, idx))
            && (forall x: nat :: x in internals <==> x == n || IsInnerOfOne(g, rank, ps, x))
  {
    MergedCutOff(g, rank, n, ps, leaves);
    assert IsLeafOf(ps, leaves[0]);
    var internals := MergedInternals(g, rank, n, ps);
    forall x: nat ensures x in internals <==> x == n || IsInnerOfOne(g, rank, ps, x) {
      SomeInternalIsInner(g, rank, ps, x);
    }
    var idx := ExtendedSelects([], leaves, internals);
    assert Extended([], leaves, internals)[0..] == Extended([], leaves, internals);
    forall k: nat | k < |leaves| ensures k in idx <==> !IsInnerOfOne(g, rank, ps, leaves[k]) {
      assert leaves[k] !in leaves[..k];
    }
    assert PicksOuter(g, rank, ps, leaves, idx);
  }

  /** Pruned or not, the cover cuts off its root. */
  lemma PrunedIsCut(g: Graph, rank: seq<nat>, n: nat, ps: seq<Cut>, leaves: seq<nat>)
    requires g.Valid() && g.RankedBy(rank) && CoversOfInputs(g, rank, n, ps, leaves)
    ensures var c := PrunedCut(g, rank, n, ps, leaves); IsCut(g, rank, c) && c.root == n && n !in c.leaves
  {
    MergedCutOff(g, rank, n, ps, leaves);
    var internals := MergedInternals(g, rank, n, ps);
    var kept := Extended([], leaves, internals);
    assert KeepsEnough(g, rank, ps, kept) by {
      forall p, l | p in ps && l in p.leaves ensures l in kept || IsSomeInternal(g, rank, ps, l) {
        assert IsLeafOf(ps, l);
      }
    }
    KeptIsCut(g, rank, ps, kept, n);
  }

  /** The loops of the pruning compute that cover. */
  method Prune(g: Graph, ghost rank: seq<nat>, n: nat, ps: seq<Cut>, leaves: seq<nat>) returns (c: Cut)
    requires g.Valid() && g.RankedBy(rank) && CoversOfInputs(g, rank, n, ps, leaves)
    ensures c == PrunedCut(g, rank, n, ps, leaves)
    ensures CutOff(g, rank, leaves, n) && IsPruning(g, rank, n, ps, leaves, c)
  {
    MergedCutOff(g, rank, n, ps, leaves);
    PrunedMeans(g, rank, n, ps, leaves);
    if SupportSize(GetFn(g, rank, leaves, n)) == |leaves| { return Cut(n, leaves, {}); }
    assert IsLeafOf(ps, leaves[0]);
    var internals := GatherInternals(g, rank, n, ps);
    assert internals != {};
    var kept := PruneLeaves(leaves, internals);
    c := Cut(n, kept, internals);
  }

  method GatherInternals(g: Graph, ghost rank: seq<nat>, n: nat, ps: seq<Cut>) returns (internals: set<nat>)
    requires g.Valid() && g.RankedBy(rank) && forall p :: p in ps ==> IsCut(g, rank, p)
    ensures internals == MergedInternals(g, rank, n, ps)
  {
    internals := {};
    for i := 0 to |ps|
      invariant internals == MergedInternals(g, rank, n, ps[..i])
    {
      InternalsOfMore(g, rank, n, ps, i);
      internals := internals + Internals(g, rank, ps[i]) + {n};
    }
    assert ps[..|ps|] == ps;
  }

  method PruneLeaves(leaves: seq<nat>, internals: set<nat>) returns (kept: seq<nat>)
    requires Distinct(leaves)
    ensures kept == Extended([], leaves, internals)
  {
    kept := [];
    for i := 0 to |leaves|
      invariant kept == Extended([], leaves[..i], internals)
    {
      assert leaves[..i + 1][..i] == leaves[..i];
      if leaves[i] !in internals { kept := kept + [leaves[i]]; }
    }
    assert leaves[..|leaves|] == leaves;
  }

  lemma InternalsOfMore(g: Graph, rank: seq<nat>, n: nat, ps: seq<Cut>, i: nat)
    requires g.Valid() && g.RankedBy(rank) && i < |ps| && forall p :: p in ps ==> IsCut(g, rank, p)
    ensures MergedInternals(g, rank, n, ps[..i + 1]) ==
            MergedInternals(g, rank, n, ps[..i]) + Internals(g, rank, ps[i]) + {n}
  {
    assert ps[..i + 1] == ps[..i] + [ps[i]];
    assert forall p :: p in ps[..i + 1] <==> p in ps[..i] || p == ps[i];
    forall x: nat
      ensures IsSomeInternal(g, rank, ps[..i + 1], x) <==>
              IsSomeInternal(g, rank, ps[..i], x) || x in Internals(g, rank, ps[i])
    {
      if x in Internals(g, rank, ps[i]) { assert ps[i] in ps[..i + 1]; }
    }
  }

  // ---- all ways to merge ----

  function WithParent(ps: seq<Cut>, p: Cut): (r: seq<Cut>)
    ensures forall x :: x in r <==> x in ps || x == p
  {
    if p in ps then ps else ps + [p]
  }

  /** Going on from `leaves` and `ps` with one cover from each list from position `pos` on, never exceeding
      `threshold` leaves, can give `leaves'` and `ps'`. */
  ghost predicate MergesTo(lists: seq<seq<Cut>>, threshold: nat, pos: nat, leaves: seq<nat>, ps: seq<Cut>,
      leaves': seq<nat>, ps': seq<Cut>)
    requires pos <= |lists|
    decreases |lists| - pos, 1
  {
    if pos == |lists| then leaves' == leaves && ps' == ps
    else
      exists i :: 0 <= i < |lists[pos]| &&
        MergesVia(lists, threshold, pos, lists[pos][i], leaves, ps, leaves', ps')
  }

  ghost predicate MergesVia(lists: seq<seq<Cut>>, threshold: nat, pos: nat, c: Cut, leaves: seq<nat>, ps: seq<Cut>,
      leaves': seq<nat>, ps': seq<Cut>)
    requires pos < |lists|
    decreases |lists| - pos, 0
  {
    && |Elements(leaves) + Elements(c.leaves)| <= threshold
    && MergesTo(lists, threshold, pos + 1, Extended(leaves, c.leaves, {}), WithParent(ps, c), leaves', ps')
  }

  ghost predicate HasLeaves(r: seq<Cut>, c: Cut) {
    exists i :: 0 <= i < |r| && Elements(r[i].leaves) == Elements(c.leaves)
  }

  /** No two covers of the list have the same leaves. */
  ghost predicate NoneTwice(r: seq<Cut>) {
    && (forall c :: c in r ==> Distinct(c.leaves))
    && (forall i, j :: 0 <= i < j < |r| ==> Elements(r[i].leaves) != Elements(r[j].leaves))
  }

  /** The lists the covers of `n` are merged from: one of covers for each input. */
  ghost predicate InputLists(g: Graph, rank: seq<nat>, n: nat, ids: seq<nat>, lists: seq<seq<Cut>>)
    requires g.Valid() && g.RankedBy(rank)
  {
    && n < |g.nodes| && g.IsGate(n) && |lists| == |ids| && (forall y :: y in ids <==> y in g.inputs[n])
    && forall j, c :: 0 <= j < |ids| && c in lists[j] ==> IsCut(g, rank, c) && c.root == ids[j]
  }

  /** `ps` has covers of the first `pos` inputs and of nothing else, and `leaves` are theirs. */
  ghost predicate MergingCovers(g: Graph, rank: seq<nat>, n: nat, ids: seq<nat>, pos: nat, leaves: seq<nat>,
      ps: seq<Cut>)
    requires g.Valid() && g.RankedBy(rank)
  {
    && pos <= |ids| && LeavesOf(ps, leaves)
    && (forall p :: p in ps ==> IsCut(g, rank, p) && p.root in ids)
    && forall j :: 0 <= j < pos ==> HasCoverOf(ps, ids[j])
  }

  lemma LeavesOfOneMore(leaves: seq<nat>, ps: seq<Cut>, c: Cut)
    requires LeavesOf(ps, leaves)
    ensures LeavesOf(WithParent(ps, c), Extended(leaves, c.leaves, {}))
  {
    var ps', leaves' := WithParent(ps, c), Extended(leaves, c.leaves, {});
    forall l ensures l in leaves' <==> IsLeafOf(ps', l) {
      if l in c.leaves { assert c in ps'; }
      if IsLeafOf(ps, l) {
        var p :| p in ps && l in p.leaves;
        assert p in ps';
      }
    }
  }

  lemma HasCoverOneMore(ps: seq<Cut>, c: Cut, y: nat)
    requires HasCoverOf(ps, y) || y == c.root
    ensures HasCoverOf(WithParent(ps, c), y)
  {
    if HasCoverOf(ps, y) {
      var p :| p in ps && p.root == y;
      assert p in WithParent(ps, c);
    } else {
      assert c in WithParent(ps, c);
    }
  }

  lemma MergingOneMore(g: Graph, rank: seq<nat>, n: nat, ids: seq<nat>, pos: nat, leaves: seq<nat>, ps: seq<Cut>,
      c: Cut)
    requires g.Valid() && g.RankedBy(rank) && MergingCovers(g, rank, n, ids, pos, leaves, ps) && pos < |ids|
    requires IsCut(g, rank, c) && c.root == ids[pos]
    ensures MergingCovers(g, rank, n, ids, pos + 1, Extended(leaves, c.leaves, {}), WithParent(ps, c))
  {
    LeavesOfOneMore(leaves, ps, c);
    forall j | 0 <= j < pos + 1 ensures HasCoverOf(WithParent(ps, c), ids[j]) {
      HasCoverOneMore(ps, c, ids[j]);
    }
  }

  lemma MergingEnds(g: Graph, rank: seq<nat>, n: nat, ids: seq<nat>, lists: seq<seq<Cut>>, leaves: seq<nat>,
      ps: seq<Cut>)
    requires g.Valid() && g.RankedBy(rank) && InputLists(g, rank, n, ids, lists)
    requires MergingCovers(g, rank, n, ids, |ids|, leaves, ps)
    ensures CoversOfInputs(g, rank, n, ps, leaves)
  {
    forall i | 0 <= i < |g.inputs[n]| ensures HasCoverOf(ps, g.inputs[n][i]) {
      assert g.inputs[n][i] in ids;
      var j :| 0 <= j < |ids| && ids[j] == g.inputs[n][i];
    }
  }

  /** Whether a cover of the list has the same leaves. */
  method IsDuplicate(list: seq<Cut>, c: Cut) returns (found: bool)
    requires Distinct(c.leaves) && NoneTwice(list)
    ensures found <==> HasLeaves(list, c)
  {
    for i := 0 to |list|
      invariant !HasLeaves(list[..i], c)
    {
      var same := SameLeaves(list[i], c);
      if same { return true; }
    }
    assert list[..|list|] == list;
    return false;
  }

  /** Equally many leaves, those of `e` being among those of `c`. */
  method SameLeaves(c: Cut, e: Cut) returns (same: bool)
    requires Distinct(c.leaves) && Distinct(e.leaves)
    ensures same <==> Elements(c.leaves) == Elements(e.leaves)
  {
    DistinctSize(c.leaves);
    DistinctSize(e.leaves);
    if |c.leaves| != |e.leaves| { return false; }
    for i := 0 to |e.leaves|
      invariant Elements(e.leaves[..i]) <= Elements(c.leaves)
    {
      if e.leaves[i] !in c.leaves {
        assert e.leaves[i] in Elements(e.leaves);
        return false;
      }
    }
    assert e.leaves[..|e.leaves|] == e.leaves;
    SubsetOfSameSize(Elements(e.leaves), Elements(c.leaves));
    return true;
  }

  lemma SubsetOfSameSize(a: set<nat>, b: set<nat>)
    requires a <= b && |a| == |b|
    ensures a == b
  {
    assert b == a + (b - a);
    assert |b| == |a| + |b - a|;
  }

  /** Joins two lists of leaves as covers are merged. */
  method Join(root: nat, leaves: seq<nat>, more: seq<nat>, threshold: nat) returns (ok: bool, joined: seq<nat>)
    requires Distinct(leaves) && Distinct(more)
    ensures ok <==> |Elements(leaves) + Elements(more)| <= threshold
    ensures ok ==> joined == Extended(leaves, more, {})
  {
    var a := new KCover(root);
    var b := new KCover(root);
    a.leaves, b.leaves := leaves, more;
    var merged := a.SimpleMerge(b, threshold);
    if merged == null { return false, []; }
    return true, merged.leaves;
  }

  /** Makes the covers of all nodes: `kInputs` are the inputs of every gate in the order in which they are
      merged, `threshold` bounds covers while they are merged and `size` those that are kept. */
  class CoverMaker {
    const g: Graph
    ghost const rank: seq<nat>
    const kInputs: seq<seq<nat>>
    const size: nat
    const threshold: nat
    var kcovers: map<nat, seq<Cut>>

    ghost predicate Ready() {
      && g.Valid() && g.RankedBy(rank) && |kInputs| == |g.nodes|
      && forall n, y :: 0 <= n < |kInputs| && g.IsGate(n) ==> (y in kInputs[n] <==> y in g.inputs[n])
    }

    /** A merged cover that is small enough once pruned is in the list, if perhaps with its leaves in another
        order. */
    ghost predicate Handled(n: nat, leaves: seq<nat>, ps: seq<Cut>, r: seq<Cut>)
      requires Ready()
    {
      CoversOfInputs(g, rank, n, ps, leaves) &&
      var c := PrunedCut(g, rank, n, ps, leaves);
      |c.leaves| <= size ==> HasLeaves(r, c)
    }

    /** `c` is a merged cover, pruned and small enough. */
    ghost predicate IsMade(n: nat, leaves: seq<nat>, ps: seq<Cut>, c: Cut)
      requires Ready()
    {
      CoversOfInputs(g, rank, n, ps, leaves) && c == PrunedCut(g, rank, n, ps, leaves) && |c.leaves| <= size
    }

    /** Going on from `leaves` and `ps` at position `pos` gives the cover `c`. */
    ghost predicate ComesFrom(n: nat, lists: seq<seq<Cut>>, pos: nat, leaves: seq<nat>, ps: seq<Cut>, c: Cut)
      requires Ready() && pos <= |lists|
    {
      exists leaves', ps' :: MergesTo(lists, threshold, pos, leaves, ps, leaves', ps') && IsMade(n, leaves', ps', c)
    }

    /** What `r` has beyond `list` comes from there. */
    ghost predicate AllComeFrom(n: nat, lists: seq<seq<Cut>>, pos: nat, leaves: seq<nat>, ps: seq<Cut>,
        list: seq<Cut>, r: seq<Cut>)
      requires Ready() && pos <= |lists|
    {
      forall c :: c in r ==> c in list || ComesFrom(n, lists, pos, leaves, ps, c)
    }

    /** `r` has all covers that going on from there gives. */
    ghost predicate AllHandled(n: nat, lists: seq<seq<Cut>>, pos: nat, leaves: seq<nat>, ps: seq<Cut>, r: seq<Cut>)
      requires Ready() && pos <= |lists|
    {
      forall leaves', ps' :: MergesTo(lists, threshold, pos, leaves, ps, leaves', ps') ==> Handled(n, leaves', ps', r)
    }

    ghost predicate HandledVia(n: nat, lists: seq<seq<Cut>>, pos: nat, c: Cut, leaves: seq<nat>, ps: seq<Cut>,
        r: seq<Cut>)
      requires Ready() && pos < |lists|
    {
      forall leaves', ps' ::
        MergesVia(lists, threshold, pos, c, leaves, ps, leaves', ps') ==> Handled(n, leaves', ps', r)
    }

    lemma HandledStays(n: nat, leaves: seq<nat>, ps: seq<Cut>, r: seq<Cut>, r': seq<Cut>)
      requires Ready() && Handled(n, leaves, ps, r) && r <= r'
      ensures Handled(n, leaves, ps, r')
    {
      var c := PrunedCut(g, rank, n, ps, leaves);
      if |c.leaves| <= size {
        var i :| 0 <= i < |r| && Elements(r[i].leaves) == Elements(c.leaves);
        assert r'[i] == r[i];
      }
    }

    lemma HandledViaStays(n: nat, lists: seq<seq<Cut>>, pos: nat, c: Cut, leaves: seq<nat>, ps: seq<Cut>,
        r: seq<Cut>, r': seq<Cut>)
      requires Ready() && pos < |lists| && HandledVia(n, lists, pos, c, leaves, ps, r) && r <= r'
      ensures HandledVia(n, lists, pos, c, leaves, ps, r')
    {
      forall leaves', ps' | MergesVia(lists, threshold, pos, c, leaves, ps, leaves', ps')
        ensures Handled(n, leaves', ps', r')
      {
        HandledStays(n, leaves', ps', r, r');
      }
    }

    /** So far the first `i` covers of the list have been merged. */
    ghost predicate Tried(n: nat, lists: seq<seq<Cut>>, pos: nat, i: nat, leaves: seq<nat>, ps: seq<Cut>,
        r: seq<Cut>)
      requires Ready() && pos < |lists| && i <= |lists[pos]|
    {
      forall j :: 0 <= j < i ==> HandledVia(n, lists, pos, lists[pos][j], leaves, ps, r)
    }

    lemma TriedOneMore(n: nat, lists: seq<seq<Cut>>, pos: nat, i: nat, leaves: seq<nat>, ps: seq<Cut>, list: seq<Cut>,
        r: seq<Cut>, r': seq<Cut>)
      requires Ready() && pos < |lists| && i < |lists[pos]| && r <= r'
      requires AllComeFrom(n, lists, pos, leaves, ps, list, r) && AllComeFrom(n, lists, pos, leaves, ps, r, r')
      requires Tried(n, lists, pos, i, leaves, ps, r) && HandledVia(n, lists, pos, lists[pos][i], leaves, ps, r')
      ensures AllComeFrom(n, lists, pos, leaves, ps, list, r') && Tried(n, lists, pos, i + 1, leaves, ps, r')
    {
      forall j | 0 <= j < i ensures HandledVia(n, lists, pos, lists[pos][j], leaves, ps, r') {
        HandledViaStays(n, lists, pos, lists[pos][j], leaves, ps, r, r');
      }
    }

    lemma AllTried(n: nat, lists: seq<seq<Cut>>, pos: nat, leaves: seq<nat>, ps: seq<Cut>, r: seq<Cut>)
      requires Ready() && pos < |lists| && Tried(n, lists, pos, |lists[pos]|, leaves, ps, r)
      ensures AllHandled(n, lists, pos, leaves, ps, r)
    {
      forall leaves', ps' | MergesTo(lists, threshold, pos, leaves, ps, leaves', ps')
        ensures Handled(n, leaves', ps', r)
      {
        var j :| 0 <= j < |lists[pos]| && MergesVia(lists, threshold, pos, lists[pos][j], leaves, ps, leaves', ps');
        assert HandledVia(n, lists, pos, lists[pos][j], leaves, ps, r);
      }
    }

    /** What merging one cover of the list gives is given by going on from there. */
    lemma ComesFromOneMore(n: nat, lists: seq<seq<Cut>>, pos: nat, i: nat, leaves: seq<nat>, ps: seq<Cut>, e: Cut)
      requires Ready() && pos < |lists| && i < |lists[pos]|
      requires var c := lists[pos][i];
               && |Elements(leaves) + Elements(c.leaves)| <= threshold
               && ComesFrom(n, lists, pos + 1, Extended(leaves, c.leaves, {}), WithParent(ps, c), e)
      ensures ComesFrom(n, lists, pos, leaves, ps, e)
    {
      var c := lists[pos][i];
      var l, q :| MergesTo(lists, threshold, pos + 1, Extended(leaves, c.leaves, {}), WithParent(ps, c), l, q) &&
                  IsMade(n, l, q, e);
      assert MergesVia(lists, threshold, pos, c, leaves, ps, l, q);
    }

    lemma GoesOnFrom(n: nat, lists: seq<seq<Cut>>, pos: nat, i: nat, leaves: seq<nat>, ps: seq<Cut>, list: seq<Cut>,
        r: seq<Cut>)
      requires Ready() && pos < |lists| && i < |lists[pos]|
      requires var c := lists[pos][i];
               && |Elements(leaves) + Elements(c.leaves)| <= threshold
               && AllComeFrom(n, lists, pos + 1, Extended(leaves, c.leaves, {}), WithParent(ps, c), list, r)
               && AllHandled(n, lists, pos + 1, Extended(leaves, c.leaves, {}), WithParent(ps, c), r)
      ensures AllComeFrom(n, lists, pos, leaves, ps, list, r)
      ensures HandledVia(n, lists, pos, lists[pos][i], leaves, ps, r)
    {
      forall e | e in r && e !in list ensures ComesFrom(n, lists, pos, leaves, ps, e) {
        ComesFromOneMore(n, lists, pos, i, leaves, ps, e);
      }
    }

    /** Lengthens the list of covers of `n` by those that merging one cover from each of the remaining lists
        gives. */
    method ComputeCovers(n: nat, lists: seq<seq<Cut>>, pos: nat, leaves: seq<nat>, ps: seq<Cut>, list: seq<Cut>)
        returns (r: seq<Cut>)
      requires Ready() && n < |g.nodes| && InputLists(g, rank, n, kInputs[n], lists)
      requires MergingCovers(g, rank, n, kInputs[n], pos, leaves, ps)
      requires NoneTwice(list)
      ensures list <= r && NoneTwice(r)
      ensures AllComeFrom(n, lists, pos, leaves, ps, list, r) && AllHandled(n, lists, pos, leaves, ps, r)
      decreases |lists| - pos, 1
    {
      r := list;
      if pos == |lists| {
        r := Finish(n, lists, leaves, ps, list);
      } else {
        for i := 0 to |lists[pos]|
          invariant list <= r && NoneTwice(r)
          invariant AllComeFrom(n, lists, pos, leaves, ps, list, r) && Tried(n, lists, pos, i, leaves, ps, r)
        {
          ghost var before := r;
          r := MergeNextCover(n, lists, pos, i, leaves, ps, r);
          TriedOneMore(n, lists, pos, i, leaves, ps, list, before, r);
        }
        AllTried(n, lists, pos, leaves, ps, r);
      }
    }

    /** All covers are merged: the result is pruned and added if it is small enough and new. */
    method Finish(n: nat, lists: seq<seq<Cut>>, leaves: seq<nat>, ps: seq<Cut>, list: seq<Cut>) returns (r: seq<Cut>)
      requires Ready() && n < |g.nodes| && InputLists(g, rank, n, kInputs[n], lists)
      requires MergingCovers(g, rank, n, kInputs[n], |lists|, leaves, ps)
      requires NoneTwice(list)
      ensures list <= r && NoneTwice(r)
      ensures AllComeFrom(n, lists, |lists|, leaves, ps, list, r) && AllHandled(n, lists, |lists|, leaves, ps, r)
    {
      MergingEnds(g, rank, n, kInputs[n], lists, leaves, ps);
      PrunedIsCut(g, rank, n, ps, leaves);
      var c := PruneMerged(n, leaves, ps);
      r := list;
      if |c.leaves| <= size {
        var found := IsDuplicate(list, c);
        if !found { r := list + [c]; }
        assert !found ==> r[|list|] == c;
      }
      assert MergesTo(lists, threshold, |lists|, leaves, ps, leaves, ps);
    }

    method PruneMerged(n: nat, leaves: seq<nat>, ps: seq<Cut>) returns (c: Cut)
      requires Ready() && CoversOfInputs(g, rank, n, ps, leaves)
      ensures c == PrunedCut(g, rank, n, ps, leaves)
    {
      c := Prune(g, rank, n, ps, leaves);
    }

    /** Merges cover number `i` of the list at position `pos`, unless that gives too many leaves, and goes on. */
    method MergeNextCover(n: nat, lists: seq<seq<Cut>>, pos: nat, i: nat, leaves: seq<nat>, ps: seq<Cut>,
        list: seq<Cut>)
        returns (r: seq<Cut>)
      requires Ready() && n < |g.nodes| && InputLists(g, rank, n, kInputs[n], lists)
      requires pos < |lists| && i < |lists[pos]| && MergingCovers(g, rank, n, kInputs[n], pos, leaves, ps)
      requires NoneTwice(list)
      ensures list <= r && NoneTwice(r)
      ensures AllComeFrom(n, lists, pos, leaves, ps, list, r)
      ensures HandledVia(n, lists, pos, lists[pos][i], leaves, ps, r)
      decreases |lists| - pos, 0
    {
      var ok, joined := TakeOver(n, lists, pos, lists[pos][i], leaves, ps);
      if !ok {
        TooManyLeaves(n, lists, pos, i, leaves, ps, list);
        return list;
      }
      r := ComputeCovers(n, lists, pos + 1, joined, WithParent(ps, lists[pos][i]), list);
      GoesOnFrom(n, lists, pos, i, leaves, ps, list, r);
    }

    method TakeOver(n: nat, ghost lists: seq<seq<Cut>>, pos: nat, c: Cut, leaves: seq<nat>, ghost ps: seq<Cut>)
        returns (ok: bool, joined: seq<nat>)
      requires Ready() && n < |g.nodes| && InputLists(g, rank, n, kInputs[n], lists)
      requires pos < |lists| && c in lists[pos] && MergingCovers(g, rank, n, kInputs[n], pos, leaves, ps)
      ensures ok <==> |Elements(leaves) + Elements(c.leaves)| <= threshold
      ensures ok ==> joined == Extended(leaves, c.leaves, {}) &&
                     MergingCovers(g, rank, n, kInputs[n], pos + 1, joined, WithParent(ps, c))
    {
      MergingOneMore(g, rank, n, kInputs[n], pos, leaves, ps, c);
      ok, joined := Join(n, leaves, c.leaves, threshold);
    }

    lemma TooManyLeaves(n: nat, lists: seq<seq<Cut>>, pos: nat, i: nat, leaves: seq<nat>, ps: seq<Cut>,
        list: seq<Cut>)
      requires Ready() && pos < |lists| && i < |lists[pos]|
      requires |Elements(leaves) + Elements(lists[pos][i].leaves)| > threshold
      ensures AllComeFrom(n, lists, pos, leaves, ps, list, list)
      ensures HandledVia(n, lists, pos, lists[pos][i], leaves, ps, list)
    {
    }

    // ---- the lists of all nodes ----

    /** The lists of the inputs of gate `n`. */
    ghost function ListsOf(m: map<nat, seq<Cut>>, n: nat): (lists: seq<seq<Cut>>)
      requires n < |kInputs| && forall y :: y in kInputs[n] ==> y in m
    {
      seq(|kInputs[n]|, j requires 0 <= j < |kInputs[n]| => m[kInputs[n][j]])
    }

    /** The list of `n` ends with `n` as its own cover; before that, a gate has exactly the covers merged from
        those of its inputs, no leaves twice. */
    ghost predicate ListOk(m: map<nat, seq<Cut>>, n: nat)
      requires Ready() && n in m
    {
      && n < |g.nodes| && m[n] != [] && m[n][|m[n]| - 1] == Cut(n, [n], {})
      && var merged := m[n][..|m[n]| - 1];
         if g.IsGate(n) then (forall y :: y in kInputs[n] ==> y in m) && IsMergedList(n, ListsOf(m, n), merged)
         else merged == []
    }

    /** The list has exactly the covers merged from these lists, no leaves twice. */
    ghost predicate IsMergedList(n: nat, lists: seq<seq<Cut>>, merged: seq<Cut>)
      requires Ready()
    {
      NoneTwice(merged) && AllComeFrom(n, lists, 0, [], [], [], merged) && AllHandled(n, lists, 0, [], [], merged)
    }

    ghost predicate Valid()
      reads this
    {
      Ready() && EntriesOk(kcovers)
    }

    ghost predicate EntriesOk(m: map<nat, seq<Cut>>)
      requires Ready()
    {
      forall n {:trigger ListOk(m, n)} :: n in m ==> ListOk(m, n)
    }

    /** `m'` has the entries of `m`, and others only for nodes of rank below `r`. */
    ghost predicate Grows(m: map<nat, seq<Cut>>, m': map<nat, seq<Cut>>, r: nat)
      requires Ready()
    {
      && (forall k :: k in m ==> k in m' && m'[k] == m[k])
      && (forall k :: k in m' && k !in m ==> k < |g.nodes| && rank[k] < r)
    }

    lemma EntryStays(m: map<nat, seq<Cut>>, m': map<nat, seq<Cut>>, n: nat)
      requires Ready() && n in m && ListOk(m, n) && forall k :: k in m ==> k in m' && m'[k] == m[k]
      ensures ListOk(m', n)
    {
      var merged := m[n][..|m[n]| - 1];
      if g.IsGate(n) {
        assert ListsOf(m', n) == ListsOf(m, n);
        assert IsMergedList(n, ListsOf(m', n), merged);
      }
    }

    /** What is in a list cuts off its node, and no two have the same leaves. */
    lemma EntryIsCuts(m: map<nat, seq<Cut>>, n: nat)
      requires Ready() && n in m && ListOk(m, n)
      ensures forall c :: c in m[n] ==> IsCut(g, rank, c) && c.root == n
      ensures forall c :: c in m[n][..|m[n]| - 1] ==>
                |c.leaves| <= size && n !in c.leaves && IsTight(g, rank, n, c)
    {
      forall c | c in m[n][..|m[n]| - 1]
        ensures IsCut(g, rank, c) && c.root == n && |c.leaves| <= size && n !in c.leaves && IsTight(g, rank, n, c)
      {
        assert ComesFrom(n, ListsOf(m, n), 0, [], [], c);
        var l, q :| MergesTo(ListsOf(m, n), threshold, 0, [], [], l, q) && IsMade(n, l, q, c);
        PrunedIsCut(g, rank, n, q, l);
        PrunedIsTight(g, rank, n, q, l);
      }
      forall c | c in m[n] ensures IsCut(g, rank, c) && c.root == n {
        var i :| 0 <= i < |m[n]| && m[n][i] == c;
        if i < |m[n]| - 1 { assert c == m[n][..|m[n]| - 1][i]; }
      }
    }

    constructor (g: Graph, ghost rank: seq<nat>, kInputs: seq<seq<nat>>, size: nat, threshold: nat)
      requires g.Valid() && g.RankedBy(rank) && |kInputs| == |g.nodes|
      requires forall n, y :: 0 <= n < |kInputs| && g.IsGate(n) ==> (y in kInputs[n] <==> y in g.inputs[n])
      ensures Valid() && this.g == g && this.rank == rank && this.kInputs == kInputs
      ensures this.size == size && this.threshold == threshold && kcovers == map[]
    {
      this.g, this.rank, this.kInputs, this.size, this.threshold := g, rank, kInputs, size, threshold;
      kcovers := map[];
    }

    /** The covers of `n`, made when they are asked for first. */
    method GetKCovers(n: nat) returns (cs: seq<Cut>)
      requires Valid() && n < |g.nodes|
      modifies this`kcovers
      ensures Valid() && n in kcovers && cs == kcovers[n] && Grows(old(kcovers), kcovers, rank[n] + 1)
      decreases rank[n], 1
    {
      if n in kcovers { return kcovers[n]; }
      if g.IsGate(n) {
        var lists := GetInputLists(n);
        ListsAreCuts(n, kcovers);
        cs := ComputeCovers(n, lists, 0, [], [], []);
        assert IsMergedList(n, ListsOf(kcovers, n), cs);
      } else {
        cs := [];
      }
      cs := cs + [Cut(n, [n], {})];
      ghost var before := kcovers;
      kcovers := kcovers[n := cs];
      NewEntry(before, n, cs);
    }

    /** The covers of all inputs of gate `n`. */
    method GetInputLists(n: nat) returns (lists: seq<seq<Cut>>)
      requires Valid() && n < |g.nodes| && g.IsGate(n)
      modifies this`kcovers
      ensures Valid() && (forall y :: y in kInputs[n] ==> y in kcovers) && lists == ListsOf(kcovers, n)
      ensures Grows(old(kcovers), kcovers, rank[n])
      decreases rank[n], 0
    {
      lists := [];
      for j := 0 to |kInputs[n]|
        invariant Valid() && Grows(old(kcovers), kcovers, rank[n])
        invariant |lists| == j
        invariant forall i :: 0 <= i < j ==> kInputs[n][i] in kcovers && lists[i] == kcovers[kInputs[n][i]]
      {
        assert kInputs[n][j] in g.inputs[n];
        var cs := GetKCovers(kInputs[n][j]);
        lists := lists + [cs];
      }
    }

    lemma ListsAreCuts(n: nat, m: map<nat, seq<Cut>>)
      requires Ready() && EntriesOk(m) && n < |g.nodes| && g.IsGate(n) && forall y :: y in kInputs[n] ==> y in m
      ensures InputLists(g, rank, n, kInputs[n], ListsOf(m, n)) && MergingCovers(g, rank, n, kInputs[n], 0, [], [])
    {
      var lists := ListsOf(m, n);
      forall j, c | 0 <= j < |kInputs[n]| && c in lists[j] ensures IsCut(g, rank, c) && c.root == kInputs[n][j] {
        EntryIsCuts(m, kInputs[n][j]);
      }
    }

    lemma NewEntry(m: map<nat, seq<Cut>>, n: nat, cs: seq<Cut>)
      requires Ready() && n < |g.nodes| && n !in m && EntriesOk(m)
      requires cs != [] && cs[|cs| - 1] == Cut(n, [n], {})
      requires !g.IsGate(n) ==> |cs| == 1
      requires g.IsGate(n) ==>
                 (forall y :: y in kInputs[n] ==> y in m) && IsMergedList(n, ListsOf(m, n), cs[..|cs| - 1])
      ensures EntriesOk(m[n := cs])
    {
      var m' := m[n := cs];
      forall k | k in m' ensures ListOk(m', k) {
        if k == n { NewListOk(m, n, cs); } else { EntryStays(m, m', k); }
      }
    }

    lemma NewListOk(m: map<nat, seq<Cut>>, n: nat, cs: seq<Cut>)
      requires Ready() && n < |g.nodes| && n !in m && cs != [] && cs[|cs| - 1] == Cut(n, [n], {})
      requires !g.IsGate(n) ==> |cs| == 1
      requires g.IsGate(n) ==>
                 (forall y :: y in kInputs[n] ==> y in m) && IsMergedList(n, ListsOf(m, n), cs[..|cs| - 1])
      ensures ListOk(m[n := cs], n)
    {
      var m' := m[n := cs];
      if g.IsGate(n) {
        assert ListsOf(m', n) == ListsOf(m, n);
        assert IsMergedList(n, ListsOf(m', n), m'[n][..|m'[n]| - 1]);
      }
    }
  }

  /** The cover objects stand for the cuts of `n` in the list. */
  ghost predicate StandFor(covers: seq<KCover>, cs: seq<Cut>, n: nat)
    reads covers`leaves
  {
    |covers| == |cs| && forall k :: 0 <= k < |cs| ==> covers[k].root == n && covers[k].leaves == cs[k].leaves
  }

  method MakeCovers(cs: seq<Cut>, n: nat) returns (covers: seq<KCover>)
    ensures fresh(covers) && StandFor(covers, cs, n)
  {
    covers := [];
    for i := 0 to |cs|
      invariant fresh(covers) && StandFor(covers, cs[..i], n)
    {
      var cover := new KCover(n);
      cover.leaves := cs[i].leaves;
      covers := covers + [cover];
    }
    assert cs[..|cs|] == cs;
  }

  lemma CutsAreCovers(table: FunctionTable, covers: seq<KCover>, cs: seq<Cut>, n: nat)
    requires table.Valid() && StandFor(covers, cs, n)
    requires forall c :: c in cs ==> IsCut(table.g, table.rank, c) && c.root == n
    ensures forall k :: 0 <= k < |covers| ==> table.IsCover(covers[k])
  {
    forall k | 0 <= k < |covers| ensures table.IsCover(covers[k]) {
      assert cs[k] in cs;
    }
  }

  lemma FnsOfAll(table: FunctionTable, covers: seq<KCover>) returns (fns: seq<Fn>)
    requires table.Valid() && forall k :: 0 <= k < |covers| ==> table.IsCover(covers[k])
    ensures table.AreFnsOf(fns, covers)
  {
    fns := [];
    for i := 0 to |covers|
      invariant |fns| == i && forall k :: 0 <= k < i ==> fns[k] == table.FnOf(covers[k])
    {
      fns := fns + [table.FnOf(covers[i])];
    }
  }

  lemma MarksOfAll(covers: seq<KCover>) returns (marks: seq<Mark>)
    ensures FunctionTable.AreMarksOf(marks, covers)
  {
    marks := [];
    for i := 0 to |covers|
      invariant |marks| == i
      invariant forall k :: 0 <= k < i ==> marks[k].canonical == covers[k].canonical && marks[k].perm == covers[k].perm
    {
      marks := marks + [Mark(covers[i].canonical, covers[i].perm)];
    }
  }

  /** Makes the covers of gate `n` and enters their functions. */
  method AnalyzeGate(maker: CoverMaker, table: FunctionTable, n: nat)
      returns (covers: seq<KCover>, ghost fns: seq<Fn>, ghost marks: seq<Mark>)
    requires maker.Valid() && table.Valid() && table.g == maker.g && table.rank == maker.rank && n < |maker.g.nodes|
    modifies maker`kcovers, table`bdds
    ensures maker.Valid() && n in maker.kcovers && fresh(covers) && StandFor(covers, maker.kcovers[n], n)
    ensures table.Valid() && table.AreFnsOf(fns, covers) && FunctionTable.AreMarksOf(marks, covers)
    ensures Entered(old(table.bdds), table.bdds, fns, covers, marks, Fates(old(table.bdds), fns), |covers|)
    ensures Classified(fns, marks)
    ensures forall h :: h in table.bdds ==>
              table.bdds[h].covers == (if h in old(table.bdds) then old(table.bdds)[h].covers else {}) +
                set k | 0 <= k < |covers| && table.bdds[h].canonical == h && EqualUpToPermutation(h, fns[k]) ::
                  covers[k]
  {
    var cs := maker.GetKCovers(n);
    maker.EntryIsCuts(maker.kcovers, n);
    covers := MakeCovers(cs, n);
    CutsAreCovers(table, covers, cs, n);
    fns := FnsOfAll(table, covers);
    marks := MarksOfAll(covers);
    marks := table.CreateFunctions(covers, fns, marks);
  }
}
