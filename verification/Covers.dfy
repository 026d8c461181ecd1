/** K-feasible covers: a root node and an ordered list of leaves that cuts it off from the rest of
    the netlist. A cover computes a Boolean function of its leaves. */
module Covers {
  import opened BoolFunctions
  import opened Netlists
  import opened Permutations
  import opened Sequences

  /** Every way down from `n` ends in a leaf. */
  ghost predicate CutOff(g: Graph, rank: seq<nat>, leaves: seq<nat>, n: nat)
    requires g.Valid() && g.RankedBy(rank) && n < |g.nodes|
    decreases rank[n]
  {
    n in leaves ||
    (g.IsGate(n) && forall i :: 0 <= i < |g.inputs[n]| ==> CutOff(g, rank, leaves, g.inputs[n][i]))
  }

  /** The value of `n` when the leaves have the values `xs`. */
  function CutValue(g: Graph, ghost rank: seq<nat>, leaves: seq<nat>, xs: Bits, n: nat): bool
    requires g.Valid() && g.RankedBy(rank) && n < |g.nodes| && |xs| == |leaves|
    requires CutOff(g, rank, leaves, n)
    decreases rank[n]
  {
    if n in leaves then xs[IndexOf(leaves, n)]
    else g.nodes[n].cell.fn.Apply(seq(|g.inputs[n]|, i requires 0 <= i < |g.inputs[n]| =>
      CutValue(g, rank, leaves, xs, g.inputs[n][i])))
  }

  /** The function of a cover, leaf i being its argument i. */
  function GetFn(g: Graph, ghost rank: seq<nat>, leaves: seq<nat>, root: nat): (f: Fn)
    requires g.Valid() && g.RankedBy(rank) && root < |g.nodes| && CutOff(g, rank, leaves, root)
    ensures f.Valid() && f.arity == |leaves|
  {
    Fn(|leaves|, set xs | xs in Vectors(|leaves|) && CutValue(g, rank, leaves, xs, root))
  }

  /** Given the values its leaves have in the circuit, a cover computes the value of its root. */
  lemma {:induction false} CutValueIsNodeValue(g: Graph, rank: seq<nat>, env: Bits, leaves: seq<nat>, n: nat)
    requires g.Valid() && g.RankedBy(rank) && |env| == |g.nodes| && n < |g.nodes|
    requires CutOff(g, rank, leaves, n)
    requires forall i :: 0 <= i < |leaves| ==> leaves[i] < |g.nodes|
    ensures CutValue(g, rank, leaves, Pick(Values(g, env), leaves), n) == Values(g, env)[n]
    decreases rank[n]
  {
    var v := Values(g, env);
    if n !in leaves {
      var xs := Pick(v, leaves);
      var ys := seq(|g.inputs[n]|, i requires 0 <= i < |g.inputs[n]| =>
        CutValue(g, rank, leaves, xs, g.inputs[n][i]));
      forall i | 0 <= i < |g.inputs[n]| ensures ys[i] == v[g.inputs[n][i]] {
        CutValueIsNodeValue(g, rank, env, leaves, g.inputs[n][i]);
      }
      assert ys == Pick(v, g.inputs[n]);
    }
  }

  lemma {:induction false} GatherKeepsCut(g: Graph, rank: seq<nat>, leaves: seq<nat>, p: Perm, n: nat)
    requires g.Valid() && g.RankedBy(rank) && n < |g.nodes| && IsPerm(p) && |p| == |leaves|
    requires CutOff(g, rank, leaves, n)
    ensures CutOff(g, rank, Gather(leaves, p), n)
    decreases rank[n]
  {
    if n in leaves {
      InverseAt(p);
      GatherAt(leaves, p);
      assert Gather(leaves, p)[Inverse(p)[IndexOf(leaves, n)]] == n;
    } else {
      forall i | 0 <= i < |g.inputs[n]| ensures CutOff(g, rank, Gather(leaves, p), g.inputs[n][i]) {
        GatherKeepsCut(g, rank, leaves, p, g.inputs[n][i]);
      }
    }
  }

  /** Reordering the leaves spreads the leaf values back to where they belong. */
  lemma {:induction false} GatherCutValue(g: Graph, rank: seq<nat>, leaves: seq<nat>, p: Perm, xs: Bits, n: nat)
    requires g.Valid() && g.RankedBy(rank) && n < |g.nodes|
    requires IsPerm(p) && |p| == |leaves| == |xs| && Distinct(leaves)
    requires CutOff(g, rank, leaves, n) && CutOff(g, rank, Gather(leaves, p), n)
    ensures CutValue(g, rank, Gather(leaves, p), xs, n) == CutValue(g, rank, leaves, Spread(xs, p), n)
    decreases rank[n]
  {
    var reordered := Gather(leaves, p);
    GatherAt(leaves, p);
    if n in leaves {
      InverseAt(p);
      var j := IndexOf(leaves, n);
      assert reordered[Inverse(p)[j]] == n;
      var i := IndexOf(reordered, n);
      assert leaves[p[i]] == n && p[i] == j;
      SpreadAt(xs, p);
    } else {
      assert n !in reordered;
      var ys := seq(|g.inputs[n]|, i requires 0 <= i < |g.inputs[n]| =>
        CutValue(g, rank, reordered, xs, g.inputs[n][i]));
      var zs := seq(|g.inputs[n]|, i requires 0 <= i < |g.inputs[n]| =>
        CutValue(g, rank, leaves, Spread(xs, p), g.inputs[n][i]));
      forall i | 0 <= i < |g.inputs[n]| ensures ys[i] == zs[i] {
        GatherCutValue(g, rank, leaves, p, xs, g.inputs[n][i]);
      }
      assert ys == zs;
    }
  }

  /** The function of the cover with reordered leaves is the permuted function. */
  lemma GatherGetFn(g: Graph, rank: seq<nat>, leaves: seq<nat>, p: Perm, root: nat)
    requires g.Valid() && g.RankedBy(rank) && root < |g.nodes|
    requires IsPerm(p) && |p| == |leaves| && Distinct(leaves) && CutOff(g, rank, leaves, root)
    ensures CutOff(g, rank, Gather(leaves, p), root)
    ensures GetFn(g, rank, Gather(leaves, p), root) == Permute(GetFn(g, rank, leaves, root), p)
  {
    GatherKeepsCut(g, rank, leaves, p, root);
    var a, b := GetFn(g, rank, Gather(leaves, p), root), Permute(GetFn(g, rank, leaves, root), p);
    forall xs: Bits | |xs| == a.arity ensures a.Apply(xs) == b.Apply(xs) {
      GatherCutValue(g, rank, leaves, p, xs, root);
      PermuteApply(GetFn(g, rank, leaves, root), p, xs);
    }
    SameFunction(a, b);
  }

  // ---- merging two covers ----

  ghost function Elements(s: seq<nat>): set<nat> {
    set n | n in s
  }

  lemma ElementsAppend(s: seq<nat>, n: nat)
    ensures Elements(s + [n]) == Elements(s) + {n}
  {
  }

  /** The leaves of the merged cover: those of both that did not become internal. */
  ghost function MergedLeaves(leaves: seq<nat>, internals: set<nat>, leaves': seq<nat>, internals': set<nat>,
      top: nat): set<nat>
  {
    Elements(leaves) + Elements(leaves') - (internals + internals' + {top})
  }

  lemma MergedLeavesAre(leaves: seq<nat>, internals: set<nat>, leaves': seq<nat>, internals': set<nat>, top: nat,
      n: nat)
    ensures n in MergedLeaves(leaves, internals, leaves', internals', top) <==>
              (n in leaves || n in leaves') && n !in internals && n !in internals' && n != top
  {
  }

  /** `ls` followed by those of `ns`, in order, that are neither in `inside` nor listed already. */
  function Extended(ls: seq<nat>, ns: seq<nat>, inside: set<nat>): (r: seq<nat>)
    ensures Distinct(ls) ==> Distinct(r)
    ensures forall n :: n in r <==> n in ls || (n in ns && n !in inside)
  {
    if ns == [] then ls
    else
      var r := Extended(ls, ns[..|ns| - 1], inside);
      var last := ns[|ns| - 1];
      if last in inside || last in r then r else r + [last]
  }

  /** `r` is `ls` and then, in their order, those of `ns` that are neither in `inside` nor met before. */
  ghost predicate Appends(ls: seq<nat>, ns: seq<nat>, inside: set<nat>, r: seq<nat>) {
    ls <= r && exists idx: seq<nat> :: Selects(ns, idx, r[|ls|..]) && PicksNew(ls, ns, inside, idx)
  }

  ghost predicate PicksNew(ls: seq<nat>, ns: seq<nat>, inside: set<nat>, idx: seq<nat>) {
    forall k: nat :: k < |ns| ==> (k in idx <==> ns[k] !in inside && ns[k] !in ls && ns[k] !in ns[..k])
  }

  ghost predicate IsExtension(ls: seq<nat>, ns: seq<nat>, inside: set<nat>, r: seq<nat>, idx: seq<nat>) {
    ls <= r && Selects(ns, idx, r[|ls|..]) && PicksNew(ls, ns, inside, idx)
  }

  lemma {:induction false} ExtendedSelects(ls: seq<nat>, ns: seq<nat>, inside: set<nat>) returns (idx: seq<nat>)
    ensures IsExtension(ls, ns, inside, Extended(ls, ns, inside), idx)
    decreases |ns|
  {
    if ns == [] {
      idx := NothingAdded(ls, inside);
    } else {
      var init, last := ns[..|ns| - 1], ns[|ns| - 1];
      var before := ExtendedSelects(ls, init, inside);
      idx := SelectsOneMore(ls, init, last, inside, Extended(ls, init, inside), before);
      assert ns == init + [last];
    }
  }

  lemma NothingAdded(ls: seq<nat>, inside: set<nat>) returns (idx: seq<nat>)
    ensures IsExtension(ls, [], inside, ls, idx)
  {
    idx := [];
    assert ls[|ls|..] == [];
  }

  lemma SelectsOneMore(ls: seq<nat>, init: seq<nat>, last: nat, inside: set<nat>, r: seq<nat>, before: seq<nat>)
      returns (idx: seq<nat>)
    requires forall n :: n in r <==> n in ls || (n in init && n !in inside)
    requires IsExtension(ls, init, inside, r, before)
    ensures IsExtension(ls, init + [last], inside, if last in inside || last in r then r else r + [last], idx)
  {
    var taken := last !in inside && last !in r;
    SelectsMore(init, before, r[|ls|..], last);
    PicksNewMore(ls, init, inside, before, last, taken);
    idx := if taken then before + [|init|] else before;
    assert (r + [last])[|ls|..] == r[|ls|..] + [last];
  }

  lemma ExtendedAppends(ls: seq<nat>, ns: seq<nat>, inside: set<nat>)
    ensures Appends(ls, ns, inside, Extended(ls, ns, inside))
  {
    var idx := ExtendedSelects(ls, ns, inside);
  }

  /** First those of `ms` and then those of `ns`. */
  ghost predicate AppendsBoth(ms: seq<nat>, ns: seq<nat>, inside: set<nat>, r: seq<nat>) {
    exists kept :: Appends([], ms, inside, kept) && Appends(kept, ns, inside, r)
  }

  lemma ExtendedAppendsBoth(ms: seq<nat>, ns: seq<nat>, inside: set<nat>)
    ensures AppendsBoth(ms, ns, inside, Extended(Extended([], ms, inside), ns, inside))
  {
    ExtendedAppends([], ms, inside);
    ExtendedAppends(Extended([], ms, inside), ns, inside);
  }

  lemma PicksNewMore(ls: seq<nat>, ns: seq<nat>, inside: set<nat>, idx: seq<nat>, last: nat, taken: bool)
    requires PicksNew(ls, ns, inside, idx) && (forall a :: 0 <= a < |idx| ==> idx[a] < |ns|)
    requires taken <==> last !in inside && last !in ls && (last in inside || last !in ns)
    ensures PicksNew(ls, ns + [last], inside, if taken then idx + [|ns|] else idx)
  {
    var all := ns + [last];
    assert forall k: nat :: k <= |ns| ==> all[..k] == ns[..k];
    assert ns[..|ns|] == ns;
  }

  function CountIf(s: seq<nat>, p: set<nat>): nat {
    if s == [] then 0 else CountIf(s[..|s| - 1], p) + if s[|s| - 1] in p then 1 else 0
  }

  lemma {:induction false} DistinctSize(s: seq<nat>)
    requires Distinct(s)
    ensures |Elements(s)| == |s|
  {
    if s != [] {
      var init, last := s[..|s| - 1], s[|s| - 1];
      assert s == init + [last];
      DistinctSize(init);
      ElementsAppend(init, last);
      assert last !in Elements(init);
    }
  }

  lemma {:induction false} CountIfIsSize(s: seq<nat>, p: set<nat>)
    requires Distinct(s)
    ensures CountIf(s, p) == |Elements(s) * p|
  {
    if s != [] {
      var init, last := s[..|s| - 1], s[|s| - 1];
      assert s == init + [last];
      CountIfIsSize(init, p);
      ElementsAppend(init, last);
      assert last !in init;
      OneMore(Elements(init), last, p);
    }
  }

  lemma OneMore(a: set<nat>, n: nat, p: set<nat>)
    requires n !in a
    ensures |(a + {n}) * p| == |a * p| + if n in p then 1 else 0
  {
    assert (a + {n}) * p == if n in p then a * p + {n} else a * p;
  }

  /** The number of leaves of the merged cover, known before it is built. */
  lemma MergedCount(leaves: seq<nat>, internals: set<nat>, leaves': seq<nat>, internals': set<nat>, top: nat)
    requires Distinct(leaves) && Distinct(leaves') && top !in leaves && top !in leaves'
    requires Elements(leaves) !! internals && Elements(leaves') !! internals'
    ensures |MergedLeaves(leaves, internals, leaves', internals', top)| ==
            |leaves| + |leaves'| - (CountIf(leaves, Elements(leaves') + internals') + CountIf(leaves', internals))
  {
    CountIfIsSize(leaves, Elements(leaves') + internals');
    CountIfIsSize(leaves', internals);
    DistinctSize(leaves);
    DistinctSize(leaves');
    var a, b := Elements(leaves), Elements(leaves');
    assert MergedLeaves(leaves, internals, leaves', internals', top) ==
           (a - a * (b + internals')) + (b - b * internals);
  }

  lemma UnionCount(leaves: seq<nat>, leaves': seq<nat>)
    requires Distinct(leaves) && Distinct(leaves')
    ensures |Elements(leaves) + Elements(leaves')| == |leaves| + |leaves'| - CountIf(leaves, Elements(leaves'))
  {
    CountIfIsSize(leaves, Elements(leaves'));
    DistinctSize(leaves);
    DistinctSize(leaves');
    var a, b := Elements(leaves), Elements(leaves');
    assert a + b == (a - a * b) + b;
  }

  /** Every internal node but `top` reads only internal nodes and leaves. */
  ghost predicate Enclosed(g: Graph, leaves: set<nat>, internals: set<nat>, top: nat)
    requires g.Valid()
  {
    forall n, i :: n in internals && n != top && n < |g.nodes| && 0 <= i < |g.inputs[n]| ==>
      g.inputs[n][i] in internals + leaves
  }

  lemma MergeKeepsEnclosed(g: Graph, leaves: seq<nat>, internals: set<nat>, leaves': seq<nat>,
      internals': set<nat>, top: nat)
    requires g.Valid() && Enclosed(g, Elements(leaves), internals, top)
    requires Enclosed(g, Elements(leaves'), internals', top)
    ensures Enclosed(g, MergedLeaves(leaves, internals, leaves', internals', top), internals + internals' + {top}, top)
  {
  }

  /** A gate whose internal nodes, itself included, read only internal gates and leaves is cut off. */
  lemma {:induction false} EnclosedIsCutOff(g: Graph, rank: seq<nat>, leaves: seq<nat>, internals: set<nat>, n: nat)
    requires g.Valid() && g.RankedBy(rank) && n < |g.nodes| && n in internals + Elements(leaves)
    requires forall m :: m in internals ==> m < |g.nodes| && g.IsGate(m)
    requires forall m, i :: m in internals && 0 <= i < |g.inputs[m]| ==> g.inputs[m][i] in internals + Elements(leaves)
    ensures CutOff(g, rank, leaves, n)
    decreases rank[n]
  {
    if n !in leaves {
      forall i | 0 <= i < |g.inputs[n]| ensures CutOff(g, rank, leaves, g.inputs[n][i]) {
        EnclosedIsCutOff(g, rank, leaves, internals, g.inputs[n][i]);
      }
    }
  }

  /** The two together: merging at gate `top` covers that enclose all its inputs cuts off `top`. */
  lemma MergedCutsOff(g: Graph, rank: seq<nat>, leaves: seq<nat>, internals: set<nat>, leaves': seq<nat>,
      internals': set<nat>, merged: seq<nat>, top: nat)
    requires g.Valid() && g.RankedBy(rank) && top < |g.nodes| && g.IsGate(top)
    requires Enclosed(g, Elements(leaves), internals, top) && Enclosed(g, Elements(leaves'), internals', top)
    requires forall m :: m in internals + internals' ==> m < |g.nodes| && g.IsGate(m)
    requires forall i :: 0 <= i < |g.inputs[top]| ==>
               g.inputs[top][i] in internals + Elements(leaves) + internals' + Elements(leaves')
    requires Elements(merged) == MergedLeaves(leaves, internals, leaves', internals', top)
    ensures CutOff(g, rank, merged, top)
  {
    MergeKeepsEnclosed(g, leaves, internals, leaves', internals', top);
    EnclosedIsCutOff(g, rank, merged, internals + internals' + {top}, top);
  }

  lemma OneLeafMore(before: seq<nat>, after: seq<nat>, n: nat)
    requires before <= after && Elements(after) == Elements(before) + {n}
    requires |after| == |before| + if n in before then 0 else 1
    ensures after == if n in before then before else before + [n]
  {
    if n !in before {
      assert n in Elements(after);
      assert after == before + [after[|before|]];
    }
  }

  /** A cover as the search for functions keeps it. The permutation and the canonical function are set
      when the cover is entered into the function table. */
  class KCover {
    const root: nat
    var leaves: seq<nat>
    var internals: set<nat>
    var perm: Perm
    var canonical: Fn

    constructor (root: nat)
      ensures this.root == root && leaves == [] && internals == {}
    {
      this.root := root;
      leaves, internals, perm, canonical := [], {}, [], Fn(0, {});
    }

    /** The leaves gain `n` and nothing else, keep their order, and stay without repetition. */
    method AddLeaf(n: nat)
      modifies this`leaves
      ensures old(leaves) <= leaves && Elements(leaves) == Elements(old(leaves)) + {n}
      ensures Distinct(old(leaves)) ==> Distinct(leaves)
      ensures |leaves| == |old(leaves)| + if n in old(leaves) then 0 else 1
    {
      if n !in leaves {
        ElementsAppend(leaves, n);
        leaves := leaves + [n];
      }
    }

    /** The cover of `top` that takes over the leaves of `other` as well, or null if that has more
        than `threshold` leaves. */
    method SimpleMergeInternal(other: KCover, top: nat, threshold: nat) returns (merged: KCover?)
      requires Distinct(leaves) && Distinct(other.leaves) && top !in leaves && top !in other.leaves
      requires Elements(leaves) !! internals && Elements(other.leaves) !! other.internals
      ensures merged == null <==>
                |MergedLeaves(leaves, internals, other.leaves, other.internals, top)| > threshold
      ensures merged != null ==>
                && fresh(merged) && merged.root == root
                && merged.internals == internals + other.internals + {top}
                && Distinct(merged.leaves) && Elements(merged.leaves) !! merged.internals
                && Elements(merged.leaves) == MergedLeaves(leaves, internals, other.leaves, other.internals, top)
                && merged.leaves == Extended(Extended([], leaves, merged.internals), other.leaves, merged.internals)
      ensures merged != null ==> AppendsBoth(leaves, other.leaves, merged.internals, merged.leaves)
    {
      var common := CountCommon(other);
      MergedCount(leaves, internals, other.leaves, other.internals, top);
      if |leaves| + |other.leaves| - common > threshold { return null; }
      merged := BuildMerged(other, top);
      ExtendedAppendsBoth(leaves, other.leaves, merged.internals);
    }

    method BuildMerged(other: KCover, top: nat) returns (merged: KCover)
      ensures fresh(merged) && merged.root == root
      ensures merged.internals == internals + other.internals + {top} && Distinct(merged.leaves)
      ensures Elements(merged.leaves) == MergedLeaves(leaves, internals, other.leaves, other.internals, top)
      ensures merged.leaves == Extended(Extended([], leaves, merged.internals), other.leaves, merged.internals)
    {
      merged := new KCover(root);
      merged.internals := internals + other.internals + {top};
      merged.AddMissing(leaves);
      merged.AddMissing(other.leaves);
    }

    /** The cover that takes over the leaves of `other` as well, or null if that has more than
        `threshold` leaves. */
    method SimpleMerge(other: KCover, threshold: nat) returns (merged: KCover?)
      requires Distinct(leaves) && Distinct(other.leaves)
      ensures merged == null <==> |Elements(leaves) + Elements(other.leaves)| > threshold
      ensures merged != null ==>
                && fresh(merged) && merged.root == root && merged.internals == internals
                && Distinct(merged.leaves) && merged.leaves == Extended(leaves, other.leaves, {})
                && Appends(leaves, other.leaves, {}, merged.leaves)
    {
      var common := CountPresent(other);
      UnionCount(leaves, other.leaves);
      if |leaves| + |other.leaves| - common > threshold { return null; }
      merged := new KCover(root);
      merged.internals, merged.leaves := internals, leaves;
      merged.AddLeaves(other.leaves);
      ExtendedAppends(leaves, other.leaves, {});
    }

    method CountPresent(other: KCover) returns (common: nat)
      ensures common == CountIf(leaves, Elements(other.leaves))
    {
      common := 0;
      for i := 0 to |leaves|
        invariant common == CountIf(leaves[..i], Elements(other.leaves))
      {
        assert leaves[..i + 1][..i] == leaves[..i];
        if leaves[i] in other.leaves { common := common + 1; }
      }
      assert leaves[..|leaves|] == leaves;
    }

    method AddLeaves(ns: seq<nat>)
      modifies this`leaves
      ensures leaves == Extended(old(leaves), ns, {})
    {
      for i := 0 to |ns|
        invariant leaves == Extended(old(leaves), ns[..i], {})
      {
        assert ns[..i + 1][..i] == ns[..i];
        ghost var before := leaves;
        AddLeaf(ns[i]);
        OneLeafMore(before, leaves, ns[i]);
      }
      assert ns[..|ns|] == ns;
    }

    /** How many of the leaves of both covers will be missing from their union. */
    method CountCommon(other: KCover) returns (common: nat)
      requires Elements(leaves) !! internals
      ensures common == CountIf(leaves, Elements(other.leaves) + other.internals) + CountIf(other.leaves, internals)
    {
      common := 0;
      for i := 0 to |leaves|
        invariant common == CountIf(leaves[..i], Elements(other.leaves) + other.internals)
      {
        assert leaves[..i + 1][..i] == leaves[..i];
        if leaves[i] in other.leaves || leaves[i] in other.internals {
          common := common + 1;
        }
      }
      assert leaves[..|leaves|] == leaves;
      ghost var first := common;
      for i := 0 to |other.leaves|
        invariant common == first + CountIf(other.leaves[..i], internals)
      {
        assert other.leaves[..i + 1][..i] == other.leaves[..i];
        if other.leaves[i] in internals {
          assert other.leaves[i] !in Elements(leaves);
          common := common + 1;
        }
      }
      assert other.leaves[..|other.leaves|] == other.leaves;
    }

    /** Adds those of `ns` as leaves that are neither internal nor leaves already. */
    method AddMissing(ns: seq<nat>)
      modifies this`leaves
      ensures leaves == Extended(old(leaves), ns, internals)
    {
      for i := 0 to |ns|
        invariant leaves == Extended(old(leaves), ns[..i], internals)
      {
        assert ns[..i + 1][..i] == ns[..i];
        if ns[i] !in internals {
          ghost var before := leaves;
          AddLeaf(ns[i]);
          OneLeafMore(before, leaves, ns[i]);
        }
      }
      assert ns[..|ns|] == ns;
    }
  }
}
