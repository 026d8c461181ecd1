/** The lists of covers told without the recursion that makes them: one cover is chosen for every input of a
    gate. And what the internals of a cover are, however it was pruned on the way. */
module CoverChoices {
  import opened BoolFunctions
  import opened Netlists
  import opened Sequences
  import opened Covers
  import opened CoverLists

  /** The leaves of the covers `cs`. */
  ghost function LeavesIn(cs: seq<Cut>): (s: set<nat>)
    ensures forall l: nat :: l in s <==> exists j :: 0 <= j < |cs| && l in cs[j].leaves
  {
    set j, l | 0 <= j < |cs| && l in cs[j].leaves :: l
  }

  /** One cover from each list, the first of them never having more than `threshold` leaves together. */
  ghost predicate IsChoice(lists: seq<seq<Cut>>, threshold: nat, cs: seq<Cut>) {
    |cs| == |lists| && IsChoiceOfFirst(lists, threshold, cs)
  }

  ghost predicate IsChoiceOfFirst(lists: seq<seq<Cut>>, threshold: nat, cs: seq<Cut>) {
    && |cs| <= |lists| && (forall j :: 0 <= j < |cs| ==> cs[j] in lists[j])
    && (forall k :: 0 <= k <= |cs| ==> |LeavesIn(cs[..k])| <= threshold)
  }

  ghost predicate SameCuts(ps: seq<Cut>, cs: seq<Cut>) {
    forall p :: p in ps <==> p in cs
  }

  lemma LeavesOneMore(cs: seq<Cut>, c: Cut)
    ensures LeavesIn(cs + [c]) == LeavesIn(cs) + Elements(c.leaves)
  {
    var more := cs + [c];
    forall l: nat ensures l in LeavesIn(more) <==> l in LeavesIn(cs) || l in c.leaves {
      if l in LeavesIn(cs) {
        var j :| 0 <= j < |cs| && l in cs[j].leaves;
        assert more[j] == cs[j];
      }
      if l in c.leaves { assert l in more[|cs|].leaves; }
    }
  }

  lemma ExtendedElements(leaves: seq<nat>, more: seq<nat>)
    ensures Elements(Extended(leaves, more, {})) == Elements(leaves) + Elements(more)
  {
  }

  /** Merging goes along with every choice. */
  lemma {:induction false} ChoiceMerges(lists: seq<seq<Cut>>, threshold: nat, cs: seq<Cut>, pos: nat,
      leaves: seq<nat>, ps: seq<Cut>)
      returns (leaves': seq<nat>, ps': seq<Cut>)
    requires IsChoice(lists, threshold, cs) && pos <= |lists|
    requires Elements(leaves) == LeavesIn(cs[..pos]) && SameCuts(ps, cs[..pos])
    ensures MergesTo(lists, threshold, pos, leaves, ps, leaves', ps')
    ensures Elements(leaves') == LeavesIn(cs) && SameCuts(ps', cs)
    decreases |lists| - pos
  {
    if pos == |lists| {
      assert cs[..pos] == cs;
      leaves', ps' := leaves, ps;
    } else {
      var c := cs[pos];
      assert cs[..pos + 1] == cs[..pos] + [c];
      LeavesOneMore(cs[..pos], c);
      ExtendedElements(leaves, c.leaves);
      leaves', ps' :=
        ChoiceMerges(lists, threshold, cs, pos + 1, Extended(leaves, c.leaves, {}), WithParent(ps, c));
      var i :| 0 <= i < |lists[pos]| && lists[pos][i] == c;
      assert |LeavesIn(cs[..pos + 1])| <= threshold;
      assert MergesVia(lists, threshold, pos, lists[pos][i], leaves, ps, leaves', ps');
    }
  }

  /** And whatever is merged comes from a choice. */
  lemma {:induction false} MergedIsChoice(lists: seq<seq<Cut>>, threshold: nat, first: seq<Cut>, leaves: seq<nat>,
      ps: seq<Cut>, leaves': seq<nat>, ps': seq<Cut>)
      returns (cs: seq<Cut>)
    requires IsChoiceOfFirst(lists, threshold, first)
    requires Elements(leaves) == LeavesIn(first) && SameCuts(ps, first)
    requires MergesTo(lists, threshold, |first|, leaves, ps, leaves', ps')
    ensures IsChoice(lists, threshold, cs) && Elements(leaves') == LeavesIn(cs) && SameCuts(ps', cs)
    decreases |lists| - |first|
  {
    var pos := |first|;
    cs := first;
    if pos < |lists| {
      var i :| 0 <= i < |lists[pos]| && MergesVia(lists, threshold, pos, lists[pos][i], leaves, ps, leaves', ps');
      var c := lists[pos][i];
      LeavesOneMore(first, c);
      ExtendedElements(leaves, c.leaves);
      ChoiceOfOneMore(lists, threshold, first, c);
      cs := MergedIsChoice(lists, threshold, first + [c], Extended(leaves, c.leaves, {}), WithParent(ps, c),
                           leaves', ps');
    }
  }

  lemma ChoiceOfOneMore(lists: seq<seq<Cut>>, threshold: nat, first: seq<Cut>, c: Cut)
    requires IsChoiceOfFirst(lists, threshold, first) && |first| < |lists| && c in lists[|first|]
    requires |LeavesIn(first + [c])| <= threshold
    ensures IsChoiceOfFirst(lists, threshold, first + [c])
  {
    var more := first + [c];
    forall k | 0 <= k <= |more| ensures |LeavesIn(more[..k])| <= threshold {
      if k <= |first| { assert more[..k] == first[..k]; } else { assert more[..k] == more; }
    }
  }

  lemma NothingChosen(lists: seq<seq<Cut>>, threshold: nat)
    ensures LeavesIn([]) == {} && IsChoiceOfFirst(lists, threshold, [])
  {
    var none: seq<Cut> := [];
    assert LeavesIn(none) == {} && none[..0] == none;
  }

  /** Every choice is in the list of the gate, pruned and if small enough, perhaps with its leaves in another
      order. */
  lemma ChoiceIsListed(maker: CoverMaker, m: map<nat, seq<Cut>>, n: nat, cs: seq<Cut>)
      returns (leaves: seq<nat>, ps: seq<Cut>, c: Cut)
    requires maker.Ready() && n in m && maker.ListOk(m, n) && maker.g.IsGate(n)
    requires IsChoice(maker.ListsOf(m, n), maker.threshold, cs)
    ensures Elements(leaves) == LeavesIn(cs) && SameCuts(ps, cs)
    ensures CoversOfInputs(maker.g, maker.rank, n, ps, leaves) && CutOff(maker.g, maker.rank, leaves, n)
    ensures IsPruning(maker.g, maker.rank, n, ps, leaves, c)
    ensures |c.leaves| <= maker.size ==>
              exists i :: 0 <= i < |m[n]| - 1 && Elements(m[n][i].leaves) == Elements(c.leaves)
  {
    NothingChosen(maker.ListsOf(m, n), maker.threshold);
    assert cs[..0] == [];
    leaves, ps := ChoiceMerges(maker.ListsOf(m, n), maker.threshold, cs, 0, [], []);
    var merged := m[n][..|m[n]| - 1];
    assert maker.Handled(n, leaves, ps, merged);
    PrunedMeans(maker.g, maker.rank, n, ps, leaves);
    c := PrunedCut(maker.g, maker.rank, n, ps, leaves);
    if |c.leaves| <= maker.size {
      var i :| 0 <= i < |merged| && Elements(merged[i].leaves) == Elements(c.leaves);
      assert m[n][i] == merged[i];
    }
  }

  /** And every cover in the list but the last, which is the gate itself, is such a choice. */
  lemma ListedIsChoice(maker: CoverMaker, m: map<nat, seq<Cut>>, n: nat, i: nat)
      returns (cs: seq<Cut>, leaves: seq<nat>, ps: seq<Cut>)
    requires maker.Ready() && n in m && maker.ListOk(m, n) && i < |m[n]| - 1
    ensures maker.g.IsGate(n) && IsChoice(maker.ListsOf(m, n), maker.threshold, cs)
    ensures Elements(leaves) == LeavesIn(cs) && SameCuts(ps, cs)
    ensures CoversOfInputs(maker.g, maker.rank, n, ps, leaves) && CutOff(maker.g, maker.rank, leaves, n)
    ensures IsPruning(maker.g, maker.rank, n, ps, leaves, m[n][i]) && |m[n][i].leaves| <= maker.size
    ensures m[n][i] == PrunedCut(maker.g, maker.rank, n, ps, leaves)
  {
    var merged := m[n][..|m[n]| - 1];
    var lists := maker.ListsOf(m, n);
    assert merged[i] == m[n][i] && merged[i] in merged;
    assert maker.ComesFrom(n, lists, 0, [], [], m[n][i]);
    leaves, ps :| MergesTo(lists, maker.threshold, 0, [], [], leaves, ps) && maker.IsMade(n, leaves, ps, m[n][i]);
    NothingChosen(lists, maker.threshold);
    cs := MergedIsChoice(lists, maker.threshold, [], [], [], leaves, ps);
    PrunedMeans(maker.g, maker.rank, n, ps, leaves);
  }

  // ---- what internals are ----

  /** The internals of the cover are exactly the nodes between its root and its leaves. */
  ghost predicate IsExact(g: Graph, rank: seq<nat>, c: Cut)
    requires g.Valid() && g.RankedBy(rank) && IsCut(g, rank, c)
  {
    forall x: nat :: x in Internals(g, rank, c) <==> IsBetween(g, rank, c.leaves, c.root, x)
  }

  ghost predicate GatesHaveInputs(g: Graph)
    requires g.Valid()
  {
    forall n :: 0 <= n < |g.nodes| && g.IsGate(n) ==> g.inputs[n] != []
  }

  /** Then only leaves can cut off a node. */
  lemma {:induction false} CutOffByLeaves(g: Graph, rank: seq<nat>, leaves: seq<nat>, n: nat)
    requires g.Valid() && g.RankedBy(rank) && GatesHaveInputs(g) && n < |g.nodes| && CutOff(g, rank, leaves, n)
    ensures leaves != []
    decreases rank[n]
  {
    if n !in leaves { CutOffByLeaves(g, rank, leaves, g.inputs[n][0]); }
  }

  lemma UnprunedIsExact(g: Graph, rank: seq<nat>, c: Cut)
    requires g.Valid() && g.RankedBy(rank) && GatesHaveInputs(g) && IsCut(g, rank, c) && c.internals == {}
    ensures IsExact(g, rank, c)
  {
    CutOffByLeaves(g, rank, c.leaves, c.root);
    forall x: nat ensures x in Internals(g, rank, c) <==> IsBetween(g, rank, c.leaves, c.root, x) {
      BehindIsBetween(g, rank, c.leaves, c.root, x);
    }
  }

  /** Below a node between root and leaves lie leaves and nodes between. */
  lemma {:induction false} BetweenStep(g: Graph, rank: seq<nat>, leaves: seq<nat>, root: nat, x: nat, i: nat)
    requires g.Valid() && g.RankedBy(rank) && root < |g.nodes| && x < |g.nodes| && g.IsGate(x) && i < |g.inputs[x]|
    requires IsBetween(g, rank, leaves, root, x) && CutOff(g, rank, leaves, root) && g.inputs[x][i] !in leaves
    ensures IsBetween(g, rank, leaves, root, g.inputs[x][i])
    decreases rank[root]
  {
    var y := g.inputs[x][i];
    if x == root {
      assert CutOff(g, rank, leaves, y);
      assert IsBetween(g, rank, leaves, y, y);
    } else {
      var j :| 0 <= j < |g.inputs[root]| && IsBetween(g, rank, leaves, g.inputs[root][j], x);
      BetweenStep(g, rank, leaves, g.inputs[root][j], x, i);
    }
  }

  lemma {:induction false} BetweenIsGate(g: Graph, rank: seq<nat>, leaves: seq<nat>, root: nat, x: nat)
    requires g.Valid() && g.RankedBy(rank) && root < |g.nodes| && IsBetween(g, rank, leaves, root, x)
    ensures x < |g.nodes| && g.IsGate(x) && x !in leaves
    decreases rank[root]
  {
    if x != root {
      var j :| 0 <= j < |g.inputs[root]| && IsBetween(g, rank, leaves, g.inputs[root][j], x);
      BetweenIsGate(g, rank, leaves, g.inputs[root][j], x);
    }
  }

  /** From a node `y` between root and leaves of `p`: what lies between `y` and the leaves of `p` lies between `y`
      and `kept`, if none of the inner nodes of `p` is kept. */
  lemma {:induction false} InnerStaysBetween(g: Graph, rank: seq<nat>, p: Cut, kept: seq<nat>, y: nat, x: nat)
    requires g.Valid() && g.RankedBy(rank) && IsCut(g, rank, p) && y < |g.nodes|
    requires forall z: nat :: IsBetween(g, rank, p.leaves, p.root, z) ==> z !in kept
    requires IsBetween(g, rank, p.leaves, p.root, y) && IsBetween(g, rank, p.leaves, y, x)
    ensures IsBetween(g, rank, kept, y, x)
    decreases rank[y]
  {
    if x != y {
      var i :| 0 <= i < |g.inputs[y]| && IsBetween(g, rank, p.leaves, g.inputs[y][i], x);
      BetweenStep(g, rank, p.leaves, p.root, y, i);
      InnerStaysBetween(g, rank, p, kept, g.inputs[y][i], x);
    }
  }

  /** `y` is the root of `p`, between it and the leaves, or a leaf. */
  ghost predicate IsWithin(g: Graph, rank: seq<nat>, p: Cut, y: nat)
    requires g.Valid() && g.RankedBy(rank) && IsCut(g, rank, p)
  {
    y == p.root || y in p.leaves || IsBetween(g, rank, p.leaves, p.root, y)
  }

  ghost predicate AllExact(g: Graph, rank: seq<nat>, ps: seq<Cut>)
    requires g.Valid() && g.RankedBy(rank) && forall p :: p in ps ==> IsCut(g, rank, p)
  {
    forall p :: p in ps ==> IsExact(g, rank, p)
  }

  /** Going down from a node within one of the covers without meeting a kept leaf, only inner nodes of the
      covers are met: a leaf that is not kept is an inner node of another cover. */
  lemma {:induction false} BetweenIsInner(
      g: Graph, rank: seq<nat>, ps: seq<Cut>, kept: seq<nat>, p: Cut, y: nat, x: nat)
    requires g.Valid() && g.RankedBy(rank) && (forall p :: p in ps ==> IsCut(g, rank, p)) && AllExact(g, rank, ps)
    requires KeepsEnough(g, rank, ps, kept) && p in ps && y < |g.nodes| && IsWithin(g, rank, p, y)
    requires IsBetween(g, rank, kept, y, x)
    ensures IsSomeInternal(g, rank, ps, x)
    decreases rank[y]
  {
    var q := p;
    if y in p.leaves {
      assert IsSomeInternal(g, rank, ps, y);
      q :| q in ps && y in Internals(g, rank, q);
    } else if y == p.root {
      assert IsBetween(g, rank, p.leaves, y, y);
    }
    assert IsExact(g, rank, q) && IsBetween(g, rank, q.leaves, q.root, y);
    if x != y {
      var i :| 0 <= i < |g.inputs[y]| && IsBetween(g, rank, kept, g.inputs[y][i], x);
      if g.inputs[y][i] !in q.leaves { BetweenStep(g, rank, q.leaves, q.root, y, i); }
      BetweenIsInner(g, rank, ps, kept, q, g.inputs[y][i], x);
    } else {
      assert y in Internals(g, rank, q);
    }
  }

  /** So a cover pruned after merging exact ones is exact. */
  lemma PrunedIsExact(g: Graph, rank: seq<nat>, n: nat, ps: seq<Cut>, leaves: seq<nat>, c: Cut)
    requires g.Valid() && g.RankedBy(rank) && CoversOfInputs(g, rank, n, ps, leaves) && AllExact(g, rank, ps)
    requires c == PrunedCut(g, rank, n, ps, leaves) && IsCut(g, rank, c) && c.root == n && c.internals != {}
    ensures IsExact(g, rank, c)
  {
    MergedCutOff(g, rank, n, ps, leaves);
    forall x: nat ensures x in c.internals <==> IsBetween(g, rank, c.leaves, n, x) {
      if IsSomeInternal(g, rank, ps, x) { InnerIsBetween(g, rank, n, ps, c, x); }
      if IsBetween(g, rank, c.leaves, n, x) && x != n {
        var i :| 0 <= i < |g.inputs[n]| && IsBetween(g, rank, c.leaves, g.inputs[n][i], x);
        BetweenBelowRoot(g, rank, n, ps, leaves, c, i, x);
      }
      if x == n { PrunedRootIsBetween(g, rank, n, ps, leaves, c); }
    }
  }

  lemma PrunedRootIsBetween(g: Graph, rank: seq<nat>, n: nat, ps: seq<Cut>, leaves: seq<nat>, c: Cut)
    requires g.Valid() && g.RankedBy(rank) && CoversOfInputs(g, rank, n, ps, leaves)
    requires c == PrunedCut(g, rank, n, ps, leaves) && c.internals != {}
    ensures n in c.internals && IsBetween(g, rank, c.leaves, n, n)
  {
    PrunedIsCut(g, rank, n, ps, leaves);
  }

  lemma InnerIsBetween(g: Graph, rank: seq<nat>, n: nat, ps: seq<Cut>, c: Cut, x: nat)
    requires g.Valid() && g.RankedBy(rank) && n < |g.nodes| && g.IsGate(n) && OneEach(g, rank, ps, n)
    requires AllExact(g, rank, ps) && IsSomeInternal(g, rank, ps, x) && n !in c.leaves
    requires forall z: nat :: IsSomeInternal(g, rank, ps, z) ==> z !in c.leaves
    ensures IsBetween(g, rank, c.leaves, n, x)
  {
    var p :| p in ps && x in Internals(g, rank, p);
    assert IsExact(g, rank, p);
    forall z: nat | IsBetween(g, rank, p.leaves, p.root, z) ensures z !in c.leaves {
      assert z in Internals(g, rank, p);
    }
    assert IsBetween(g, rank, p.leaves, p.root, p.root);
    InnerStaysBetween(g, rank, p, c.leaves, p.root, x);
    var i :| 0 <= i < |g.inputs[n]| && g.inputs[n][i] == p.root;
  }

  lemma BetweenBelowRoot(g: Graph, rank: seq<nat>, n: nat, ps: seq<Cut>, leaves: seq<nat>, c: Cut, i: nat, x: nat)
    requires g.Valid() && g.RankedBy(rank) && CoversOfInputs(g, rank, n, ps, leaves) && AllExact(g, rank, ps)
    requires c == PrunedCut(g, rank, n, ps, leaves) && c.internals != {}
    requires i < |g.inputs[n]| && IsBetween(g, rank, c.leaves, g.inputs[n][i], x)
    ensures IsSomeInternal(g, rank, ps, x)
  {
    assert HasCoverOf(ps, g.inputs[n][i]);
    var p :| p in ps && p.root == g.inputs[n][i];
    forall p, l | p in ps && l in p.leaves ensures l in c.leaves || IsSomeInternal(g, rank, ps, l) {
      assert IsLeafOf(ps, l);
    }
    BetweenIsInner(g, rank, ps, c.leaves, p, p.root, x);
  }

  /** In a netlist whose gates all have inputs, the internals of every listed cover, pruned or not, are exactly
      the nodes between its root and its leaves. */
  lemma {:induction false} ListedIsExact(maker: CoverMaker, m: map<nat, seq<Cut>>, n: nat, i: nat)
    requires maker.Ready() && maker.EntriesOk(m) && n in m && i < |m[n]| && GatesHaveInputs(maker.g)
    ensures n < |maker.g.nodes| && IsCut(maker.g, maker.rank, m[n][i]) && m[n][i].root == n
    ensures IsExact(maker.g, maker.rank, m[n][i])
    decreases if n < |maker.rank| then maker.rank[n] else 0, 2
  {
    var g, rank := maker.g, maker.rank;
    assert maker.ListOk(m, n);
    maker.EntryIsCuts(m, n);
    assert m[n][i] in m[n];
    if m[n][i].internals == {} {
      UnprunedIsExact(g, rank, m[n][i]);
    } else {
      ChosenAreExact(maker, m, n, i);
    }
  }

  lemma {:induction false} ChosenIsExact(maker: CoverMaker, m: map<nat, seq<Cut>>, n: nat, j: nat, p: Cut)
    requires maker.Ready() && maker.EntriesOk(m) && GatesHaveInputs(maker.g)
    requires n < |maker.g.nodes| && maker.g.IsGate(n) && j < |maker.kInputs[n]|
    requires maker.kInputs[n][j] in m && p in m[maker.kInputs[n][j]]
    ensures IsCut(maker.g, maker.rank, p) && IsExact(maker.g, maker.rank, p)
    decreases if n < |maker.rank| then maker.rank[n] else 0, 0
  {
    var y := maker.kInputs[n][j];
    assert y in maker.kInputs[n] && y in maker.g.inputs[n];
    var k :| 0 <= k < |m[y]| && m[y][k] == p;
    ListedIsExact(maker, m, y, k);
  }

  lemma {:induction false} ChosenAreExact(maker: CoverMaker, m: map<nat, seq<Cut>>, n: nat, i: nat)
    requires maker.Ready() && maker.EntriesOk(m) && n in m && i < |m[n]| && GatesHaveInputs(maker.g)
    requires n < |maker.g.nodes| && IsCut(maker.g, maker.rank, m[n][i]) && m[n][i].root == n && m[n][i].internals != {}
    ensures IsExact(maker.g, maker.rank, m[n][i])
    decreases if n < |maker.rank| then maker.rank[n] else 0, 1
  {
    assert maker.ListOk(m, n);
    var cs, leaves, ps := ListedIsChoice(maker, m, n, i);
    var lists := maker.ListsOf(m, n);
    forall p | p in ps ensures IsCut(maker.g, maker.rank, p) && IsExact(maker.g, maker.rank, p) {
      var j :| 0 <= j < |cs| && cs[j] == p;
      assert cs[j] in lists[j];
      ChosenIsExact(maker, m, n, j, p);
    }
    PrunedIsExact(maker.g, maker.rank, n, ps, leaves, m[n][i]);
  }
}
