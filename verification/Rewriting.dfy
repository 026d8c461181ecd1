/** Clean-up of a freshly read netlist: inverters with the same input are merged, buffers and
    double inverters are bypassed, and gates nobody reads any more are marked dead. */
module Rewriting {
  import opened BoolFunctions
  import opened Netlists
  import opened Sequences

  // ---- redirecting the readers of one node to another ----

  /** `ids` with every occurrence of `oldn` replaced. */
  function Subst(ids: seq<nat>, oldn: nat, newn: nat): (r: seq<nat>)
    ensures |r| == |ids|
    ensures oldn !in ids ==> r == ids
  {
    seq(|ids|, i requires 0 <= i < |ids| => if ids[i] == oldn then newn else ids[i])
  }

  function Redirect(inputs: seq<seq<nat>>, oldn: nat, newn: nat): (r: seq<seq<nat>>)
    ensures |r| == |inputs|
  {
    seq(|inputs|, m requires 0 <= m < |inputs| => Subst(inputs[m], oldn, newn))
  }

  /** The graph in which the readers of `oldn` read `newn` instead. */
  function Rewired(g: Graph, oldn: nat, newn: nat): (h: Graph)
    ensures h.nodes == g.nodes && h.inputs == Redirect(g.inputs, oldn, newn)
    ensures g.Valid() && newn < |g.nodes| ==> h.Valid()
  {
    g.(inputs := Redirect(g.inputs, oldn, newn))
  }

  /** Whether `v` is a solution does not depend on which of two nodes of equal value is read. */
  lemma RedirectKeepsSolution(g: Graph, oldn: nat, newn: nat, env: Bits, v: Bits)
    requires g.Valid() && oldn < |g.nodes| && newn < |g.nodes| && |env| == |v| == |g.nodes|
    requires v[oldn] == v[newn]
    ensures Solves(Rewired(g, oldn, newn), env, v) <==> Solves(g, env, v)
  {
    var h := Rewired(g, oldn, newn);
    forall n | 0 <= n < |g.nodes| ensures NodeValue(h, env, v, n) == NodeValue(g, env, v, n) {
      assert Pick(v, h.inputs[n]) == Pick(v, g.inputs[n]);
    }
  }

  /** A ranking survives redirecting to a node of no higher rank. */
  lemma RedirectKeepsRank(g: Graph, rank: seq<nat>, oldn: nat, newn: nat)
    requires g.Valid() && g.RankedBy(rank) && oldn < |g.nodes| && newn < |g.nodes|
    requires rank[newn] <= rank[oldn]
    ensures Rewired(g, oldn, newn).RankedBy(rank)
  {
  }

  // ---- fanouts as the inverse of inputs ----

  function AddFanout(s: seq<nat>, n: nat): seq<nat> {
    if n in s then s else s + [n]
  }

  function AddFanouts(s: seq<nat>, ns: seq<nat>): (r: seq<nat>)
    ensures forall m :: m in r <==> m in s || m in ns
    ensures Distinct(s) ==> Distinct(r)
    decreases |ns|
  {
    if ns == [] then s
    else
      assert ns == ns[..|ns| - 1] + [ns[|ns| - 1]];
      AddFanout(AddFanouts(s, ns[..|ns| - 1]), ns[|ns| - 1])
  }

  /** Node `m` is listed once among the fanouts of `n` exactly when it reads `n`. */
  predicate Reads(inputs: seq<seq<nat>>, m: nat, n: nat) {
    m < |inputs| && n in inputs[m]
  }

  ghost predicate AreFanouts(inputs: seq<seq<nat>>, fanouts: seq<seq<nat>>) {
    && |fanouts| == |inputs|
    && (forall n :: 0 <= n < |fanouts| ==> Distinct(fanouts[n]))
    && (forall n: nat, m: nat :: n < |fanouts| ==> (m in fanouts[n] <==> Reads(inputs, m, n)))
  }

  /** All readers of `oldn` become readers of `newn`. */
  function MoveFanouts(fanouts: seq<seq<nat>>, oldn: nat, newn: nat): seq<seq<nat>>
    requires oldn < |fanouts| && newn < |fanouts|
  {
    fanouts[newn := AddFanouts(fanouts[newn], fanouts[oldn])][oldn := []]
  }

  function RedirectReaders(inputs: seq<seq<nat>>, readers: seq<nat>, oldn: nat, newn: nat): (r: seq<seq<nat>>)
    ensures |r| == |inputs|
    decreases |readers|
  {
    if readers == [] then inputs
    else
      var m := readers[|readers| - 1];
      var r := RedirectReaders(inputs, readers[..|readers| - 1], oldn, newn);
      if m < |inputs| then r[m := Subst(r[m], oldn, newn)] else r
  }

  lemma {:induction false} RedirectReadersAt(inputs: seq<seq<nat>>, readers: seq<nat>, oldn: nat, newn: nat, m: nat)
    requires m < |inputs| && Distinct(readers)
    ensures RedirectReaders(inputs, readers, oldn, newn)[m] ==
            if m in readers then Subst(inputs[m], oldn, newn) else inputs[m]
    decreases |readers|
  {
    if readers != [] {
      RedirectReadersAt(inputs, readers[..|readers| - 1], oldn, newn, m);
    }
  }

  lemma RedirectReadersIsRedirect(inputs: seq<seq<nat>>, fanouts: seq<seq<nat>>, oldn: nat, newn: nat)
    requires AreFanouts(inputs, fanouts) && oldn < |inputs|
    ensures RedirectReaders(inputs, fanouts[oldn], oldn, newn) == Redirect(inputs, oldn, newn)
    ensures fanouts[oldn] == [] ==> Redirect(inputs, oldn, newn) == inputs
  {
    assert Distinct(fanouts[oldn]);
    var r := RedirectReaders(inputs, fanouts[oldn], oldn, newn);
    forall m: nat | m < |inputs| ensures r[m] == Redirect(inputs, oldn, newn)[m] {
      RedirectReadersAt(inputs, fanouts[oldn], oldn, newn, m);
      assert m in fanouts[oldn] <==> Reads(inputs, m, oldn);
    }
  }

  lemma RedirectKeepsInverse(inputs: seq<seq<nat>>, fanouts: seq<seq<nat>>, oldn: nat, newn: nat)
    requires AreFanouts(inputs, fanouts) && oldn < |inputs| && newn < |inputs| && oldn != newn
    ensures AreFanouts(Redirect(inputs, oldn, newn),
                    MoveFanouts(fanouts, oldn, newn))
  {
    var after := Redirect(inputs, oldn, newn);
    var fanAfter := MoveFanouts(fanouts, oldn, newn);
    forall n | 0 <= n < |inputs| ensures Distinct(fanAfter[n]) {
      assert Distinct(fanouts[n]) && Distinct(fanouts[newn]);
    }
    forall n: nat, m: nat | n < |inputs|
      ensures m in fanAfter[n] <==> Reads(after, m, n)
    {
      assert m in fanouts[newn] <==> Reads(inputs, m, newn);
      assert m in fanouts[oldn] <==> Reads(inputs, m, oldn);
      assert m in fanouts[n] <==> Reads(inputs, m, n);
      if m < |inputs| {
        SubstMembers(inputs[m], oldn, newn, n);
      }
    }
  }

  lemma SubstMembers(ids: seq<nat>, oldn: nat, newn: nat, n: nat)
    requires oldn != newn
    ensures n in Subst(ids, oldn, newn) <==>
            if n == oldn then false else if n == newn then newn in ids || oldn in ids else n in ids
  {
    var r := Subst(ids, oldn, newn);
    if n in ids {
      var i :| 0 <= i < |ids| && ids[i] == n;
      assert r[i] == if n == oldn then newn else n;
    }
    if oldn in ids {
      var i :| 0 <= i < |ids| && ids[i] == oldn;
      assert r[i] == newn;
    }
  }

  /** The gate in front of a latch is read by that latch. */
  ghost predicate LatchGatesFeedLatches(g: Graph)
    requires g.Valid()
  {
    forall n: nat :: n < |g.nodes| && g.nodes[n].latchGate ==>
      exists m: nat :: Reads(g.inputs, m, n) && g.nodes[m].kind.LatchNode?
  }

  lemma RedirectKeepsLatchGates(g: Graph, oldn: nat, newn: nat)
    requires g.Valid() && LatchGatesFeedLatches(g) && oldn < |g.nodes| && newn < |g.nodes|
    requires oldn != newn && !g.nodes[oldn].latchGate
    ensures var h := Rewired(g, oldn, newn); h.Valid() && LatchGatesFeedLatches(h)
  {
    var h := Rewired(g, oldn, newn);
    forall n: nat | n < |g.nodes| && g.nodes[n].latchGate
      ensures exists m: nat :: Reads(h.inputs, m, n) && h.nodes[m].kind.LatchNode?
    {
      var m: nat :| Reads(g.inputs, m, n) && g.nodes[m].kind.LatchNode?;
      SubstMembers(g.inputs[m], oldn, newn, n);
      assert Reads(h.inputs, m, n);
    }
  }

  // ---- what is preserved, and which gates can be bypassed ----

  /** The same nodes, and every node the same Boolean function of the outside values. */
  ghost predicate SameMeaning(g: Graph, h: Graph) {
    && g.Valid() && h.Valid() && g.Acyclic() && h.Acyclic() && g.nodes == h.nodes
    && forall env :: |env| == |g.nodes| ==> Values(g, env) == Values(h, env)
  }

  /** The same nodes, and the same solutions for all outside values: none, one or, with loops, several. */
  ghost predicate SameSolutions(g: Graph, h: Graph) {
    && g.Valid() && h.Valid() && g.nodes == h.nodes
    && forall env, v :: |env| == |g.nodes| ==> (Solves(g, env, v) <==> Solves(h, env, v))
  }

  lemma SameSolutionsTransitive(g: Graph, h: Graph, k: Graph)
    requires SameSolutions(g, h) && SameSolutions(h, k)
    ensures SameSolutions(g, k)
  {
    forall env: Bits, v: Bits | |env| == |g.nodes| ensures Solves(g, env, v) <==> Solves(k, env, v) {
      assert Solves(g, env, v) <==> Solves(h, env, v);
    }
  }

  /** Without loops the solution is the meaning. */
  lemma SameSolutionsIsSameMeaning(g: Graph, h: Graph)
    requires SameSolutions(g, h) && g.Acyclic()
    ensures SameMeaning(g, h) <==> h.Acyclic()
  {
    if h.Acyclic() {
      forall env: Bits | |env| == |g.nodes| ensures Values(g, env) == Values(h, env) {
        assert Solves(g, env, Values(g, env));
        SolutionIsValues(h, env, Values(g, env));
      }
    }
  }

  /** Gates of ordinary logic; the gate in front of a latch is left alone. */
  predicate IsLogic(nodes: seq<Node>, n: nat)
    requires n < |nodes|
  {
    nodes[n].kind.GateNode? && !nodes[n].latchGate
  }

  predicate InverterGate(nodes: seq<Node>, n: nat)
    requires n < |nodes|
  {
    IsLogic(nodes, n) && nodes[n].cell.isInverter
  }

  /** A buffer, or an inverter driven by an inverter. */
  predicate Bypassable(g: Graph, n: nat)
    requires g.Valid() && n < |g.nodes|
  {
    IsLogic(g.nodes, n) &&
    (g.nodes[n].cell.isBuffer ||
     (g.nodes[n].cell.isInverter &&
      var inv := g.inputs[n][0]; g.IsGate(inv) && g.nodes[inv].cell.isInverter))
  }

  function Source(g: Graph, n: nat): (s: nat)
    requires g.Valid() && n < |g.nodes| && Bypassable(g, n)
    ensures s < |g.nodes|
  {
    if g.nodes[n].cell.isBuffer then g.inputs[n][0] else g.inputs[g.inputs[n][0]][0]
  }

  /** If the gate could be bypassed, nobody reads it any more; a gate that is its own source, which takes a
      loop, stays. */
  ghost predicate Bypassed(g: Graph, fanouts: seq<seq<nat>>, n: nat)
    requires g.Valid() && n < |g.nodes| && |fanouts| == |g.nodes|
  {
    Bypassable(g, n) ==> fanouts[n] == [] || Source(g, n) == n
  }

  lemma SourceIsLower(g: Graph, rank: seq<nat>, n: nat)
    requires g.Valid() && g.RankedBy(rank) && n < |g.nodes| && Bypassable(g, n)
    ensures rank[Source(g, n)] < rank[n]
  {
  }

  /** So without loops nothing is its own source, and no bypassed gate is read. */
  lemma OwnSourceIsLoop(g: Graph, n: nat)
    requires g.Valid() && n < |g.nodes| && Bypassable(g, n) && Source(g, n) == n
    ensures !g.Acyclic()
  {
    if rank :| g.RankedBy(rank) { SourceIsLower(g, rank, n); }
  }

  lemma SourceHasSameValue(g: Graph, env: Bits, v: Bits, n: nat)
    requires g.Valid() && |env| == |g.nodes| && Solves(g, env, v) && n < |g.nodes| && Bypassable(g, n)
    ensures v[n] == v[Source(g, n)]
  {
    BufferAndInverterValues(g, env, v, n);
    if !g.nodes[n].cell.isBuffer { BufferAndInverterValues(g, env, v, g.inputs[n][0]); }
  }

  /** A bypassed gate still has the same source, so the solutions are the same before and after. */
  lemma BypassKeepsSolutions(g: Graph, n: nat)
    requires g.Valid() && n < |g.nodes| && Bypassable(g, n)
    ensures SameSolutions(g, Rewired(g, n, Source(g, n)))
  {
    var s := Source(g, n);
    var h := Rewired(g, n, s);
    if s != n {
      assert Bypassable(h, n) && Source(h, n) == s by { SourceStays(g, n); }
    }
    forall env: Bits, v: Bits | |env| == |g.nodes| && (Solves(g, env, v) || Solves(h, env, v))
      ensures Solves(g, env, v) <==> Solves(h, env, v)
    {
      if s != n && Solves(h, env, v) { SourceHasSameValue(h, env, v, n); }
      if Solves(g, env, v) { SourceHasSameValue(g, env, v, n); }
      RedirectKeepsSolution(g, n, s, env, v);
    }
  }

  lemma SourceStays(g: Graph, n: nat)
    requires g.Valid() && n < |g.nodes| && Bypassable(g, n) && Source(g, n) != n
    ensures var h := Rewired(g, n, Source(g, n)); h.Valid() && Bypassable(h, n) && Source(h, n) == Source(g, n)
  {
    var h := Rewired(g, n, Source(g, n));
    assert g.inputs[n][0] != n;
    assert h.inputs[n][0] == g.inputs[n][0];
  }

  /** The nodes that somebody reads. */
  ghost function ReadNodes(fanouts: seq<seq<nat>>): set<nat> {
    set n: nat | n < |fanouts| && fanouts[n] != []
  }

  /** Moving fanouts to a node that has some already leaves one read node less. */
  lemma MoveLosesReadNode(fanouts: seq<seq<nat>>, oldn: nat, newn: nat)
    requires oldn < |fanouts| && newn < |fanouts| && oldn != newn && fanouts[oldn] != [] && fanouts[newn] != []
    ensures ReadNodes(MoveFanouts(fanouts, oldn, newn)) == ReadNodes(fanouts) - {oldn}
    ensures oldn in ReadNodes(fanouts)
  {
    var after := AddFanouts(fanouts[newn], fanouts[oldn]);
    assert fanouts[newn][0] in after;
  }

  /** The source of a bypassable gate is read: by the gate, or by the inverter before it. */
  lemma SourceIsRead(g: Graph, fanouts: seq<seq<nat>>, n: nat)
    requires g.Valid() && AreFanouts(g.inputs, fanouts) && n < |g.nodes| && Bypassable(g, n)
    ensures fanouts[Source(g, n)] != []
  {
    var reader := if g.nodes[n].cell.isBuffer then n else g.inputs[n][0];
    assert Reads(g.inputs, reader, Source(g, n));
    assert reader in fanouts[Source(g, n)];
  }

  /** Nobody reads a buffer that reads another node, or an inverter of an inverter of another node, unless it
      is the gate in front of a latch. */
  ghost predicate NoBypassableIsRead(g: Graph)
    requires g.Valid()
  {
    forall m: nat, n: nat ::
      m < |g.nodes| && n in g.inputs[m] && g.nodes[n].kind.GateNode? && !g.nodes[n].latchGate ==>
        && !(g.nodes[n].cell.isBuffer && g.inputs[n][0] != n)
        && !(g.nodes[n].cell.isInverter &&
             var k := g.inputs[n][0];
             g.nodes[k].kind.GateNode? && g.nodes[k].cell.isInverter && g.inputs[k][0] != n)
  }

  lemma BypassedIsUnread(g: Graph, fanouts: seq<seq<nat>>)
    requires g.Valid() && AreFanouts(g.inputs, fanouts) && forall n :: 0 <= n < |g.nodes| ==> Bypassed(g, fanouts, n)
    ensures NoBypassableIsRead(g)
  {
    forall m: nat, n: nat | m < |g.nodes| && n in g.inputs[m] && IsLogic(g.nodes, n)
      ensures !(g.nodes[n].cell.isBuffer && g.inputs[n][0] != n)
      ensures !(g.nodes[n].cell.isInverter &&
                var k := g.inputs[n][0];
                g.nodes[k].kind.GateNode? && g.nodes[k].cell.isInverter && g.inputs[k][0] != n)
    {
      assert Reads(g.inputs, m, n) && Bypassed(g, fanouts, n);
      assert m in fanouts[n];
      if g.nodes[n].cell.isInverter { InvertersAreNoBuffers(g, n); }
    }
  }

  /** Whoever reads the gate in front of a latch still does. */
  ghost predicate KeepsLatchReads(g: Graph, h: Graph)
    requires g.Valid()
  {
    |h.inputs| == |g.inputs| && forall m: nat :: m < |g.inputs| ==> KeepsLatchReadsAt(g, h, m)
  }

  ghost predicate KeepsLatchReadsAt(g: Graph, h: Graph, m: nat)
    requires g.Valid() && m < |g.inputs| == |h.inputs|
  {
    && |h.inputs[m]| == |g.inputs[m]|
    && forall i :: 0 <= i < |g.inputs[m]| && g.nodes[g.inputs[m][i]].latchGate ==> h.inputs[m][i] == g.inputs[m][i]
  }

  lemma RedirectKeepsLatchReads(g: Graph, h: Graph, oldn: nat, newn: nat)
    requires g.Valid() && h.nodes == g.nodes && KeepsLatchReads(g, h) && oldn < |g.nodes| && !g.nodes[oldn].latchGate
    ensures KeepsLatchReads(g, Rewired(h, oldn, newn))
  {
    forall m: nat | m < |g.inputs| ensures KeepsLatchReadsAt(g, Rewired(h, oldn, newn), m) {
      assert KeepsLatchReadsAt(g, h, m);
    }
  }

  // ---- how far a read may move ----

  predicate SkipStep(g: Graph, p: seq<nat>, k: nat)
    requires k + 1 < |p|
  {
    && p[k] < |g.nodes| == |g.inputs| && g.IsGate(p[k]) && g.inputs[p[k]] != []
    && (g.nodes[p[k]].cell.isBuffer || g.nodes[p[k]].cell.isInverter) && p[k + 1] == g.inputs[p[k]][0]
  }

  /** `p` goes from gate to first input, through buffers and inverters only. */
  ghost predicate IsSkip(g: Graph, p: seq<nat>) {
    |p| > 0 && forall k :: 0 <= k < |p| - 1 ==> SkipStep(g, p, k)
  }

  lemma SkipPrefix(g: Graph, p: seq<nat>)
    requires IsSkip(g, p) && |p| > 1
    ensures IsSkip(g, p[..|p| - 1])
  {
    var q := p[..|p| - 1];
    forall k | 0 <= k < |q| - 1 ensures SkipStep(g, q, k) { assert SkipStep(g, p, k); }
  }

  /** Whether a value that is passed along `p` arrives complemented. */
  ghost function Flips(g: Graph, p: seq<nat>): bool
    requires IsSkip(g, p)
  {
    if |p| == 1 then false
    else
      SkipPrefix(g, p);
      assert SkipStep(g, p, |p| - 2);
      Flips(g, p[..|p| - 1]) != !g.nodes[p[|p| - 2]].cell.isBuffer
  }

  ghost predicate Leads(g: Graph, x: nat, y: nat, odd: bool) {
    exists p :: IsSkip(g, p) && p[0] == x && p[|p| - 1] == y && Flips(g, p) == odd
  }

  lemma LeadsToSelf(g: Graph, x: nat)
    ensures Leads(g, x, x, false)
  {
    assert IsSkip(g, [x]) && !Flips(g, [x]);
  }

  lemma LeadsToInput(g: Graph, x: nat, y: nat, odd: bool)
    requires g.Valid() && Leads(g, x, y, odd) && y < |g.nodes| && g.IsGate(y)
    requires g.nodes[y].cell.isBuffer || g.nodes[y].cell.isInverter
    ensures g.inputs[y] != [] && Leads(g, x, g.inputs[y][0], odd != !g.nodes[y].cell.isBuffer)
  {
    var p :| IsSkip(g, p) && p[0] == x && p[|p| - 1] == y && Flips(g, p) == odd;
    var q := p + [g.inputs[y][0]];
    assert q[..|p|] == p;
    forall k | 0 <= k < |q| - 1 ensures SkipStep(g, q, k) {
      if k < |p| - 1 { assert SkipStep(g, p, k); }
    }
    assert IsSkip(g, q) && q[|q| - 2] == y;
  }

  lemma {:induction false} LeadsOnAlong(g: Graph, x: nat, y: nat, odd: bool, p: seq<nat>)
    requires g.Valid() && Leads(g, x, y, odd) && IsSkip(g, p) && p[0] == y
    ensures Leads(g, x, p[|p| - 1], odd != Flips(g, p))
    decreases |p|
  {
    if |p| > 1 {
      var q := p[..|p| - 1];
      SkipPrefix(g, p);
      LeadsOnAlong(g, x, y, odd, q);
      assert SkipStep(g, p, |p| - 2);
      LeadsToInput(g, x, p[|p| - 2], odd != Flips(g, q));
    }
  }

  lemma LeadsOn(g: Graph, x: nat, y: nat, z: nat, a: bool, b: bool)
    requires g.Valid() && Leads(g, x, y, a) && Leads(g, y, z, b)
    ensures Leads(g, x, z, a != b)
  {
    var p :| IsSkip(g, p) && p[0] == y && p[|p| - 1] == z && Flips(g, p) == b;
    LeadsOnAlong(g, x, y, a, p);
  }

  /** So it does not matter what is skipped: the value at the end is the value at the start, complemented
      as often as the way passes an inverter. */
  lemma {:induction false} SkipKeepsValue(g: Graph, env: Bits, v: Bits, p: seq<nat>)
    requires g.Valid() && |env| == |g.nodes| && Solves(g, env, v) && IsSkip(g, p) && p[0] < |g.nodes|
    ensures p[|p| - 1] < |g.nodes| && v[p[0]] == (v[p[|p| - 1]] != Flips(g, p))
    decreases |p|
  {
    if |p| > 1 {
      SkipPrefix(g, p);
      SkipKeepsValue(g, env, v, p[..|p| - 1]);
      assert SkipStep(g, p, |p| - 2);
      BufferAndInverterValues(g, env, v, p[|p| - 2]);
    }
  }

  /** Every input of `h` is the one of `g` or lies behind it across buffers and an even number of
      inverters. */
  ghost predicate SkipsOnly(g: Graph, h: Graph)
    requires g.Valid() && h.Valid()
  {
    g.nodes == h.nodes && forall m :: 0 <= m < |g.inputs| ==> SkipsOnlyAt(g, h, m)
  }

  ghost predicate SkipsOnlyAt(g: Graph, h: Graph, m: nat)
    requires g.Valid() && h.Valid() && g.nodes == h.nodes && m < |g.inputs|
  {
    && |h.inputs[m]| == |g.inputs[m]|
    && forall i :: 0 <= i < |g.inputs[m]| ==> Leads(g, g.inputs[m][i], h.inputs[m][i], false)
  }

  lemma SkipsNothing(g: Graph)
    requires g.Valid()
    ensures SkipsOnly(g, g)
  {
    forall m | 0 <= m < |g.inputs| ensures SkipsOnlyAt(g, g, m) {
      forall i | 0 <= i < |g.inputs[m]| ensures Leads(g, g.inputs[m][i], g.inputs[m][i], false) {
        LeadsToSelf(g, g.inputs[m][i]);
      }
    }
  }

  /** From a gate to where its first input has moved meanwhile. */
  lemma LeadsToMovedInput(g: Graph, h: Graph, n: nat)
    requires g.Valid() && h.Valid() && SkipsOnly(g, h) && n < |h.nodes| && h.IsGate(n)
    requires h.nodes[n].cell.isBuffer || h.nodes[n].cell.isInverter
    ensures h.inputs[n] != [] && Leads(g, n, h.inputs[n][0], !g.nodes[n].cell.isBuffer)
  {
    assert SkipsOnlyAt(g, h, n);
    LeadsToSelf(g, n);
    LeadsToInput(g, n, n, false);
    LeadsOn(g, n, g.inputs[n][0], h.inputs[n][0], !g.nodes[n].cell.isBuffer, false);
  }

  lemma InvertersAreNoBuffers(g: Graph, n: nat)
    requires g.Valid() && n < |g.nodes| && g.IsGate(n) && g.nodes[n].cell.isInverter
    ensures !g.nodes[n].cell.isBuffer
  {
    var xs := seq(g.nodes[n].cell.fn.arity, i => true);
    assert g.nodes[n].cell.fn.Apply(xs) == !xs[0];
  }

  lemma SourceIsSkipped(g: Graph, h: Graph, n: nat)
    requires g.Valid() && h.Valid() && SkipsOnly(g, h) && n < |h.nodes| && Bypassable(h, n)
    ensures Leads(g, n, Source(h, n), false)
  {
    LeadsToMovedInput(g, h, n);
    if !h.nodes[n].cell.isBuffer {
      var inv := h.inputs[n][0];
      LeadsToMovedInput(g, h, inv);
      InvertersAreNoBuffers(h, inv);
      LeadsOn(g, n, inv, h.inputs[inv][0], true, true);
    }
  }

  lemma BypassSkips(g: Graph, h: Graph, n: nat)
    requires g.Valid() && h.Valid() && SkipsOnly(g, h) && n < |h.nodes| && Bypassable(h, n)
    ensures SkipsOnly(g, Rewired(h, n, Source(h, n)))
  {
    var k := Rewired(h, n, Source(h, n));
    SourceIsSkipped(g, h, n);
    forall m | 0 <= m < |g.inputs| ensures SkipsOnlyAt(g, k, m) {
      assert SkipsOnlyAt(g, h, m);
      forall i | 0 <= i < |g.inputs[m]| ensures Leads(g, g.inputs[m][i], k.inputs[m][i], false) {
        if h.inputs[m][i] == n { LeadsOn(g, g.inputs[m][i], n, Source(h, n), false, false); }
      }
    }
  }

  ghost function MaxOf(s: seq<nat>): (m: nat)
    ensures forall i :: 0 <= i < |s| ==> s[i] <= m
  {
    if s == [] then 0
    else
      var m := MaxOf(s[1..]);
      assert forall i :: 1 <= i < |s| ==> s[i] == s[1..][i - 1];
      if s[0] < m then m else s[0]
  }

  // ---- inverter chains: following first inputs down through inverters ----

  /** The depth of every node in its inverter chain, and the node at the bottom of the chain. */
  ghost predicate Levelled(g: Graph, depth: seq<nat>, base: seq<nat>)
    requires g.Valid()
  {
    && |depth| == |base| == |g.nodes|
    && forall n: nat {:trigger LevelAt(g, depth, base, n)} :: n < |g.nodes| ==> LevelAt(g, depth, base, n)
  }

  ghost predicate LevelAt(g: Graph, depth: seq<nat>, base: seq<nat>, n: nat)
    requires g.Valid() && |depth| == |base| == |g.nodes| && n < |g.nodes|
  {
    && base[n] < |g.nodes|
    && if InverterGate(g.nodes, n) then
         var k := g.inputs[n][0];
         depth[n] == depth[k] + 1 && base[n] == base[k]
       else depth[n] == 0 && base[n] == n
  }

  /** Two nodes that the merge may put in each other's place. */
  ghost predicate Twins(depth: seq<nat>, base: seq<nat>, a: nat, b: nat)
    requires a < |depth| == |base| && b < |depth|
  {
    depth[a] == depth[b] && base[a] == base[b]
  }

  /** `rank` witnesses that no loop runs through first inputs of inverters only. */
  ghost predicate InvertersRankedBy(g: Graph, rank: seq<nat>)
    requires g.Valid()
  {
    |rank| == |g.nodes| &&
    forall n :: 0 <= n < |g.nodes| && InverterGate(g.nodes, n) ==> rank[g.inputs[n][0]] < rank[n]
  }

  /** Every chain of inverters has a bottom; loops through other gates or other pins do not matter. */
  ghost predicate InverterChainsEnd(g: Graph)
    requires g.Valid()
    ensures g.Acyclic() ==> InverterChainsEnd(g)
  {
    assert forall rank :: g.RankedBy(rank) ==> InvertersRankedBy(g, rank);
    exists rank :: InvertersRankedBy(g, rank)
  }

  ghost function Depth(g: Graph, rank: seq<nat>, n: nat): nat
    requires g.Valid() && InvertersRankedBy(g, rank) && n < |g.nodes|
    decreases rank[n]
  {
    if InverterGate(g.nodes, n) then Depth(g, rank, g.inputs[n][0]) + 1 else 0
  }

  ghost function ChainBase(g: Graph, rank: seq<nat>, n: nat): (b: nat)
    requires g.Valid() && InvertersRankedBy(g, rank) && n < |g.nodes|
    ensures b < |g.nodes|
    decreases rank[n]
  {
    if InverterGate(g.nodes, n) then ChainBase(g, rank, g.inputs[n][0]) else n
  }

  lemma LevelsExist(g: Graph) returns (depth: seq<nat>, base: seq<nat>)
    requires g.Valid() && InverterChainsEnd(g)
    ensures Levelled(g, depth, base)
  {
    var rank :| InvertersRankedBy(g, rank);
    depth := seq(|g.nodes|, n requires 0 <= n < |g.nodes| => Depth(g, rank, n));
    base := seq(|g.nodes|, n requires 0 <= n < |g.nodes| => ChainBase(g, rank, n));
    forall n: nat | n < |g.nodes| ensures LevelAt(g, depth, base, n) {}
  }

  /** Where chains end, a node has the value of its chain bottom, complemented once per inverter. */
  lemma {:induction false} ChainValue(g: Graph, depth: seq<nat>, base: seq<nat>, env: Bits, v: Bits, n: nat)
    requires g.Valid() && Levelled(g, depth, base) && |env| == |g.nodes| && Solves(g, env, v) && n < |g.nodes|
    ensures base[n] < |g.nodes| && v[n] == (v[base[n]] != (depth[n] % 2 == 1))
    decreases depth[n]
  {
    assert LevelAt(g, depth, base, n);
    if InverterGate(g.nodes, n) {
      ChainValue(g, depth, base, env, v, g.inputs[n][0]);
      BufferAndInverterValues(g, env, v, n);
    }
  }

  lemma TwinsHaveSameValue(g: Graph, depth: seq<nat>, base: seq<nat>, env: Bits, v: Bits, a: nat, b: nat)
    requires g.Valid() && Levelled(g, depth, base) && |env| == |g.nodes| && Solves(g, env, v)
    requires a < |g.nodes| && b < |g.nodes| && Twins(depth, base, a, b)
    ensures v[a] == v[b]
  {
    ChainValue(g, depth, base, env, v, a);
    ChainValue(g, depth, base, env, v, b);
  }

  lemma RedirectKeepsLevels(g: Graph, depth: seq<nat>, base: seq<nat>, oldn: nat, newn: nat)
    requires g.Valid() && Levelled(g, depth, base) && oldn < |g.nodes| && newn < |g.nodes|
    requires Twins(depth, base, oldn, newn)
    ensures Levelled(Rewired(g, oldn, newn), depth, base)
  {
    forall n: nat | n < |g.nodes| ensures LevelAt(Rewired(g, oldn, newn), depth, base, n) {
      assert LevelAt(g, depth, base, n);
    }
  }

  /** So reading a twin changes no solution, and brings in none. */
  lemma TwinKeepsSolutions(g: Graph, depth: seq<nat>, base: seq<nat>, oldn: nat, newn: nat)
    requires g.Valid() && Levelled(g, depth, base) && oldn < |g.nodes| && newn < |g.nodes|
    requires Twins(depth, base, oldn, newn)
    ensures SameSolutions(g, Rewired(g, oldn, newn)) && Levelled(Rewired(g, oldn, newn), depth, base)
  {
    var h := Rewired(g, oldn, newn);
    RedirectKeepsLevels(g, depth, base, oldn, newn);
    forall env: Bits, v: Bits | |env| == |g.nodes| && (Solves(g, env, v) || Solves(h, env, v))
      ensures Solves(g, env, v) <==> Solves(h, env, v)
    {
      TwinsHaveSameValue(if Solves(g, env, v) then g else h, depth, base, env, v, oldn, newn);
      RedirectKeepsSolution(g, oldn, newn, env, v);
    }
  }

  /** A ranking in which twins are level: the merge keeps it, whatever it redirects. */
  ghost predicate LevelRanked(g: Graph, depth: seq<nat>, base: seq<nat>, rank: seq<nat>)
    requires g.Valid()
  {
    && g.RankedBy(rank) && |depth| == |base| == |g.nodes|
    && forall a: nat, b: nat :: a < |g.nodes| && b < |g.nodes| && Twins(depth, base, a, b) ==> rank[a] == rank[b]
  }

  /** No inverter feeds its twin, nor does it do so across other pairs of twins. */
  ghost predicate MergeSafe(g: Graph)
    requires g.Valid()
    ensures MergeSafe(g) ==> g.Acyclic()
  {
    exists rank, depth, base :: Levelled(g, depth, base) && LevelRanked(g, depth, base, rank)
  }

  lemma RedirectKeepsLevelRank(g: Graph, depth: seq<nat>, base: seq<nat>, rank: seq<nat>, oldn: nat, newn: nat)
    requires g.Valid() && LevelRanked(g, depth, base, rank) && oldn < |g.nodes| && newn < |g.nodes|
    requires Twins(depth, base, oldn, newn)
    ensures LevelRanked(Rewired(g, oldn, newn), depth, base, rank)
  {
    var h := Rewired(g, oldn, newn);
    assert rank[oldn] == rank[newn];
    forall n: nat, i: nat | n < |g.nodes| && h.IsGate(n) && i < |h.inputs[n]|
      ensures rank[h.inputs[n][i]] < rank[n]
    {
      assert rank[g.inputs[n][i]] < rank[n];
    }
  }

  // ---- inverters with a single pin ----

  ghost predicate SingleInputInverters(nodes: seq<Node>) {
    forall n :: 0 <= n < |nodes| && InverterGate(nodes, n) ==> nodes[n].cell.fn.arity == 1
  }

  ghost function MaxLevel(g: Graph, rank: seq<nat>, n: nat, i: nat): (m: nat)
    requires g.Valid() && g.RankedBy(rank) && n < |g.nodes| && g.IsGate(n) && i <= |g.inputs[n]|
    ensures forall j :: 0 <= j < i ==> Level(g, rank, g.inputs[n][j]) <= m
    decreases rank[n], i
  {
    if i == 0 then 0
    else
      var a := MaxLevel(g, rank, n, i - 1);
      var b := Level(g, rank, g.inputs[n][i - 1]);
      if a < b then b else a
  }

  /** The length of the longest path from the outside to `n`. */
  ghost function Level(g: Graph, rank: seq<nat>, n: nat): nat
    requires g.Valid() && g.RankedBy(rank) && n < |g.nodes|
    decreases rank[n], |g.inputs[n]| + 1
  {
    if g.IsGate(n) then 1 + MaxLevel(g, rank, n, |g.inputs[n]|) else 0
  }

  lemma {:induction false} LevelGrowsWithDepth(g: Graph, rank: seq<nat>, n: nat)
    requires g.Valid() && g.RankedBy(rank) && n < |g.nodes| && SingleInputInverters(g.nodes)
    requires InvertersRankedBy(g, rank)
    ensures Level(g, rank, n) == Level(g, rank, ChainBase(g, rank, n)) + Depth(g, rank, n)
    decreases rank[n]
  {
    if InverterGate(g.nodes, n) {
      LevelGrowsWithDepth(g, rank, g.inputs[n][0]);
      assert MaxLevel(g, rank, n, 1) == Level(g, rank, g.inputs[n][0]);
    }
  }

  /** Inverters with a single pin are always safe to merge. */
  lemma SinglePinsAreSafe(g: Graph)
    requires g.Valid() && g.Acyclic() && SingleInputInverters(g.nodes)
    ensures MergeSafe(g)
  {
    var r :| g.RankedBy(r);
    assert InvertersRankedBy(g, r);
    var depth := seq(|g.nodes|, n requires 0 <= n < |g.nodes| => Depth(g, r, n));
    var base := seq(|g.nodes|, n requires 0 <= n < |g.nodes| => ChainBase(g, r, n));
    forall n: nat | n < |g.nodes| ensures LevelAt(g, depth, base, n) {}
    var rank := seq(|g.nodes|, n requires 0 <= n < |g.nodes| => Level(g, r, n));
    forall a: nat, b: nat | a < |g.nodes| && b < |g.nodes| && Twins(depth, base, a, b) ensures rank[a] == rank[b] {
      LevelGrowsWithDepth(g, r, a);
      LevelGrowsWithDepth(g, r, b);
    }
    assert LevelRanked(g, depth, base, rank);
  }

  // ---- what the merge keeps ----

  /** The first input of a node (0 if there is none). */
  function Input0(g: Graph, n: nat): nat {
    if n < |g.inputs| && g.inputs[n] != [] then g.inputs[n][0] else 0
  }

  /** The memo map of the merge may have gone stale (a key's inverter may meanwhile read another
      node), but a key is still mapped to an inverter of the same chain one deeper. */
  ghost predicate MemoOk(nodes: seq<Node>, depth: seq<nat>, base: seq<nat>, memo: map<nat, nat>)
    requires |depth| == |base| == |nodes|
  {
    forall k {:trigger RecordOk(nodes, depth, base, k, memo[k])} ::
      k in memo ==> RecordOk(nodes, depth, base, k, memo[k])
  }

  ghost predicate RecordOk(nodes: seq<Node>, depth: seq<nat>, base: seq<nat>, k: nat, n: nat)
    requires |depth| == |base| == |nodes|
  {
    && k < |nodes| && n < |nodes| && InverterGate(nodes, n)
    && depth[n] == depth[k] + 1 && base[n] == base[k]
  }

  /** Reads only ever move from an inverter that is no latch gate to another. */
  ghost predicate MovesInvertersOnly(g: Graph, h: Graph) {
    |g.inputs| == |h.inputs| && forall m: nat :: m < |g.inputs| ==> MovesInvertersOnlyAt(g, h, m)
  }

  ghost predicate MovesInvertersOnlyAt(g: Graph, h: Graph, m: nat)
    requires m < |g.inputs| == |h.inputs|
  {
    && |h.inputs[m]| == |g.inputs[m]|
    && forall i :: 0 <= i < |g.inputs[m]| && h.inputs[m][i] != g.inputs[m][i] ==>
         IsPlainInverter(g.nodes, g.inputs[m][i]) && IsPlainInverter(g.nodes, h.inputs[m][i])
  }

  predicate IsPlainInverter(nodes: seq<Node>, n: nat) {
    n < |nodes| && nodes[n].kind.GateNode? && !nodes[n].latchGate && nodes[n].cell.isInverter
  }

  lemma RedirectMovesInverters(g: Graph, h: Graph, oldn: nat, newn: nat)
    requires MovesInvertersOnly(g, h) && IsPlainInverter(g.nodes, oldn) && IsPlainInverter(g.nodes, newn)
    ensures MovesInvertersOnly(g, Rewired(h, oldn, newn))
  {
    forall m: nat | m < |g.inputs| ensures MovesInvertersOnlyAt(g, Rewired(h, oldn, newn), m) {
      assert MovesInvertersOnlyAt(g, h, m);
    }
  }

  /** What a run of the inverter merge keeps, from a netlist `start`. */
  ghost predicate MergeKeeps(start: Graph, g: Graph, depth: seq<nat>, base: seq<nat>, memo: map<nat, nat>) {
    && SameSolutions(start, g) && Levelled(g, depth, base) && MemoOk(g.nodes, depth, base, memo)
    && MovesInvertersOnly(start, g)
  }

  /** If `n` is an inverter somebody reads, it is the one recorded for its input. */
  ghost predicate Merged(g: Graph, fanouts: seq<seq<nat>>, memo: map<nat, nat>, n: nat)
    requires n < |g.nodes| == |g.inputs| == |fanouts|
  {
    InverterGate(g.nodes, n) && fanouts[n] != [] ==>
      Input0(g, n) in memo && memo[Input0(g, n)] == n
  }

  ghost predicate MergedUpTo(g: Graph, fanouts: seq<seq<nat>>, memo: map<nat, nat>, depth: seq<nat>, r: nat)
    requires |depth| == |fanouts| == |g.inputs| == |g.nodes|
  {
    forall n: nat {:trigger Merged(g, fanouts, memo, n)} ::
      n < |g.nodes| && depth[n] <= r ==> Merged(g, fanouts, memo, n)
  }

  /** Of the gates a pass has seen: all are merged if it changed nothing so far, and those up to
      depth `r + 1` in any case. */
  ghost predicate PrefixMerged(g: Graph, fanouts: seq<seq<nat>>, memo: map<nat, nat>, depth: seq<nat>,
      r: nat, changed: bool, seen: seq<nat>)
    requires |depth| == |fanouts| == |g.inputs| == |g.nodes|
  {
    forall n :: n in seen ==> n < |g.nodes| && (!changed || depth[n] <= r + 1 ==> Merged(g, fanouts, memo, n))
  }

  /** Where merging is complete, a chain has one read node per depth. */
  lemma {:induction false} OneReadNodePerDepth(g: Graph, fanouts: seq<seq<nat>>, memo: map<nat, nat>,
      depth: seq<nat>, base: seq<nat>, r: nat, a: nat, b: nat)
    requires g.Valid() && Levelled(g, depth, base) && AreFanouts(g.inputs, fanouts)
    requires MergedUpTo(g, fanouts, memo, depth, r)
    requires a < |g.nodes| && b < |g.nodes| && fanouts[a] != [] && fanouts[b] != []
    requires Twins(depth, base, a, b) && depth[a] <= r
    ensures a == b
    decreases depth[a]
  {
    assert LevelAt(g, depth, base, a) && LevelAt(g, depth, base, b);
    if InverterGate(g.nodes, a) && InverterGate(g.nodes, b) {
      var ka, kb := Input0(g, a), Input0(g, b);
      assert Reads(g.inputs, a, ka) && Reads(g.inputs, b, kb);
      OneReadNodePerDepth(g, fanouts, memo, depth, base, r, ka, kb);
      assert Merged(g, fanouts, memo, a) && Merged(g, fanouts, memo, b);
    }
  }

  lemma ReadNodeHasFanouts(inputs: seq<seq<nat>>, fanouts: seq<seq<nat>>, m: nat, n: nat)
    requires AreFanouts(inputs, fanouts) && n < |inputs| && Reads(inputs, m, n)
    ensures fanouts[n] != []
  {
    assert m in fanouts[n];
  }

  /** At depth `r + 1` an inverter and the one recorded for its input really have the same input. */
  lemma RecordedHasSameInput(start: Graph, g: Graph, fanouts: seq<seq<nat>>, memo: map<nat, nat>, depth: seq<nat>,
      base: seq<nat>, r: nat, out: nat)
    requires MergeKeeps(start, g, depth, base, memo) && AreFanouts(g.inputs, fanouts)
    requires MergedUpTo(g, fanouts, memo, depth, r)
    requires out < |g.nodes| && InverterGate(g.nodes, out) && Input0(g, out) in memo && depth[out] <= r + 1
    ensures Input0(g, memo[Input0(g, out)]) == Input0(g, out)
  {
    var k := Input0(g, out);
    var other := memo[k];
    assert RecordOk(g.nodes, depth, base, k, other);
    assert LevelAt(g, depth, base, out) && LevelAt(g, depth, base, other);
    var ko := Input0(g, other);
    assert Reads(g.inputs, out, k) && Reads(g.inputs, other, ko);
    ReadNodeHasFanouts(g.inputs, fanouts, out, k);
    ReadNodeHasFanouts(g.inputs, fanouts, other, ko);
    OneReadNodePerDepth(g, fanouts, memo, depth, base, r, k, ko);
  }

  /** Redirecting `out` (above depth `r`) to `other` leaves everything up to depth `r + 1` merged. */
  lemma MergedStaysMerged(g: Graph, fanouts: seq<seq<nat>>, memo: map<nat, nat>, out: nat, other: nat, n: nat)
    requires |fanouts| == |g.inputs| == |g.nodes| && out < |g.nodes| && other < |g.nodes| && n < |g.nodes|
    requires Merged(g, fanouts, memo, n)
    requires InverterGate(g.nodes, n) ==> Input0(g, n) != out
    requires n == other && InverterGate(g.nodes, n) ==>
               Input0(g, n) == Input0(g, out) && Input0(g, out) in memo && memo[Input0(g, out)] == other
    ensures Merged(Rewired(g, out, other), MoveFanouts(fanouts, out, other), memo, n)
  {
    assert InverterGate(g.nodes, n) ==> Input0(Rewired(g, out, other), n) == Input0(g, n);
  }

  /** The inverter recorded for the input of `out`, however stale the entry, is a twin of `out`: it has the
      same value in every solution. */
  lemma RecordedHasSameValue(start: Graph, g: Graph, depth: seq<nat>, base: seq<nat>, memo: map<nat, nat>, out: nat)
    requires MergeKeeps(start, g, depth, base, memo)
    requires out < |g.nodes| && InverterGate(g.nodes, out) && Input0(g, out) in memo
    ensures var other := memo[Input0(g, out)];
            && other < |g.nodes| && Twins(depth, base, out, other)
            && forall env, v :: |env| == |g.nodes| && Solves(g, env, v) ==> v[out] == v[other]
  {
    assert LevelAt(g, depth, base, out);
    var other := memo[Input0(g, out)];
    assert RecordOk(g.nodes, depth, base, Input0(g, out), other);
    forall env: Bits, v: Bits | |env| == |g.nodes| && Solves(g, env, v) ensures v[out] == v[other] {
      TwinsHaveSameValue(g, depth, base, env, v, out, other);
    }
  }

  /** Recording the first inverter seen for its input. */
  lemma RecordKeeps(start: Graph, g: Graph, memo: map<nat, nat>, depth: seq<nat>, base: seq<nat>, out: nat)
    requires MergeKeeps(start, g, depth, base, memo)
    requires out < |g.nodes| && InverterGate(g.nodes, out) && Input0(g, out) !in memo
    ensures MergeKeeps(start, g, depth, base, memo[Input0(g, out) := out])
  {
    assert LevelAt(g, depth, base, out);
    assert RecordOk(g.nodes, depth, base, Input0(g, out), out);
  }

  lemma RecordStep(g: Graph, fanouts: seq<seq<nat>>, memo: map<nat, nat>, depth: seq<nat>,
      r: nat, changed: bool, seen: seq<nat>, out: nat)
    requires g.Valid() && |depth| == |fanouts| == |g.nodes|
    requires MergedUpTo(g, fanouts, memo, depth, r) && PrefixMerged(g, fanouts, memo, depth, r, changed, seen)
    requires out < |g.nodes| && InverterGate(g.nodes, out) && Input0(g, out) !in memo
    ensures var memo' := memo[Input0(g, out) := out];
            && MergedUpTo(g, fanouts, memo', depth, r)
            && PrefixMerged(g, fanouts, memo', depth, r, changed, seen + [out])
  {
    var memo' := memo[Input0(g, out) := out];
    forall n: nat | n < |g.nodes| && Merged(g, fanouts, memo, n) ensures Merged(g, fanouts, memo', n) {}
    assert Merged(g, fanouts, memo', out);
  }

  /** Redirecting `out` to the inverter recorded for its input keeps exactly the solutions. */
  lemma MergeStepMeaning(start: Graph, g: Graph, memo: map<nat, nat>, depth: seq<nat>, base: seq<nat>, out: nat)
    requires MergeKeeps(start, g, depth, base, memo)
    requires out < |g.nodes| && InverterGate(g.nodes, out) && Input0(g, out) in memo
    ensures memo[Input0(g, out)] < |g.nodes|
    ensures MergeKeeps(start, Rewired(g, out, memo[Input0(g, out)]), depth, base, memo)
  {
    var other := memo[Input0(g, out)];
    RecordedHasSameValue(start, g, depth, base, memo, out);
    TwinKeepsSolutions(g, depth, base, out, other);
    SameSolutionsTransitive(start, g, Rewired(g, out, other));
    assert RecordOk(g.nodes, depth, base, Input0(g, out), other);
    RedirectMovesInverters(start, g, out, other);
  }

  lemma ReadsBelow(g: Graph, depth: seq<nat>, base: seq<nat>, r: nat, out: nat, n: nat)
    requires g.Valid() && Levelled(g, depth, base) && out < |g.nodes| && n < |g.nodes|
    requires depth[out] > r && depth[n] <= r + 1 && InverterGate(g.nodes, n)
    ensures Input0(g, n) != out
  {
    assert LevelAt(g, depth, base, n);
  }

  /** So if the recorded inverter is no deeper than `r + 1`, it has the same input. */
  lemma RecordedIsAtDepth(start: Graph, g: Graph, fanouts: seq<seq<nat>>, memo: map<nat, nat>, depth: seq<nat>,
      base: seq<nat>, r: nat, out: nat)
    requires MergeKeeps(start, g, depth, base, memo) && AreFanouts(g.inputs, fanouts)
    requires MergedUpTo(g, fanouts, memo, depth, r)
    requires out < |g.nodes| && InverterGate(g.nodes, out) && Input0(g, out) in memo
    requires memo[Input0(g, out)] < |g.nodes| && depth[memo[Input0(g, out)]] <= r + 1
    ensures Input0(g, memo[Input0(g, out)]) == Input0(g, out)
  {
    RecordedHasSameValue(start, g, depth, base, memo, out);
    RecordedHasSameInput(start, g, fanouts, memo, depth, base, r, out);
  }

  lemma StaysMerged(start: Graph, g: Graph, fanouts: seq<seq<nat>>, memo: map<nat, nat>, depth: seq<nat>,
      base: seq<nat>, r: nat, out: nat, n: nat)
    requires MergeKeeps(start, g, depth, base, memo) && AreFanouts(g.inputs, fanouts)
    requires MergedUpTo(g, fanouts, memo, depth, r)
    requires out < |g.nodes| && InverterGate(g.nodes, out) && Input0(g, out) in memo && depth[out] > r
    requires n < |g.nodes| && depth[n] <= r + 1 && Merged(g, fanouts, memo, n)
    ensures var other := memo[Input0(g, out)];
            other < |g.nodes| && Merged(Rewired(g, out, other), MoveFanouts(fanouts, out, other), memo, n)
  {
    var other := memo[Input0(g, out)];
    assert RecordOk(g.nodes, depth, base, Input0(g, out), other);
    if InverterGate(g.nodes, n) { ReadsBelow(g, depth, base, r, out, n); }
    if n == other { RecordedIsAtDepth(start, g, fanouts, memo, depth, base, r, out); }
    MergedStaysMerged(g, fanouts, memo, out, other, n);
  }

  /** A read inverter that is not the recorded one sits above the depths already merged. */
  lemma UnmergedIsAbove(g: Graph, fanouts: seq<seq<nat>>, memo: map<nat, nat>, depth: seq<nat>, r: nat, out: nat)
    requires |depth| == |fanouts| == |g.inputs| == |g.nodes| && MergedUpTo(g, fanouts, memo, depth, r)
    requires out < |g.nodes| && InverterGate(g.nodes, out) && fanouts[out] != []
    requires Input0(g, out) in memo && memo[Input0(g, out)] != out
    ensures r < depth[out] <= MaxOf(depth)
  {
    assert !Merged(g, fanouts, memo, out);
  }

  /** Such a redirection leaves depths up to `r` alone, and depth `r + 1` stays merged where it was. */
  lemma MergeStep(start: Graph, g: Graph, fanouts: seq<seq<nat>>, memo: map<nat, nat>, depth: seq<nat>,
      base: seq<nat>, r: nat, changed: bool, seen: seq<nat>, out: nat, other: nat)
    requires MergeKeeps(start, g, depth, base, memo) && AreFanouts(g.inputs, fanouts)
    requires MergedUpTo(g, fanouts, memo, depth, r) && PrefixMerged(g, fanouts, memo, depth, r, changed, seen)
    requires out < |g.nodes| && other < |g.nodes| && InverterGate(g.nodes, out) && fanouts[out] != []
    requires Input0(g, out) in memo && memo[Input0(g, out)] == other && other != out
    ensures r < depth[out] <= MaxOf(depth)
    ensures var h := Rewired(g, out, other);
            var after := MoveFanouts(fanouts, out, other);
            && MergedUpTo(h, after, memo, depth, r)
            && PrefixMerged(h, after, memo, depth, r, true, seen + [out])
  {
    UnmergedIsAbove(g, fanouts, memo, depth, r, out);
    var h := Rewired(g, out, other);
    var after := MoveFanouts(fanouts, out, other);
    assert Merged(h, after, memo, out);
    forall n: nat | n < |g.nodes| && depth[n] <= r + 1 && Merged(g, fanouts, memo, n)
      ensures Merged(h, after, memo, n)
    {
      StaysMerged(start, g, fanouts, memo, depth, base, r, out, n);
    }
    assert MergedUpTo(h, after, memo, depth, r);
    forall n | n in seen + [out]
      ensures n < |g.nodes| && (depth[n] <= r + 1 ==> Merged(h, after, memo, n))
    {
      if n != out { assert n in seen; }
    }
  }

  /** No two inverters that are read have the same input. */
  ghost predicate ReadInvertersDiffer(g: Graph, fanouts: seq<seq<nat>>)
    requires g.Valid() && |fanouts| == |g.nodes|
  {
    forall a, b ::
      0 <= a < b < |g.nodes| && InverterGate(g.nodes, a) && InverterGate(g.nodes, b) &&
      fanouts[a] != [] && fanouts[b] != []
      ==> Input0(g, a) != Input0(g, b)
  }

  /** Two inverters that somebody reads, the gates in front of latches aside, have different inputs. */
  ghost predicate ReadInvertersApart(g: Graph)
    requires g.Valid()
  {
    forall a: nat, b: nat ::
      a < b && IsPlainInverter(g.nodes, a) && IsPlainInverter(g.nodes, b) && IsRead(g, a) && IsRead(g, b) ==>
        g.inputs[a][0] != g.inputs[b][0]
  }

  ghost predicate IsRead(g: Graph, n: nat) {
    exists m: nat :: m < |g.inputs| && n in g.inputs[m]
  }

  lemma DifferIsApart(g: Graph, fanouts: seq<seq<nat>>)
    requires g.Valid() && AreFanouts(g.inputs, fanouts) && ReadInvertersDiffer(g, fanouts)
    ensures ReadInvertersApart(g)
  {
    forall n: nat | n < |g.nodes| && IsRead(g, n) ensures fanouts[n] != [] {
      var m: nat :| m < |g.inputs| && n in g.inputs[m];
      assert Reads(g.inputs, m, n);
      ReadNodeHasFanouts(g.inputs, fanouts, m, n);
    }
    forall a: nat, b: nat |
      a < b && IsPlainInverter(g.nodes, a) && IsPlainInverter(g.nodes, b) && IsRead(g, a) && IsRead(g, b)
      ensures g.inputs[a][0] != g.inputs[b][0]
    {
      assert InverterGate(g.nodes, a) && InverterGate(g.nodes, b);
      assert Input0(g, a) != Input0(g, b);
    }
  }

  /** After a whole pass depth `r + 1` is merged, and everything is if the pass changed nothing. */
  lemma PassCompletesDepth(g: Graph, fanouts: seq<seq<nat>>, memo: map<nat, nat>, depth: seq<nat>, r: nat,
      changed: bool, gates: seq<nat>)
    requires g.Valid() && |depth| == |fanouts| == |g.nodes|
    requires forall n: nat :: n in gates <==> n < |g.nodes| && g.nodes[n].kind.GateNode?
    requires PrefixMerged(g, fanouts, memo, depth, r, changed, gates)
    ensures MergedUpTo(g, fanouts, memo, depth, r + 1)
    ensures !changed ==> ReadInvertersDiffer(g, fanouts)
  {
    forall n: nat | n < |g.nodes| && (!changed || depth[n] <= r + 1)
      ensures Merged(g, fanouts, memo, n)
    {
      if g.IsGate(n) { assert n in gates; }
    }
    if !changed {
      forall a, b | 0 <= a < b < |g.nodes| && InverterGate(g.nodes, a) && InverterGate(g.nodes, b) &&
                    fanouts[a] != [] && fanouts[b] != []
        ensures Input0(g, a) != Input0(g, b)
      {
        assert Merged(g, fanouts, memo, a) && Merged(g, fanouts, memo, b);
      }
    }
  }

  lemma DepthZeroIsMerged(g: Graph, fanouts: seq<seq<nat>>, depth: seq<nat>, base: seq<nat>)
    requires g.Valid() && Levelled(g, depth, base) && |fanouts| == |g.nodes|
    ensures MergedUpTo(g, fanouts, map[], depth, 0)
  {
    forall n: nat | n < |g.nodes| && depth[n] <= 0 ensures Merged(g, fanouts, map[], n) {
      assert LevelAt(g, depth, base, n);
    }
  }

  // ---- the run of the merge as a function of the netlist and the gate list ----

  datatype MergeState = MergeState(g: Graph, memo: map<nat, nat>)

  /** One gate: an inverter is recorded for its input, or redirected to the one recorded. */
  function MergeOne(s: MergeState, out: nat): (t: MergeState)
    ensures t.g.nodes == s.g.nodes
  {
    if out >= |s.g.nodes| || !InverterGate(s.g.nodes, out) then s
    else
      var k := Input0(s.g, out);
      if k !in s.memo then s.(memo := s.memo[k := out])
      else if s.memo[k] == out then s
      else s.(g := Rewired(s.g, out, s.memo[k]))
  }

  function MergePass(s: MergeState, gates: seq<nat>): (t: MergeState)
    ensures t.g.nodes == s.g.nodes
  {
    if gates == [] then s else MergeOne(MergePass(s, gates[..|gates| - 1]), gates[|gates| - 1])
  }

  lemma MergePassNext(s: MergeState, gates: seq<nat>, i: nat)
    requires i < |gates|
    ensures gates[..i + 1] == gates[..i] + [gates[i]]
    ensures MergePass(s, gates[..i + 1]) == MergeOne(MergePass(s, gates[..i]), gates[i])
  {
    assert gates[..i + 1][..i] == gates[..i];
  }

  function MergeRun(g: Graph, gates: seq<nat>, passes: nat): (t: MergeState)
    ensures t.g.nodes == g.nodes
  {
    if passes == 0 then MergeState(g, map[]) else MergePass(MergeRun(g, gates, passes - 1), gates)
  }

  /** A run only ever redirects to twins, so a ranking with level twins survives it. */
  lemma MergeOneKeeps(start: Graph, s: MergeState, depth: seq<nat>, base: seq<nat>, out: nat)
    requires MergeKeeps(start, s.g, depth, base, s.memo)
    ensures var t := MergeOne(s, out);
            && MergeKeeps(start, t.g, depth, base, t.memo)
            && forall rank :: LevelRanked(s.g, depth, base, rank) ==> LevelRanked(t.g, depth, base, rank)
  {
    if out < |s.g.nodes| && InverterGate(s.g.nodes, out) {
      var k := Input0(s.g, out);
      if k !in s.memo {
        RecordKeeps(start, s.g, s.memo, depth, base, out);
      } else {
        MergeStepMeaning(start, s.g, s.memo, depth, base, out);
        RecordedHasSameValue(start, s.g, depth, base, s.memo, out);
        forall rank | LevelRanked(s.g, depth, base, rank)
          ensures LevelRanked(Rewired(s.g, out, s.memo[k]), depth, base, rank)
        {
          RedirectKeepsLevelRank(s.g, depth, base, rank, out, s.memo[k]);
        }
      }
    }
  }

  lemma {:induction false} MergePassKeeps(start: Graph, s: MergeState, depth: seq<nat>, base: seq<nat>, gates: seq<nat>)
    requires MergeKeeps(start, s.g, depth, base, s.memo)
    ensures var t := MergePass(s, gates);
            && MergeKeeps(start, t.g, depth, base, t.memo)
            && forall rank :: LevelRanked(s.g, depth, base, rank) ==> LevelRanked(t.g, depth, base, rank)
    decreases |gates|
  {
    if gates != [] {
      MergePassKeeps(start, s, depth, base, gates[..|gates| - 1]);
      MergeOneKeeps(start, MergePass(s, gates[..|gates| - 1]), depth, base, gates[|gates| - 1]);
    }
  }

  lemma {:induction false} MergeRunKeeps(start: Graph, depth: seq<nat>, base: seq<nat>, gates: seq<nat>, passes: nat)
    requires start.Valid() && Levelled(start, depth, base)
    ensures var t := MergeRun(start, gates, passes);
            && MergeKeeps(start, t.g, depth, base, t.memo)
            && forall rank :: LevelRanked(start, depth, base, rank) ==> LevelRanked(t.g, depth, base, rank)
    decreases passes
  {
    if passes > 0 {
      MergeRunKeeps(start, depth, base, gates, passes - 1);
      MergePassKeeps(start, MergeRun(start, gates, passes - 1), depth, base, gates);
    } else {
      assert MergeKeeps(start, start, depth, base, map[]);
    }
  }

  lemma SafeRunIsAcyclic(start: Graph, gates: seq<nat>, passes: nat)
    requires start.Valid() && MergeSafe(start)
    ensures CleanAfter(start, gates, passes)
  {
    var rank, depth, base :| Levelled(start, depth, base) && LevelRanked(start, depth, base, rank);
    MergeRunKeeps(start, depth, base, gates, passes);
    assert LevelRanked(MergeRun(start, gates, passes).g, depth, base, rank);
  }

  /** Merging in the order of the gate list closes no loop. */
  ghost predicate MergesCleanly(g: Graph, gates: seq<nat>) {
    forall passes: nat {:trigger CleanAfter(g, gates, passes)} :: CleanAfter(g, gates, passes)
  }

  ghost predicate CleanAfter(g: Graph, gates: seq<nat>, passes: nat) {
    var h := MergeRun(g, gates, passes).g;
    h.Valid() && h.Acyclic()
  }

  /** Redirecting a node that nobody reads changes nothing. */
  lemma RedirectUnread(inputs: seq<seq<nat>>, oldn: nat, newn: nat)
    requires forall m: nat :: !Reads(inputs, m, oldn)
    ensures Redirect(inputs, oldn, newn) == inputs
  {
    forall m | 0 <= m < |inputs| ensures Subst(inputs[m], oldn, newn) == inputs[m] {
      assert !Reads(inputs, m, oldn);
    }
  }

  // ---- dead gates ----

  /** `gates` lists every gate once. */
  ghost predicate ListsGates(nodes: seq<Node>, gates: seq<nat>) {
    && Distinct(gates)
    && forall n: nat :: n in gates <==> n < |nodes| && nodes[n].kind.GateNode?
  }

  /** Gates that may be marked dead once nobody reads them. */
  predicate Removable(g: Graph, nor2xb: bool, n: nat)
    requires n < |g.nodes| == |g.inputs|
  {
    && g.nodes[n].kind.GateNode? && !g.nodes[n].output
    && (|g.inputs[n]| == 1 || (nor2xb && g.nodes[n].cell.isNor2xb && g.inputs[n] != []))
  }

  function RemoveFanout(s: seq<nat>, n: nat): (r: seq<nat>)
    requires n in s
    ensures Distinct(s) ==> Distinct(r) && forall m :: m in r <==> m in s && m != n
  {
    assert s == [s[0]] + s[1..];
    if s[0] == n then s[1..]
    else
      var rest := RemoveFanout(s[1..], n);
      assert Distinct(s) ==> Distinct(s[1..]) && s[0] !in s[1..] && s[0] !in rest;
      [s[0]] + rest
  }

  /** A reader of `n` no longer counts once it is dead and `n` was its first input. */
  ghost predicate Dropped(g: Graph, dead: seq<bool>, m: nat, n: nat) {
    m < |dead| && dead[m] && m < |g.inputs| && g.inputs[m] != [] && g.inputs[m][0] == n
  }

  ghost predicate FanoutsWithoutDropped(g: Graph, before: seq<seq<nat>>, after: seq<seq<nat>>, dead: seq<bool>) {
    && |after| == |before|
    && forall n: nat :: n < |after| ==>
         && Distinct(after[n])
         && forall m :: m in after[n] <==> m in before[n] && !Dropped(g, dead, m, n)
  }

  /** The gate at position `i` can be removed, and all its readers are gates listed after it that died
      and read it as their first input. */
  ghost predicate Dies(g: Graph, nor2xb: bool, before: seq<seq<nat>>, dead: seq<bool>, gates: seq<nat>, i: nat)
    requires i < |gates| && gates[i] < |g.nodes| == |g.inputs| == |before|
  {
    && Removable(g, nor2xb, gates[i])
    && forall m :: m in before[gates[i]] ==> m in gates[i + 1..] && Dropped(g, dead, m, gates[i])
  }

  lemma UnreadMeansAllDropped(g: Graph, nor2xb: bool, before: seq<seq<nat>>, after: seq<seq<nat>>,
      dead: seq<bool>, gates: seq<nat>, i: nat)
    requires |dead| == |g.nodes| == |g.inputs| == |before| && i < |gates| && gates[i] < |g.nodes|
    requires FanoutsWithoutDropped(g, before, after, dead)
    requires forall m: nat :: m < |dead| && dead[m] ==> m in gates[i + 1..]
    ensures Dies(g, nor2xb, before, dead, gates, i) <==> Removable(g, nor2xb, gates[i]) && after[gates[i]] == []
  {
    var n := gates[i];
    if after[n] == [] {
      forall m | m in before[n] ensures m in gates[i + 1..] && Dropped(g, dead, m, n) {
        assert m !in after[n];
      }
    } else {
      var m := after[n][0];
      assert m in after[n];
      assert m in before[n] && !Dropped(g, dead, m, n);
    }
  }

  lemma DroppingKeepsFanouts(g: Graph, before: seq<seq<nat>>, after: seq<seq<nat>>, dead: seq<bool>, n: nat)
    requires |dead| == |g.nodes| == |g.inputs| == |before| && n < |dead| && !dead[n]
    requires FanoutsWithoutDropped(g, before, after, dead) && AreFanouts(g.inputs, before)
    requires g.inputs[n] != [] && g.inputs[n][0] < |g.nodes|
    ensures var inp := g.inputs[n][0];
            && n in after[inp]
            && FanoutsWithoutDropped(g, before, after[inp := RemoveFanout(after[inp], n)], dead[n := true])
  {
    var inp := g.inputs[n][0];
    assert Reads(g.inputs, n, inp);
    assert n in before[inp] && !Dropped(g, dead, n, inp);
    var after', dead' := after[inp := RemoveFanout(after[inp], n)], dead[n := true];
    forall k: nat | k < |after|
      ensures Distinct(after'[k])
      ensures forall m :: m in after'[k] <==> m in before[k] && !Dropped(g, dead', m, k)
    {
      assert Distinct(after[k]);
      forall m ensures m in after'[k] <==> m in before[k] && !Dropped(g, dead', m, k) {
        assert m in after[k] <==> m in before[k] && !Dropped(g, dead, m, k);
      }
    }
  }

  /** A latch gate is always read: by its latch, which never dies. */
  lemma LatchGateIsRead(g: Graph, before: seq<seq<nat>>, after: seq<seq<nat>>, dead: seq<bool>, n: nat)
    requires g.Valid() && LatchGatesFeedLatches(g) && AreFanouts(g.inputs, before)
    requires FanoutsWithoutDropped(g, before, after, dead) && n < |g.nodes| == |dead|
    requires forall m: nat :: m < |dead| && dead[m] ==> g.IsGate(m)
    ensures g.nodes[n].latchGate ==> after[n] != []
  {
    if g.nodes[n].latchGate {
      var m: nat :| Reads(g.inputs, m, n) && g.nodes[m].kind.LatchNode?;
      assert m in before[n];
      assert m in after[n];
    }
  }

  /** Which gates listed later died does not depend on what happens to the gate at position `i`. */
  lemma LaterGatesUnaffected(g: Graph, nor2xb: bool, before: seq<seq<nat>>, dead: seq<bool>,
      gates: seq<nat>, i: nat, j: nat)
    requires Distinct(gates) && i <= j < |gates| && gates[i] < |dead| == |g.nodes| == |g.inputs| == |before|
    requires gates[j] < |g.nodes|
    ensures Dies(g, nor2xb, before, dead, gates, j) <==>
            Dies(g, nor2xb, before, dead[gates[i] := true], gates, j)
  {
    assert gates[i] !in gates[j + 1..];
  }

  /** The state of dead-gate removal when the gates after position `i` have been visited. */
  ghost predicate DeadSoFar(g: Graph, nor2xb: bool, before: seq<seq<nat>>, after: seq<seq<nat>>,
      dead: seq<bool>, gates: seq<nat>, i: int)
    requires -1 <= i < |gates| && |dead| == |g.nodes| == |g.inputs| == |before|
    requires forall n :: n in gates ==> n < |g.nodes|
  {
    && FanoutsWithoutDropped(g, before, after, dead)
    && (forall m: nat :: m < |dead| && dead[m] ==> m in gates[i + 1..])
    && forall j :: i < j < |gates| ==>
         assert gates[j] in gates; dead[gates[j]] <==> Dies(g, nor2xb, before, dead, gates, j)
  }

  lemma DeadStep(g: Graph, nor2xb: bool, before: seq<seq<nat>>, after: seq<seq<nat>>,
      dead: seq<bool>, gates: seq<nat>, i: nat)
    requires g.Valid() && AreFanouts(g.inputs, before) && |dead| == |g.nodes| && i < |gates|
    requires Distinct(gates) && forall n :: n in gates ==> n < |g.nodes|
    requires DeadSoFar(g, nor2xb, before, after, dead, gates, i)
    ensures var n := gates[i];
            if n < |after| && after[n] == [] && Removable(g, nor2xb, n) then
              var inp := g.inputs[n][0];
              && n in after[inp]
              && DeadSoFar(g, nor2xb, before, after[inp := RemoveFanout(after[inp], n)], dead[n := true], gates, i - 1)
            else DeadSoFar(g, nor2xb, before, after, dead, gates, i - 1)
  {
    var n := gates[i];
    assert n in gates && n !in gates[i + 1..] && gates[i..] == [n] + gates[i + 1..];
    UnreadMeansAllDropped(g, nor2xb, before, after, dead, gates, i);
    if after[n] == [] && Removable(g, nor2xb, n) {
      DroppingKeepsFanouts(g, before, after, dead, n);
      forall j | i <= j < |gates|
        ensures gates[j] in gates &&
                (dead[n := true][gates[j]] <==> Dies(g, nor2xb, before, dead[n := true], gates, j))
      {
        assert gates[j] in gates;
        LaterGatesUnaffected(g, nor2xb, before, dead, gates, i, j);
      }
    }
  }

  lemma DeadIsReadByDead(g: Graph, nor2xb: bool, before: seq<seq<nat>>, after: seq<seq<nat>>,
      dead: seq<bool>, gates: seq<nat>)
    requires g.Valid() && AreFanouts(g.inputs, before) && |dead| == |g.nodes|
    requires forall n :: n in gates ==> n < |g.nodes|
    requires DeadSoFar(g, nor2xb, before, after, dead, gates, -1)
    ensures forall m: nat, n: nat :: Reads(g.inputs, m, n) && dead[n] ==> dead[m]
  {
    forall m: nat, n: nat | Reads(g.inputs, m, n) && dead[n] ensures dead[m] {
      var j :| 0 <= j < |gates| && gates[j] == n;
      assert Dies(g, nor2xb, before, dead, gates, j);
      assert m in before[n];
    }
  }

  lemma BypassedStays(g: Graph, before: seq<seq<nat>>, after: seq<seq<nat>>, dead: seq<bool>)
    requires g.Valid() && |before| == |g.nodes| && FanoutsWithoutDropped(g, before, after, dead)
    requires forall n :: 0 <= n < |g.nodes| ==> Bypassed(g, before, n)
    ensures forall n :: 0 <= n < |g.nodes| ==> Bypassed(g, after, n)
  {
    forall n | 0 <= n < |g.nodes| ensures Bypassed(g, after, n) {
      assert Bypassed(g, before, n);
      assert after[n] != [] ==> after[n][0] in after[n];
    }
  }

  /** What a netlist with the gates listed in this order loses: gates that are no outputs, with one input (or
      NOR2XB gates, if asked for), whose readers are all listed later, are lost themselves and read them
      first. */
  ghost predicate DeadExactly(g: Graph, nor2xb: bool, dead: seq<bool>, gates: seq<nat>)
    requires g.Valid()
  {
    && |dead| == |g.nodes|
    && (forall n: nat :: n < |dead| && dead[n] ==> g.nodes[n].kind.GateNode? && !g.nodes[n].output)
    && forall j :: 0 <= j < |gates| ==> gates[j] < |dead| && (dead[gates[j]] <==> IsLost(g, nor2xb, dead, gates, j))
  }

  ghost predicate IsLost(g: Graph, nor2xb: bool, dead: seq<bool>, gates: seq<nat>, j: nat)
    requires g.Valid() && |dead| == |g.nodes| && j < |gates| && gates[j] < |g.nodes|
  {
    var n := gates[j];
    && !g.nodes[n].output && (|g.inputs[n]| == 1 || (nor2xb && g.nodes[n].cell.isNor2xb))
    && forall m: nat :: m < |g.nodes| && n in g.inputs[m] ==> m in gates[j + 1..] && dead[m] && g.inputs[m][0] == n
  }

  /** Whatever an output or a node that is no gate depends on is live. */
  ghost predicate NeededIsLive(g: Graph, dead: seq<bool>) {
    forall p: seq<nat> :: IsDependence(g, p) && (g.nodes[p[0]].output || !g.nodes[p[0]].kind.GateNode?) ==>
      p[|p| - 1] < |dead| && !dead[p[|p| - 1]]
  }

  /** Each node of `p` reads the next one. */
  ghost predicate IsDependence(g: Graph, p: seq<nat>) {
    |p| > 0 && p[0] < |g.nodes| && forall k :: 0 <= k < |p| - 1 ==> p[k] < |g.inputs| && p[k + 1] in g.inputs[p[k]]
  }

  /** A node still has as fanouts those that read it, but for dead ones that read it first. */
  ghost predicate LiveFanouts(g: Graph, fanouts: seq<seq<nat>>, dead: seq<bool>)
    requires g.Valid() && |dead| == |g.nodes|
  {
    |fanouts| == |g.nodes| &&
    forall n: nat, m: nat :: n < |fanouts| ==>
      (m in fanouts[n] <==> m < |g.nodes| && n in g.inputs[m] && !(dead[m] && g.inputs[m][0] == n))
  }

  lemma DeadMeans(g: Graph, nor2xb: bool, before: seq<seq<nat>>, after: seq<seq<nat>>, dead: seq<bool>,
      gates: seq<nat>)
    requires g.Valid() && AreFanouts(g.inputs, before) && |dead| == |g.nodes| && ListsGates(g.nodes, gates)
    requires DeadSoFar(g, nor2xb, before, after, dead, gates, -1)
    ensures DeadExactly(g, nor2xb, dead, gates) && LiveFanouts(g, after, dead) && NeededIsLive(g, dead)
  {
    forall j | 0 <= j < |gates|
      ensures gates[j] < |dead| && (dead[gates[j]] <==> IsLost(g, nor2xb, dead, gates, j))
    {
      assert gates[j] in gates;
      DiesIsLost(g, nor2xb, before, dead, gates, j);
    }
    forall n: nat | n < |dead| && dead[n] ensures g.nodes[n].kind.GateNode? && !g.nodes[n].output {
      var j :| 0 <= j < |gates| && gates[j] == n;
    }
    FanoutsAreLive(g, before, after, dead);
    DeadIsReadByDead(g, nor2xb, before, after, dead, gates);
    ReadersKeepLive(g, dead);
  }

  lemma DiesIsLost(g: Graph, nor2xb: bool, before: seq<seq<nat>>, dead: seq<bool>, gates: seq<nat>, j: nat)
    requires g.Valid() && AreFanouts(g.inputs, before) && |dead| == |g.nodes| && ListsGates(g.nodes, gates)
    requires j < |gates| && gates[j] < |g.nodes|
    ensures Dies(g, nor2xb, before, dead, gates, j) <==> IsLost(g, nor2xb, dead, gates, j)
  {
    var n := gates[j];
    assert n in gates;
    forall m: nat ensures m in before[n] <==> m < |g.nodes| && n in g.inputs[m] {
      assert m in before[n] <==> Reads(g.inputs, m, n);
    }
  }

  lemma FanoutsAreLive(g: Graph, before: seq<seq<nat>>, after: seq<seq<nat>>, dead: seq<bool>)
    requires g.Valid() && AreFanouts(g.inputs, before) && |dead| == |g.nodes|
    requires FanoutsWithoutDropped(g, before, after, dead)
    ensures LiveFanouts(g, after, dead)
  {
    forall n: nat, m: nat | n < |after|
      ensures m in after[n] <==> m < |g.nodes| && n in g.inputs[m] && !(dead[m] && g.inputs[m][0] == n)
    {
      assert m in before[n] <==> Reads(g.inputs, m, n);
    }
  }

  /** Outputs and nodes that are no gates being live, so is all they depend on. */
  lemma ReadersKeepLive(g: Graph, dead: seq<bool>)
    requires g.Valid() && |dead| == |g.nodes|
    requires forall n: nat :: n < |dead| && dead[n] ==> g.nodes[n].kind.GateNode? && !g.nodes[n].output
    requires forall m: nat, n: nat :: Reads(g.inputs, m, n) && dead[n] ==> dead[m]
    ensures NeededIsLive(g, dead)
  {
    forall p: seq<nat> | IsDependence(g, p) && (g.nodes[p[0]].output || !g.nodes[p[0]].kind.GateNode?)
      ensures p[|p| - 1] < |dead| && !dead[p[|p| - 1]]
    {
      DependsOnLive(g, dead, p, |p| - 1);
    }
  }

  lemma {:induction false} DependsOnLive(g: Graph, dead: seq<bool>, p: seq<nat>, k: nat)
    requires g.Valid() && |dead| == |g.nodes| && IsDependence(g, p) && k < |p| && !dead[p[0]]
    requires forall m: nat, n: nat :: Reads(g.inputs, m, n) && dead[n] ==> dead[m]
    ensures p[k] < |dead| && !dead[p[k]]
  {
    if k > 0 {
      DependsOnLive(g, dead, p, k - 1);
      assert p[k - 1 + 1] in g.inputs[p[k - 1]];
      assert Reads(g.inputs, p[k - 1], p[k]);
    }
  }

  // ---- the module ----

  class FlatModule {
    const nodes: seq<Node>
    const gates: seq<nat>
    var inputs: seq<seq<nat>>
    var fanouts: seq<seq<nat>>
    var dead: seq<bool>

    ghost function Circuit(): Graph
      reads this
    {
      Graph(nodes, inputs)
    }

    ghost predicate Valid()
      reads this
    {
      && Circuit().Valid()
      && ListsGates(nodes, gates)
      && LatchGatesFeedLatches(Circuit())
      && AreFanouts(inputs, fanouts)
    }

    method RewriteNodes(oldn: nat, newn: nat) returns (changed: bool)
      requires Valid() && oldn < |nodes| && newn < |nodes| && !nodes[oldn].latchGate
      modifies this`inputs, this`fanouts
      ensures Valid()
      ensures changed <==> oldn != newn && old(fanouts)[oldn] != []
      ensures !changed ==> inputs == old(inputs) && fanouts == old(fanouts)
      ensures changed ==> inputs == Redirect(old(inputs), oldn, newn)
      ensures changed ==> fanouts == MoveFanouts(old(fanouts), oldn, newn)
      ensures forall m :: 0 <= m < |nodes| ==> |inputs[m]| == |old(inputs)[m]|
      ensures forall m, i :: 0 <= m < |nodes| && 0 <= i < |inputs[m]| ==>
                inputs[m][i] == if old(inputs)[m][i] == oldn then newn else old(inputs)[m][i]
    {
      if oldn == newn { return false; }
      changed := false;
      var readers := fanouts[oldn];
      for k := 0 to |readers|
        invariant inputs == RedirectReaders(old(inputs), readers[..k], oldn, newn)
        invariant fanouts == old(fanouts)[newn := AddFanouts(old(fanouts)[newn], readers[..k])]
        invariant changed == (k > 0)
      {
        var n := readers[k];
        assert readers[..k + 1][..k] == readers[..k] && readers[..k + 1][k] == n;
        assert Reads(old(inputs), n, oldn);
        inputs := inputs[n := Subst(inputs[n], oldn, newn)];
        changed := true;
        fanouts := fanouts[newn := AddFanout(fanouts[newn], n)];
      }
      assert readers[..|readers|] == readers;
      RedirectReadersIsRedirect(old(inputs), old(fanouts), oldn, newn);
      RedirectKeepsInverse(old(inputs), old(fanouts), oldn, newn);
      RedirectKeepsLatchGates(old(Circuit()), oldn, newn);
      if changed {
        fanouts := fanouts[oldn := []];
      } else {
        forall m, i | 0 <= m < |nodes| && 0 <= i < |inputs[m]| ensures inputs[m][i] != oldn {
          assert Reads(inputs, m, inputs[m][i]);
        }
      }
    }

    /** What a run of bypassing keeps of the netlist it started with, loops or not. */
    ghost predicate Bypassing(start: Graph)
      reads this
    {
      && Valid() && SameSolutions(start, Circuit()) && SkipsOnly(start, Circuit()) && KeepsLatchReads(start, Circuit())
      && forall rank :: start.RankedBy(rank) ==> Circuit().RankedBy(rank)
    }

    /** The redirection of the readers of a buffer or double inverter to its source. */
    method BypassTo(ghost start: Graph, out: nat, source: nat) returns (changed: bool)
      requires Bypassing(start) && out < |nodes| && Bypassable(Circuit(), out) && source == Source(Circuit(), out)
      modifies this`inputs, this`fanouts
      ensures Bypassing(start)
      ensures !changed ==> inputs == old(inputs) && fanouts == old(fanouts) && Bypassed(Circuit(), fanouts, out)
      ensures changed ==> ReadNodes(fanouts) < ReadNodes(old(fanouts))
    {
      BypassKeepsSolutions(Circuit(), out);
      BypassSkips(start, Circuit(), out);
      SourceIsRead(Circuit(), fanouts, out);
      if source != out && fanouts[out] != [] { MoveLosesReadNode(fanouts, out, source); }
      changed := RewriteNodes(out, source);
      if changed {
        SameSolutionsTransitive(start, old(Circuit()), Circuit());
        RedirectKeepsLatchReads(start, old(Circuit()), out, source);
        forall rank | start.RankedBy(rank) ensures Circuit().RankedBy(rank) {
          SourceIsLower(old(Circuit()), rank, out);
          RedirectKeepsRank(old(Circuit()), rank, out, source);
        }
      }
    }

    /** The body of a pass: bypasses one gate if it is a buffer or a double inverter. */
    method BypassGate(ghost start: Graph, out: nat) returns (changed: bool)
      requires Bypassing(start) && out < |nodes| && nodes[out].kind.GateNode?
      modifies this`inputs, this`fanouts
      ensures Bypassing(start)
      ensures !changed ==> inputs == old(inputs) && fanouts == old(fanouts) && Bypassed(Circuit(), fanouts, out)
      ensures changed ==> ReadNodes(fanouts) < ReadNodes(old(fanouts))
    {
      changed := false;
      if nodes[out].latchGate { return; }
      if nodes[out].cell.isBuffer {
        changed := BypassTo(start, out, inputs[out][0]);
      } else if nodes[out].cell.isInverter {
        var inv := inputs[out][0];
        if nodes[inv].kind.GateNode? && nodes[inv].cell.isInverter {
          changed := BypassTo(start, out, inputs[inv][0]);
        }
      }
    }

    /** One pass over the gate list. */
    method BufferPass(ghost start: Graph) returns (changed: bool)
      requires Bypassing(start)
      modifies this`inputs, this`fanouts
      ensures Bypassing(start)
      ensures changed ==> ReadNodes(fanouts) < ReadNodes(old(fanouts))
      ensures !changed ==> inputs == old(inputs) && fanouts == old(fanouts)
      ensures !changed ==> forall n :: 0 <= n < |nodes| ==> Bypassed(Circuit(), fanouts, n)
    {
      changed := false;
      for i := 0 to |gates|
        invariant Bypassing(start)
        invariant changed ==> ReadNodes(fanouts) < ReadNodes(old(fanouts))
        invariant !changed ==> inputs == old(inputs) && fanouts == old(fanouts)
        invariant !changed ==> forall k :: 0 <= k < i ==> gates[k] < |nodes| && Bypassed(Circuit(), fanouts, gates[k])
      {
        assert gates[i] in gates;
        var rewritten := BypassGate(start, gates[i]);
        changed := rewritten || changed;
      }
      if !changed {
        forall n | 0 <= n < |nodes| ensures Bypassed(Circuit(), fanouts, n) {
          if nodes[n].kind.GateNode? { assert n in gates; }
        }
      }
    }

    /** Bypasses buffers and double inverters until a pass changes nothing. Loops do not matter: every
        redirection leaves one read node less. */
    method RewriteBuffers()
      requires Valid()
      modifies this`inputs, this`fanouts
      ensures Valid() && SameSolutions(old(Circuit()), Circuit()) && SkipsOnly(old(Circuit()), Circuit())
      ensures forall rank :: old(Circuit()).RankedBy(rank) ==> Circuit().RankedBy(rank)
      ensures old(Circuit()).Acyclic() ==> SameMeaning(old(Circuit()), Circuit())
      ensures forall n :: 0 <= n < |nodes| ==> Bypassed(Circuit(), fanouts, n)
      ensures NoBypassableIsRead(Circuit()) && KeepsLatchReads(old(Circuit()), Circuit())
    {
      ghost var start := Circuit();
      SkipsNothing(start);
      var changed := true;
      while changed
        invariant Bypassing(start)
        invariant !changed ==> forall n :: 0 <= n < |nodes| ==> Bypassed(Circuit(), fanouts, n)
        decreases ReadNodes(fanouts), changed
      {
        changed := BufferPass(start);
      }
      if start.Acyclic() { SameSolutionsIsSameMeaning(start, Circuit()); }
      BypassedIsUnread(Circuit(), fanouts);
    }

    /** A run of the inverter merge that started with `start`. */
    ghost predicate Merging(start: Graph, depth: seq<nat>, base: seq<nat>, memo: map<nat, nat>)
      reads this
    {
      Valid() && MergeKeeps(start, Circuit(), depth, base, memo)
    }

    /** A pass on its way: depths up to `r` are merged, `seen` are the gates visited, and `changed` says
        whether one of them has been redirected. */
    ghost predicate Passing(start: Graph, depth: seq<nat>, base: seq<nat>, memo: map<nat, nat>, r: nat,
                            changed: bool, seen: seq<nat>)
      reads this
    {
      && Merging(start, depth, base, memo) && MergedUpTo(Circuit(), fanouts, memo, depth, r)
      && PrefixMerged(Circuit(), fanouts, memo, depth, r, changed, seen) && (changed ==> r < MaxOf(depth))
    }

    /** The body of a pass: merges one gate if it is an inverter. */
    method MergeInverter(ghost start: Graph, ghost depth: seq<nat>, ghost base: seq<nat>, memo: map<nat, nat>,
                         ghost r: nat, ghost seen: seq<nat>, before: bool, out: nat)
      returns (changed: bool, memo': map<nat, nat>)
      requires Passing(start, depth, base, memo, r, before, seen)
      requires out < |nodes| && nodes[out].kind.GateNode?
      modifies this`inputs, this`fanouts
      ensures Passing(start, depth, base, memo', r, changed, seen + [out])
      ensures MergeState(Circuit(), memo') == MergeOne(MergeState(old(Circuit()), memo), out)
      ensures !changed ==> !before && inputs == old(inputs)
    {
      changed, memo' := before, memo;
      if nodes[out].latchGate || !nodes[out].cell.isInverter { return; }
      var k := inputs[out][0];
      assert k == Input0(Circuit(), out);
      if k !in memo {
        memo' := memo[k := out];
        RecordKeeps(start, Circuit(), memo, depth, base, out);
        RecordStep(Circuit(), fanouts, memo, depth, r, before, seen, out);
      } else if memo[k] != out {
        changed := MergeInto(start, depth, base, memo, r, seen, before, out, memo[k]);
      }
    }

    /** The redirection to the inverter recorded for the same input. */
    method MergeInto(ghost start: Graph, ghost depth: seq<nat>, ghost base: seq<nat>, ghost memo: map<nat, nat>,
                     ghost r: nat, ghost seen: seq<nat>, before: bool, out: nat, other: nat)
      returns (changed: bool)
      requires Passing(start, depth, base, memo, r, before, seen)
      requires out < |nodes| && InverterGate(nodes, out) && other != out
      requires Input0(Circuit(), out) in memo && memo[Input0(Circuit(), out)] == other
      modifies this`inputs, this`fanouts
      ensures Passing(start, depth, base, memo, r, changed, seen + [out])
      ensures Circuit() == Rewired(old(Circuit()), out, other)
      ensures !changed ==> !before && inputs == old(inputs)
    {
      MergeStepMeaning(start, Circuit(), memo, depth, base, out);
      if fanouts[out] != [] {
        MergeStep(start, Circuit(), fanouts, memo, depth, base, r, before, seen, out, other);
      } else {
        RedirectUnread(inputs, out, other);
      }
      var rewritten := RewriteNodes(out, other);
      changed := rewritten || before;
    }

    /** One pass over the gate list; it completes the merge for one more depth. */
    method InverterPass(ghost start: Graph, ghost depth: seq<nat>, ghost base: seq<nat>, memo: map<nat, nat>,
                        ghost r: nat)
      returns (changed: bool, memo': map<nat, nat>)
      requires Passing(start, depth, base, memo, r, false, [])
      modifies this`inputs, this`fanouts
      ensures Passing(start, depth, base, memo', r, changed, gates)
      ensures MergeState(Circuit(), memo') == MergePass(MergeState(old(Circuit()), memo), gates)
      ensures !changed ==> inputs == old(inputs)
    {
      changed, memo' := false, memo;
      for i := 0 to |gates|
        invariant Passing(start, depth, base, memo', r, changed, gates[..i])
        invariant MergeState(Circuit(), memo') == MergePass(MergeState(old(Circuit()), memo), gates[..i])
        invariant !changed ==> inputs == old(inputs)
      {
        assert gates[i] in gates;
        MergePassNext(MergeState(old(Circuit()), memo), gates, i);
        changed, memo' := MergeInverter(start, depth, base, memo', r, gates[..i], changed, gates[i]);
      }
      assert gates[..|gates|] == gates;
    }

    /** Between two passes: every pass so far has completed the merge for one more depth. */
    ghost predicate Between(start: Graph, depth: seq<nat>, base: seq<nat>, memo: map<nat, nat>, passes: nat)
      reads this
    {
      && Merging(start, depth, base, memo) && MergedUpTo(Circuit(), fanouts, memo, depth, passes)
      && MergeState(Circuit(), memo) == MergeRun(start, gates, passes)
    }

    method NextPass(ghost start: Graph, ghost depth: seq<nat>, ghost base: seq<nat>, memo: map<nat, nat>,
                    ghost passes: nat)
      returns (changed: bool, memo': map<nat, nat>)
      requires Between(start, depth, base, memo, passes)
      modifies this`inputs, this`fanouts
      ensures Between(start, depth, base, memo', passes + 1)
      ensures changed ==> passes < MaxOf(depth)
      ensures !changed ==> ReadInvertersDiffer(Circuit(), fanouts) && Circuit() == MergeRun(start, gates, passes).g
    {
      changed, memo' := InverterPass(start, depth, base, memo, passes);
      PassCompletesDepth(Circuit(), fanouts, memo', depth, passes, changed, gates);
    }

    /** Merges inverters with the same input until a pass changes nothing. The solutions stay the same, even
        if a loop is closed; none is if the merge is safe. */
    method RewriteInverters() returns (ghost passes: nat)
      requires Valid() && InverterChainsEnd(Circuit())
      modifies this`inputs, this`fanouts
      ensures Valid() && SameSolutions(old(Circuit()), Circuit()) && ReadInvertersDiffer(Circuit(), fanouts)
      ensures ReadInvertersApart(Circuit()) && MovesInvertersOnly(old(Circuit()), Circuit())
      ensures old(Circuit()).Acyclic() ==> (SameMeaning(old(Circuit()), Circuit()) <==> Circuit().Acyclic())
      ensures MergeSafe(old(Circuit())) ==> Circuit().Acyclic()
      ensures passes > 0 && Circuit() == MergeRun(old(Circuit()), gates, passes).g
      ensures Circuit() == MergeRun(old(Circuit()), gates, passes - 1).g
    {
      ghost var start := Circuit();
      ghost var depth, base := LevelsExist(start);
      var memo: map<nat, nat> := map[];
      var changed := true;
      passes := 0;
      DepthZeroIsMerged(start, fanouts, depth, base);
      while changed
        invariant Between(start, depth, base, memo, passes)
        invariant changed ==> passes <= MaxOf(depth)
        invariant !changed ==> ReadInvertersDiffer(Circuit(), fanouts)
        invariant !changed ==> passes > 0 && Circuit() == MergeRun(start, gates, passes - 1).g
        decreases changed, MaxOf(depth) - passes
      {
        changed, memo := NextPass(start, depth, base, memo, passes);
        passes := passes + 1;
      }
      if start.Acyclic() { SameSolutionsIsSameMeaning(start, Circuit()); }
      if MergeSafe(start) { SafeRunIsAcyclic(start, gates, passes); }
      DifferIsApart(Circuit(), fanouts);
    }

    /** Marks dead the gates that nobody reads, last gate first: a gate dies exactly when all its
        readers are gates listed after it that died and read it as their first input. */
    method RemoveDeadNodes(nor2xb: bool)
      requires Valid() && |dead| == |nodes| && forall n :: 0 <= n < |dead| ==> !dead[n]
      modifies this`fanouts, this`dead
      ensures |dead| == |nodes|
      ensures DeadSoFar(Circuit(), nor2xb, old(fanouts), fanouts, dead, gates, -1)
      ensures forall m: nat, n: nat :: Reads(inputs, m, n) && dead[n] ==> dead[m]
      ensures DeadExactly(Circuit(), nor2xb, dead, gates) && LiveFanouts(Circuit(), fanouts, dead)
      ensures NeededIsLive(Circuit(), dead)
    {
      var i := |gates| - 1;
      while i >= 0
        invariant -1 <= i < |gates| && |dead| == |nodes|
        invariant DeadSoFar(Circuit(), nor2xb, old(fanouts), fanouts, dead, gates, i)
        decreases i
      {
        var g := gates[i];
        assert g in gates;
        DeadStep(Circuit(), nor2xb, old(fanouts), fanouts, dead, gates, i);
        if fanouts[g] == [] && !nodes[g].output {
          LatchGateIsRead(Circuit(), old(fanouts), fanouts, dead, g);
          assert !nodes[g].latchGate;
          if |inputs[g]| == 1 || (nor2xb && nodes[g].cell.isNor2xb) {
            var inp := inputs[g][0];
            fanouts := fanouts[inp := RemoveFanout(fanouts[inp], g)];
            dead := dead[g := true];
          }
        }
        i := i - 1;
      }
      DeadIsReadByDead(Circuit(), nor2xb, old(fanouts), fanouts, dead, gates);
      DeadMeans(Circuit(), nor2xb, old(fanouts), fanouts, dead, gates);
    }

    /** Fills the empty fanout lists: afterwards they are the inverse of the inputs. */
    method CreateFanouts()
      requires Circuit().Valid() && ListsGates(nodes, gates) && LatchGatesFeedLatches(Circuit())
      requires |fanouts| == |nodes| && forall n :: 0 <= n < |fanouts| ==> fanouts[n] == []
      modifies this`fanouts
      ensures Valid() && |fanouts| == |nodes|
      ensures forall n: nat, m: nat :: n < |nodes| ==> (m in fanouts[n] <==> m < |nodes| && n in inputs[m])
      ensures forall n :: 0 <= n < |nodes| ==> Distinct(fanouts[n])
    {
      for n := 0 to |nodes|
        invariant |fanouts| == |nodes|
        invariant forall k :: 0 <= k < |nodes| ==> Distinct(fanouts[k])
        invariant forall k: nat, m: nat :: k < |nodes| ==>
                    (m in fanouts[k] <==> Reads(inputs, m, k) && m < n)
      {
        for i := 0 to |inputs[n]|
          invariant |fanouts| == |nodes|
          invariant forall k :: 0 <= k < |nodes| ==> Distinct(fanouts[k])
          invariant forall k: nat, m: nat :: k < |nodes| ==>
                      (m in fanouts[k] <==> Reads(inputs, m, k) && (m < n || (m == n && k in inputs[n][..i])))
        {
          var src := inputs[n][i];
          assert inputs[n][..i + 1] == inputs[n][..i] + [src];
          assert Reads(inputs, n, src);
          fanouts := fanouts[src := AddFanout(fanouts[src], n)];
        }
        assert inputs[n][..|inputs[n]|] == inputs[n];
      }
      forall n: nat, m: nat | n < |nodes| ensures m in fanouts[n] <==> m < |nodes| && n in inputs[m] {
        assert m in fanouts[n] <==> Reads(inputs, m, n) && m < |nodes|;
      }
    }

    /** The netlist as it has been read: no fanouts yet and no dead nodes. */
    ghost predicate Loaded()
      reads this
    {
      && Circuit().Valid() && ListsGates(nodes, gates) && LatchGatesFeedLatches(Circuit())
      && |fanouts| == |nodes| && (forall n :: 0 <= n < |fanouts| ==> fanouts[n] == [])
      && |dead| == |nodes| && forall n :: 0 <= n < |dead| ==> !dead[n]
    }

    /** The clean-up run on every netlist that is read with rewriting switched on: `merged` is the
        netlist between the two rewrites, after a number of merging passes, and `readers` are the fanouts
        after both. */
    method CleanUp(removeDead: bool, nor2xb: bool)
        returns (ghost merged: Graph, ghost passes: nat, ghost mergedReaders: seq<seq<nat>>,
                 ghost readers: seq<seq<nat>>)
      requires Loaded() && InverterChainsEnd(Circuit())
      modifies this
      ensures SameSolutions(old(Circuit()), merged) && SameSolutions(merged, Circuit())
      ensures SameSolutions(old(Circuit()), Circuit())
      ensures merged == MergeRun(old(Circuit()), gates, passes).g && AreFanouts(merged.inputs, mergedReaders)
      ensures ReadInvertersDiffer(merged, mergedReaders)
      ensures forall rank :: merged.RankedBy(rank) ==> Circuit().RankedBy(rank)
      ensures old(Circuit()).Acyclic() ==> (SameMeaning(old(Circuit()), Circuit()) <==> Circuit().Acyclic())
      ensures MergeSafe(old(Circuit())) ==> SameMeaning(old(Circuit()), Circuit())
      ensures ReadInvertersApart(merged) && MovesInvertersOnly(old(Circuit()), merged)
      ensures SkipsOnly(merged, Circuit()) && AreFanouts(inputs, readers)
      ensures NoBypassableIsRead(Circuit()) && KeepsLatchReads(merged, Circuit())
      ensures |fanouts| == |dead| == |nodes|
      ensures forall n :: 0 <= n < |nodes| ==> Bypassed(Circuit(), fanouts, n)
      ensures if removeDead then DeadSoFar(Circuit(), nor2xb, readers, fanouts, dead, gates, -1)
              else fanouts == readers && dead == old(dead)
      ensures forall m: nat, n: nat :: Reads(inputs, m, n) && dead[n] ==> dead[m]
      ensures removeDead ==> DeadExactly(Circuit(), nor2xb, dead, gates) && LiveFanouts(Circuit(), fanouts, dead)
      ensures NeededIsLive(Circuit(), dead)
    {
      CreateFanouts();
      passes := RewriteInverters();
      merged, mergedReaders := Circuit(), fanouts;
      RewriteBuffers();
      SameSolutionsTransitive(old(Circuit()), merged, Circuit());
      if old(Circuit()).Acyclic() { SameSolutionsIsSameMeaning(old(Circuit()), Circuit()); }
      readers := fanouts;
      if removeDead {
        RemoveDeadNodes(nor2xb);
        BypassedStays(Circuit(), readers, fanouts, dead);
      } else {
        ReadersKeepLive(Circuit(), dead);
      }
    }
  }
}
