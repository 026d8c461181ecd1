/** Gate netlists and the Boolean value every node takes. A node is its position in the node
    table; the value of a gate is its library function on the values of its inputs, and the
    value of anything else (primary input, latch, macro, macro output) is given from outside. */
module Netlists {
  import opened BoolFunctions

  datatype Kind = InputNode | GateNode | LatchNode | MacroNode | MacroOutNode

  /** A library cell: its function, and the flags the library keeps for it. */
  datatype Cell = Cell(fn: Fn, isBuffer: bool, isInverter: bool, isNor2xb: bool)
  {
    ghost predicate Valid() {
      && fn.Valid()
      && (isBuffer ==> fn.arity >= 1 && forall xs :: |xs| == fn.arity ==> fn.Apply(xs) == xs[0])
      && (isInverter ==> fn.arity >= 1 && forall xs :: |xs| == fn.arity ==> fn.Apply(xs) == !xs[0])
      && (isNor2xb ==> fn.arity >= 2)
    }
  }

  /** How the library sets the flags: by comparing the whole function with that of a buffer, an
      inverter, or a NOR of the first and the complemented second input. Other pins do not matter. */
  function LibraryCell(fn: Fn): (c: Cell)
    requires fn.Valid()
    ensures c.Valid() && c.fn == fn
    ensures c.isBuffer <==> fn.arity >= 1 && forall xs :: |xs| == fn.arity ==> fn.Apply(xs) == xs[0]
    ensures c.isInverter <==> fn.arity >= 1 && forall xs :: |xs| == fn.arity ==> fn.Apply(xs) == !xs[0]
    ensures c.isNor2xb <==> fn.arity >= 2 && forall xs :: |xs| == fn.arity ==> fn.Apply(xs) == (!xs[0] && xs[1])
  {
    var all := Vectors(fn.arity);
    Cell(fn,
         fn.arity >= 1 && fn.onset == (set xs | xs in all && xs[0]),
         fn.arity >= 1 && fn.onset == (set xs | xs in all && !xs[0]),
         fn.arity >= 2 && fn.onset == (set xs | xs in all && !(xs[0] || !xs[1])))
  }

  /** What does not change about a node: its kind, its library cell, and two marks. */
  datatype Node = Node(kind: Kind, cell: Cell, latchGate: bool, output: bool)

  datatype Graph = Graph(nodes: seq<Node>, inputs: seq<seq<nat>>)
  {
    ghost predicate Valid() {
      && |inputs| == |nodes|
      && (forall n, i :: 0 <= n < |nodes| && 0 <= i < |inputs[n]| ==> inputs[n][i] < |nodes|)
      && (forall n :: 0 <= n < |nodes| && IsGate(n) ==>
            nodes[n].cell.Valid() && nodes[n].cell.fn.arity == |inputs[n]|)
    }

    predicate IsGate(n: nat)
      requires n < |nodes|
    {
      nodes[n].kind.GateNode?
    }

    /** `rank` witnesses that no gate depends on itself. */
    ghost predicate RankedBy(rank: seq<nat>)
      requires Valid()
    {
      && |rank| == |nodes|
      && forall n, i :: 0 <= n < |nodes| && IsGate(n) && 0 <= i < |inputs[n]| ==>
           rank[inputs[n][i]] < rank[n]
    }

    ghost predicate Acyclic()
      requires Valid()
    {
      exists rank :: RankedBy(rank)
    }
  }

  /** The values `v` gives to the nodes listed in `ids`. */
  function Pick(v: Bits, ids: seq<nat>): (xs: Bits)
    requires forall i :: 0 <= i < |ids| ==> ids[i] < |v|
    ensures |xs| == |ids|
  {
    seq(|ids|, i requires 0 <= i < |ids| => v[ids[i]])
  }

  /** `v` gives every gate the value of its function and every other node its value in `env`. */
  ghost predicate Solves(g: Graph, env: Bits, v: Bits)
    requires g.Valid() && |env| == |g.nodes|
  {
    && |v| == |g.nodes|
    && forall n :: 0 <= n < |g.nodes| ==> v[n] == NodeValue(g, env, v, n)
  }

  ghost function NodeValue(g: Graph, env: Bits, v: Bits, n: nat): bool
    requires g.Valid() && |env| == |v| == |g.nodes| && n < |g.nodes|
  {
    if g.IsGate(n) then g.nodes[n].cell.fn.Apply(Pick(v, g.inputs[n])) else env[n]
  }

  ghost function Eval(g: Graph, rank: seq<nat>, env: Bits, n: nat): bool
    requires g.Valid() && g.RankedBy(rank) && |env| == |g.nodes| && n < |g.nodes|
    decreases rank[n]
  {
    if g.IsGate(n) then
      g.nodes[n].cell.fn.Apply(seq(|g.inputs[n]|, i requires 0 <= i < |g.inputs[n]| =>
        Eval(g, rank, env, g.inputs[n][i])))
    else env[n]
  }

  /** The values of all nodes of an acyclic netlist. */
  ghost function Values(g: Graph, env: Bits): (v: Bits)
    requires g.Valid() && g.Acyclic() && |env| == |g.nodes|
    ensures Solves(g, env, v)
  {
    var rank :| g.RankedBy(rank);
    var v := seq(|g.nodes|, n requires 0 <= n < |g.nodes| => Eval(g, rank, env, n));
    assert Solves(g, env, v) by {
      forall n | 0 <= n < |g.nodes| ensures v[n] == NodeValue(g, env, v, n) {
        if g.IsGate(n) {
          assert Pick(v, g.inputs[n]) == seq(|g.inputs[n]|, i requires 0 <= i < |g.inputs[n]| =>
            Eval(g, rank, env, g.inputs[n][i]));
        }
      }
    }
    v
  }

  /** An acyclic netlist has only one solution, so `Values` does not depend on the ranking. */
  lemma SolutionIsValues(g: Graph, env: Bits, v: Bits)
    requires g.Valid() && g.Acyclic() && |env| == |g.nodes|
    requires Solves(g, env, v)
    ensures v == Values(g, env)
  {
    var rank :| g.RankedBy(rank);
    forall n | 0 <= n < |g.nodes| ensures v[n] == Values(g, env)[n] {
      SolutionsAgree(g, rank, env, v, Values(g, env), n);
    }
  }

  lemma {:induction false} SolutionsAgree(g: Graph, rank: seq<nat>, env: Bits, v: Bits, w: Bits, n: nat)
    requires g.Valid() && g.RankedBy(rank) && |env| == |g.nodes| && n < |g.nodes|
    requires Solves(g, env, v) && Solves(g, env, w)
    ensures v[n] == w[n]
    decreases rank[n]
  {
    if g.IsGate(n) {
      forall i | 0 <= i < |g.inputs[n]| ensures v[g.inputs[n][i]] == w[g.inputs[n][i]] {
        SolutionsAgree(g, rank, env, v, w, g.inputs[n][i]);
      }
      assert Pick(v, g.inputs[n]) == Pick(w, g.inputs[n]);
    }
  }

  /** In every solution a buffer has the value of its first input and an inverter its complement. */
  lemma BufferAndInverterValues(g: Graph, env: Bits, v: Bits, n: nat)
    requires g.Valid() && |env| == |g.nodes| && Solves(g, env, v)
    requires n < |g.nodes| && g.IsGate(n)
    ensures g.nodes[n].cell.isBuffer ==> |g.inputs[n]| >= 1 && v[n] == v[g.inputs[n][0]]
    ensures g.nodes[n].cell.isInverter ==> |g.inputs[n]| >= 1 && v[n] == !v[g.inputs[n][0]]
  {
    var xs := Pick(v, g.inputs[n]);
    assert v[n] == g.nodes[n].cell.fn.Apply(xs);
  }

  /** `n` is `top` or feeds it through gates. */
  ghost predicate Feeds(g: Graph, rank: seq<nat>, n: nat, top: nat)
    requires g.Valid() && g.RankedBy(rank) && top < |g.nodes|
    decreases rank[top]
  {
    n == top ||
    (g.IsGate(top) && exists i :: 0 <= i < |g.inputs[top]| && Feeds(g, rank, n, g.inputs[top][i]))
  }

  /** What feeds a node feeds everything the node feeds. */
  lemma FeedsThrough(g: Graph, rank: seq<nat>, m: nat, top: nat, i: nat)
    requires g.Valid() && g.RankedBy(rank) && top < |g.nodes| && m < |g.nodes|
    requires Feeds(g, rank, m, top) && g.IsGate(m) && i < |g.inputs[m]|
    ensures Feeds(g, rank, g.inputs[m][i], top)
    decreases rank[top]
  {
    if m == top {
      assert Feeds(g, rank, g.inputs[m][i], g.inputs[m][i]);
    } else {
      var j :| 0 <= j < |g.inputs[top]| && Feeds(g, rank, m, g.inputs[top][j]);
      FeedsThrough(g, rank, m, g.inputs[top][j], i);
    }
  }
}
