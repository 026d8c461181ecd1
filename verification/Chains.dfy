/** The graph of bit slices that feed each other, kept as two maps, and the chains found in it. */
module Chains {
  import opened Sequences

  type Edges = map<nat, set<nat>>

  /** The nodes filed under `a`; nothing is filed under a missing key. */
  function Filed(m: Edges, a: nat): (s: set<nat>) {
    if a in m then m[a] else {}
  }

  lemma FiledIs(m: Edges)
    ensures forall a, b :: b in Filed(m, a) <==> a in m && b in m[a]
  {
  }

  function WithEdge(m: Edges, a: nat, b: nat): (r: Edges)
    ensures forall x :: Filed(r, x) == if x == a then Filed(m, a) + {b} else Filed(m, x)
    ensures r.Keys == m.Keys + {a}
  {
    m[a := Filed(m, a) + {b}]
  }

  function WithoutEdge(m: Edges, a: nat, b: nat): (r: Edges)
    requires a in m
    ensures forall x :: Filed(r, x) == if x == a then Filed(m, a) - {b} else Filed(m, x)
    ensures r.Keys == m.Keys
  {
    m[a := m[a] - {b}]
  }

  function WithoutKey(m: Edges, a: nat): (r: Edges)
    ensures forall x :: Filed(r, x) == if x == a then {} else Filed(m, x)
    ensures r.Keys == m.Keys - {a}
  {
    map x | x in m && x != a :: m[x]
  }

  /** Each node of `p` feeds the next one. */
  predicate IsChain(out: Edges, p: seq<nat>) {
    |p| > 0 && forall k :: 0 <= k < |p| ==> GoesOn(out, p, k)
  }

  /** Position `k` of `p` feeds the one after it, if there is one. */
  predicate GoesOn(out: Edges, p: seq<nat>, k: nat)
    requires k < |p|
  {
    k + 1 < |p| ==> p[k + 1] in Filed(out, p[k])
  }

  lemma ChainLonger(out: Edges, p: seq<nat>, next: nat)
    requires IsChain(out, p) && next in Filed(out, p[|p| - 1])
    ensures IsChain(out, p + [next])
  {
    var q := p + [next];
    forall k | 0 <= k < |q| ensures GoesOn(out, q, k) {
      if k < |p| { assert GoesOn(out, p, k); }
    }
  }

  /** A chain that cannot be continued. */
  predicate Ended(out: Edges, p: seq<nat>) {
    IsChain(out, p) && Filed(out, p[|p| - 1]) == {}
  }

  /** `rank` falls along every edge, so no node feeds itself. */
  ghost predicate Falling(out: Edges, rank: nat -> nat) {
    forall a, b :: b in Filed(out, a) ==> rank(b) < rank(a)
  }

  /** `p` continues `l` to an end. */
  predicate Completes(out: Edges, l: seq<nat>, p: seq<nat>) {
    Ended(out, p) && 0 < |l| <= |p| && p[..|l|] == l
  }

  lemma CompletesByOne(out: Edges, l: seq<nat>, p: seq<nat>)
    requires |l| > 0 && Filed(out, l[|l| - 1]) != {}
    ensures Completes(out, l, p) <==>
              |l| < |p| && p[|l|] in Filed(out, l[|l| - 1]) && Completes(out, l + [p[|l|]], p)
  {
    if Completes(out, l, p) {
      assert p[|l| - 1] == p[..|l|][|l| - 1] == l[|l| - 1];
      assert |l| < |p| && GoesOn(out, p, |l| - 1);
      assert p[..|l| + 1] == l + [p[|l|]];
    }
    if |l| < |p| && Completes(out, l + [p[|l|]], p) {
      assert p[..|l|] == p[..|l| + 1][..|l|] == l;
    }
  }

  lemma CompletesAtEnd(out: Edges, l: seq<nat>, p: seq<nat>)
    requires IsChain(out, l) && Filed(out, l[|l| - 1]) == {}
    ensures Completes(out, l, p) <==> p == l
  {
    if Completes(out, l, p) {
      assert p[|l| - 1] == p[..|l|][|l| - 1];
      assert GoesOn(out, p, |l| - 1);
      assert |p| == |l|;
    }
  }

  /** `ps` are the completions of `l` that go on with one of `done`. */
  ghost predicate Completions(out: Edges, l: seq<nat>, done: set<nat>, ps: seq<seq<nat>>) {
    forall p :: p in ps <==> CompletesVia(out, l, done, p)
  }

  predicate CompletesVia(out: Edges, l: seq<nat>, done: set<nat>, p: seq<nat>) {
    |l| < |p| && p[|l|] in done && Completes(out, l + [p[|l|]], p)
  }

  lemma CompletionsStep(out: Edges, l: seq<nat>, next: nat, done: set<nat>, added: seq<seq<nat>>, more: seq<seq<nat>>)
    requires next !in done && Distinct(added) && Distinct(more) && Completions(out, l, done, added)
    requires forall p :: p in more <==> Completes(out, l + [next], p)
    ensures Distinct(added + more) && Completions(out, l, done + {next}, added + more)
  {
    forall p ensures p in more <==> CompletesVia(out, l, {next}, p) {
      if p in more { assert p[|l|] == p[..|l| + 1][|l|]; }
    }
    AppendKeepsDistinct(added, more);
  }

  /** Without loops every chain can be continued to an end. */
  lemma {:induction false} ChainCanEnd(out: Edges, rank: nat -> nat, l: seq<nat>)
    requires Falling(out, rank) && IsChain(out, l)
    ensures exists p :: Completes(out, l, p)
    decreases rank(l[|l| - 1])
  {
    if Filed(out, l[|l| - 1]) == {} {
      assert l[..|l|] == l;
      assert Completes(out, l, l);
    } else {
      var next :| next in Filed(out, l[|l| - 1]);
      ChainLonger(out, l, next);
      ChainCanEnd(out, rank, l + [next]);
      var p :| Completes(out, l + [next], p);
      assert p[..|l|] == p[..|l| + 1][..|l|];
      assert Completes(out, l, p);
    }
  }

  /** What is done with the chains found. */
  class ChainUser {
    var used: seq<seq<nat>>

    constructor ()
      ensures used == []
    {
      used := [];
    }

    method Use(l: seq<nat>)
      modifies this
      ensures used == old(used) + [l]
    {
      used := used + [l];
    }
  }

  /** The edges from `a` to the nodes of `s`, and those from the nodes of `s` to `a`. */
  method EdgesFrom(a: nat, s: set<nat>) returns (edges: seq<(nat, nat)>)
    ensures Distinct(edges) && forall p :: p in edges <==> p.0 == a && p.1 in s
  {
    edges := [];
    var todo := s;
    while todo != {}
      invariant todo <= s && Distinct(edges) && forall p :: p in edges <==> p.0 == a && p.1 in s - todo
    {
      var b :| b in todo;
      edges := edges + [(a, b)];
      todo := todo - {b};
    }
  }

  method EdgesInto(a: nat, s: set<nat>) returns (edges: seq<(nat, nat)>)
    ensures Distinct(edges) && forall p :: p in edges <==> p.1 == a && p.0 in s
  {
    edges := [];
    var todo := s;
    while todo != {}
      invariant todo <= s && Distinct(edges) && forall p :: p in edges <==> p.1 == a && p.0 in s - todo
    {
      var b :| b in todo;
      edges := edges + [(b, a)];
      todo := todo - {b};
    }
  }

  /** The list of all edges at `a` repeats one exactly if `a` feeds itself: that edge leaves and enters. */
  lemma ListedTwice(a: nat, out: set<nat>, ins: set<nat>, leaving: seq<(nat, nat)>, entering: seq<(nat, nat)>)
    requires Distinct(leaving) && forall p :: p in leaving <==> p.0 == a && p.1 in out
    requires Distinct(entering) && forall p :: p in entering <==> p.1 == a && p.0 in ins
    requires a in out <==> a in ins
    ensures Distinct(leaving + entering) <==> a !in out
  {
    if a in out {
      assert (a, a) in leaving && (a, a) in entering;
      var i :| 0 <= i < |leaving| && leaving[i] == (a, a);
      var j :| 0 <= j < |entering| && entering[j] == (a, a);
      assert (leaving + entering)[i] == (leaving + entering)[|leaving| + j];
    } else {
      AppendKeepsDistinct(leaving, entering);
    }
  }

  class BitsliceGraph {
    var edgesIn: Edges
    var edgesOut: Edges

    /** Both maps tell of the same edges. */
    ghost predicate Valid()
      reads this
    {
      forall a, b {:trigger b in Filed(edgesOut, a)} {:trigger a in Filed(edgesIn, b)} ::
        b in Filed(edgesOut, a) <==> a in Filed(edgesIn, b)
    }

    constructor ()
      ensures Valid() && edgesIn == map[] && edgesOut == map[]
    {
      edgesIn, edgesOut := map[], map[];
    }

    method AddEdge(a: nat, b: nat)
      requires Valid()
      modifies this
      ensures Valid()
      ensures forall x, y :: y in Filed(edgesOut, x) <==> (x == a && y == b) || y in Filed(old(edgesOut), x)
      ensures edgesOut.Keys == old(edgesOut).Keys + {a} && edgesIn.Keys == old(edgesIn).Keys + {b}
    {
      edgesOut := WithEdge(edgesOut, a, b);
      edgesIn := WithEdge(edgesIn, b, a);
    }

    /** The edge goes and its ends stay, even without edges; `found` is whether there was such an edge, which
        is asserted. */
    method RemoveEdge(a: nat, b: nat) returns (found: bool)
      requires Valid()
      modifies this
      ensures Valid() && (found <==> b in Filed(old(edgesOut), a))
      ensures forall x, y :: y in Filed(edgesOut, x) <==> y in Filed(old(edgesOut), x) && !(x == a && y == b)
      ensures edgesOut.Keys == old(edgesOut).Keys && edgesIn.Keys == old(edgesIn).Keys
    {
      found := b in Filed(edgesOut, a) && a in Filed(edgesIn, b);
      if found {
        edgesOut := WithoutEdge(edgesOut, a, b);
        edgesIn := WithoutEdge(edgesIn, b, a);
      }
    }

    /** The node goes with all its edges, unless it feeds itself: the edge to itself is listed twice, as one
        that leaves it and as one that enters it, and is not found the second time. */
    method RemoveNode(a: nat) returns (ok: bool)
      requires Valid()
      modifies this
      ensures Valid() && (ok <==> a !in Filed(old(edgesOut), a))
      ensures ok ==> forall x, y :: y in Filed(edgesOut, x) <==> y in Filed(old(edgesOut), x) && x != a && y != a
      ensures ok ==> edgesOut.Keys == old(edgesOut).Keys - {a} && edgesIn.Keys == old(edgesIn).Keys - {a}
    {
      var leaving := EdgesFrom(a, Filed(edgesOut, a));
      var entering := EdgesInto(a, Filed(edgesIn, a));
      var edges := leaving + entering;
      ok := RemoveEdges(edges);
      ListedTwice(a, Filed(old(edgesOut), a), Filed(old(edgesIn), a), leaving, entering);
      if ok {
        assert Filed(edgesOut, a) == {} && Filed(edgesIn, a) == {};
        edgesOut := WithoutKey(edgesOut, a);
        edgesIn := WithoutKey(edgesIn, a);
      }
    }

    /** Removes the edges one by one until one is not found. */
    method RemoveEdges(edges: seq<(nat, nat)>) returns (ok: bool)
      requires Valid() && forall p :: p in edges ==> p.1 in Filed(edgesOut, p.0)
      modifies this
      ensures Valid() && (ok <==> Distinct(edges))
      ensures ok ==>
                forall x: nat, y: nat ::
                  y in Filed(edgesOut, x) <==> y in Filed(old(edgesOut), x) && (x, y) !in edges
      ensures edgesOut.Keys == old(edgesOut).Keys && edgesIn.Keys == old(edgesIn).Keys
    {
      var i := 0;
      while i < |edges|
        invariant 0 <= i <= |edges| && Valid() && Distinct(edges[..i])
        invariant edgesOut.Keys == old(edgesOut).Keys && edgesIn.Keys == old(edgesIn).Keys
        invariant forall x: nat, y: nat ::
                    y in Filed(edgesOut, x) <==> y in Filed(old(edgesOut), x) && (x, y) !in edges[..i]
      {
        assert (edges[i].0, edges[i].1) == edges[i];
        assert edges[..i + 1] == edges[..i] + [edges[i]];
        var found := RemoveEdge(edges[i].0, edges[i].1);
        if !found { return false; }
        i := i + 1;
      }
      assert edges[..i] == edges;
      return true;
    }

    /** Passes every way to continue `l` to an end on to `user`, each once. */
    method EnumerateFrom(start: nat, user: ChainUser, l: seq<nat>, ghost rank: nat -> nat)
        returns (ghost added: seq<seq<nat>>)
      requires Falling(edgesOut, rank) && IsChain(edgesOut, l) && l[|l| - 1] == start
      modifies user
      ensures user.used == old(user.used) + added && Distinct(added)
      ensures forall p :: p in added <==> Completes(edgesOut, l, p)
      decreases rank(start)
    {
      added := [];
      if |Filed(edgesOut, start)| > 0 {
        var todo := edgesOut[start];
        while todo != {}
          invariant todo <= edgesOut[start]
          invariant user.used == old(user.used) + added && Distinct(added)
          invariant Completions(edgesOut, l, edgesOut[start] - todo, added)
        {
          var next :| next in todo;
          todo := todo - {next};
          ChainLonger(edgesOut, l, next);
          ghost var more := EnumerateFrom(next, user, l + [next], rank);
          CompletionsStep(edgesOut, l, next, edgesOut[start] - todo - {next}, added, more);
          assert edgesOut[start] - todo == edgesOut[start] - todo - {next} + {next};
          added := added + more;
        }
        forall p ensures p in added <==> Completes(edgesOut, l, p) {
          CompletesByOne(edgesOut, l, p);
        }
      } else {
        user.Use(l);
        added := [l];
        forall p ensures p in added <==> Completes(edgesOut, l, p) {
          CompletesAtEnd(edgesOut, l, p);
        }
      }
    }

    /** The user gets exactly the chains that start at a key without incoming edge and cannot be
        continued, each once. */
    method EnumerateChains(user: ChainUser, ghost rank: nat -> nat) returns (ghost added: seq<seq<nat>>)
      requires Valid() && Falling(edgesOut, rank)
      modifies user
      ensures user.used == old(user.used) + added && Distinct(added)
      ensures forall p :: p in added <==> IsMaximal(edgesOut, p)
    {
      added := [];
      var todo := edgesOut.Keys;
      while todo != {}
        invariant todo <= edgesOut.Keys
        invariant user.used == old(user.used) + added && Distinct(added)
        invariant forall p :: p in added <==>
                    Ended(edgesOut, p) && p[0] in edgesOut.Keys - todo && Filed(edgesIn, p[0]) == {}
      {
        var n :| n in todo;
        todo := todo - {n};
        if |Filed(edgesIn, n)| == 0 {
          ghost var more := EnumerateFrom(n, user, [n], rank);
          forall p ensures p in more <==> Ended(edgesOut, p) && p[0] == n {
            if |p| > 0 { assert p[..1] == [p[0]]; }
          }
          AppendKeepsDistinct(added, more);
          added := added + more;
        }
      }
      forall p ensures p in added <==> IsMaximal(edgesOut, p) {
        if |p| > 0 { EndedIsMaximal(edgesOut, edgesIn, p); }
      }
    }
  }

  /** There is an edge to the node at position `k` from the one before it. */
  ghost predicate IsFed(out: Edges, p: seq<nat>, k: nat)
    requires 0 < k < |p|
  {
    p[k - 1] in out && p[k] in out[p[k - 1]]
  }

  /** A chain from a key without incoming edge to a node without outgoing edge. */
  ghost predicate IsMaximal(out: Edges, p: seq<nat>) {
    && |p| > 0 && p[0] in out && (forall a :: a in out ==> p[0] !in out[a])
    && (forall k :: 0 < k < |p| ==> IsFed(out, p, k))
    && (p[|p| - 1] in out ==> out[p[|p| - 1]] == {})
  }

  lemma ChainFeeds(out: Edges, p: seq<nat>, k: nat)
    requires IsChain(out, p) && 0 < k < |p|
    ensures IsFed(out, p, k)
  {
    var before, here := p[k - 1], p[k];
    assert GoesOn(out, p, k - 1);
    assert here in Filed(out, before);
  }

  lemma EndedIsMaximal(out: Edges, ins: Edges, p: seq<nat>)
    requires |p| > 0 && forall a, b :: b in Filed(out, a) <==> a in Filed(ins, b)
    ensures IsMaximal(out, p) <==> Ended(out, p) && p[0] in out && Filed(ins, p[0]) == {}
  {
    if IsMaximal(out, p) {
      forall k | 0 <= k < |p| ensures GoesOn(out, p, k) {
        if k + 1 < |p| {
          assert IsFed(out, p, k + 1);
        }
      }
      forall a ensures a !in Filed(ins, p[0]) {
        assert a in out ==> p[0] !in out[a];
        assert p[0] !in Filed(out, a);
      }
    }
    if Ended(out, p) && Filed(ins, p[0]) == {} {
      forall k | 0 < k < |p| ensures IsFed(out, p, k) {
        ChainFeeds(out, p, k);
      }
      forall a | a in out ensures p[0] !in out[a] {
        assert p[0] !in Filed(out, a);
      }
    }
  }
}
