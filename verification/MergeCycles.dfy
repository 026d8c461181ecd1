/** When merging inverters can close a loop: of a single redirection, and of the whole merge. Inverters
    with one pin never do; with a second, unused pin they can. And where inverters form a loop already, what
    the merge keeps and why it need not end. */
module MergeCycles {
  import opened BoolFunctions
  import opened Netlists
  import opened Rewriting
  import opened Sequences

  /** No gate reading `oldn` feeds `newn`. */
  ghost predicate NoReaderFeeds(g: Graph, rank: seq<nat>, oldn: nat, newn: nat)
    requires g.Valid() && g.RankedBy(rank) && newn < |g.nodes|
  {
    forall m: nat :: m < |g.nodes| && g.IsGate(m) && Reads(g.inputs, m, oldn) ==> !Feeds(g, rank, m, newn)
  }

  /** Redirecting the readers of `oldn` to `newn` keeps the netlist free of loops if and only if none
      of these readers feeds `newn`. */
  lemma RedirectKeepsAcyclicIff(g: Graph, rank: seq<nat>, oldn: nat, newn: nat)
    requires g.Valid() && g.RankedBy(rank) && oldn < |g.nodes| && newn < |g.nodes| && oldn != newn
    ensures Rewired(g, oldn, newn).Acyclic() <==> NoReaderFeeds(g, rank, oldn, newn)
  {
    var h := Rewired(g, oldn, newn);
    if NoReaderFeeds(g, rank, oldn, newn) {
      LiftedRank(g, rank, oldn, newn);
    }
    if h.Acyclic() {
      var after :| h.RankedBy(after);
      forall m: nat | m < |g.nodes| && g.IsGate(m) && Feeds(g, rank, m, newn)
        ensures !Reads(g.inputs, m, oldn)
      {
        FeedersDoNotReadOld(g, rank, oldn, newn, after, newn, m);
      }
    }
  }

  /** Everything that does not feed `newn` can be ranked above everything that does. */
  lemma LiftedRank(g: Graph, rank: seq<nat>, oldn: nat, newn: nat)
    requires g.Valid() && g.RankedBy(rank) && oldn < |g.nodes| && newn < |g.nodes| && oldn != newn
    requires NoReaderFeeds(g, rank, oldn, newn)
    ensures Rewired(g, oldn, newn).Acyclic()
  {
    var h := Rewired(g, oldn, newn);
    var lifted := seq(|g.nodes|, n requires 0 <= n < |g.nodes| =>
      if Feeds(g, rank, n, newn) then rank[n] else rank[n] + MaxOf(rank) + 1);
    forall n: nat, i: nat | n < |g.nodes| && g.IsGate(n) && i < |g.inputs[n]|
      ensures lifted[h.inputs[n][i]] < lifted[n]
    {
      assert Reads(g.inputs, n, g.inputs[n][i]);
      if Feeds(g, rank, n, newn) {
        FeedsThrough(g, rank, n, newn, i);
      }
      assert rank[newn] <= MaxOf(rank);
    }
    assert h.RankedBy(lifted);
  }

  /** Walking down from `newn`: ranks of the loop-free result fall, so no reader of `oldn` is met. */
  lemma {:induction false} FeedersDoNotReadOld(g: Graph, rank: seq<nat>, oldn: nat, newn: nat, after: seq<nat>,
      top: nat, m: nat)
    requires g.Valid() && g.RankedBy(rank) && oldn < |g.nodes| && newn < |g.nodes| && oldn != newn
    requires Rewired(g, oldn, newn).RankedBy(after)
    requires top < |g.nodes| && after[top] <= after[newn] && m < |g.nodes| && g.IsGate(m)
    requires Feeds(g, rank, m, top)
    ensures !Reads(g.inputs, m, oldn)
    decreases rank[top]
  {
    var h := Rewired(g, oldn, newn);
    if g.IsGate(top) {
      forall i | 0 <= i < |g.inputs[top]| ensures g.inputs[top][i] != oldn {
        assert after[h.inputs[top][i]] < after[top];
      }
      if m != top {
        var i :| 0 <= i < |g.inputs[top]| && Feeds(g, rank, m, g.inputs[top][i]);
        assert h.inputs[top][i] == g.inputs[top][i];
        FeedersDoNotReadOld(g, rank, oldn, newn, after, g.inputs[top][i], m);
      }
    }
  }

  // ---- one representative for every class of twins ----

  /** `rep` names one of its twins for every node, and the same one for all twins. */
  ghost predicate RepOk(depth: seq<nat>, base: seq<nat>, rep: seq<nat>) {
    && |rep| == |depth| == |base|
    && (forall x :: 0 <= x < |rep| ==> rep[x] < |rep| && Twins(depth, base, x, rep[x]))
    && forall a: nat, b: nat :: a < |rep| && b < |rep| && Twins(depth, base, a, b) ==> rep[a] == rep[b]
  }

  /** The nodes of `ids` replaced by their representatives, as far as they are in `done`. */
  function Represented(ids: seq<nat>, rep: seq<nat>, done: seq<nat>): (r: seq<nat>)
    requires forall i :: 0 <= i < |ids| ==> ids[i] < |rep|
    ensures |r| == |ids|
  {
    seq(|ids|, i requires 0 <= i < |ids| => if ids[i] in done then rep[ids[i]] else ids[i])
  }

  /** The netlist in which the nodes `done` are read through their representatives. */
  function Replaced(g: Graph, rep: seq<nat>, done: seq<nat>): (h: Graph)
    requires g.Valid() && |rep| == |g.nodes|
    ensures h.nodes == g.nodes && |h.inputs| == |g.inputs|
    ensures (forall x :: 0 <= x < |rep| ==> rep[x] < |rep|) ==> h.Valid()
  {
    var h := g.(inputs := seq(|g.inputs|, m requires 0 <= m < |g.inputs| => Represented(g.inputs[m], rep, done)));
    assert forall m :: 0 <= m < |g.inputs| ==> |h.inputs[m]| == |g.inputs[m]|;
    h
  }

  lemma RepOfRep(g: Graph, depth: seq<nat>, base: seq<nat>, rep: seq<nat>, x: nat)
    requires g.Valid() && Levelled(g, depth, base) && RepOk(depth, base, rep) && x < |g.nodes|
    ensures rep[x] < |g.nodes| && rep[rep[x]] == rep[x]
    ensures InverterGate(g.nodes, x) ==> InverterGate(g.nodes, rep[x])
    ensures !InverterGate(g.nodes, x) ==> rep[x] == x
  {
    assert Twins(depth, base, x, rep[x]);
    assert LevelAt(g, depth, base, x) && LevelAt(g, depth, base, rep[x]);
  }

  lemma TwinsOfInputs(g: Graph, depth: seq<nat>, base: seq<nat>, rep: seq<nat>, a: nat, b: nat)
    requires g.Valid() && Levelled(g, depth, base) && RepOk(depth, base, rep)
    requires a < |g.nodes| && b < |g.nodes| && InverterGate(g.nodes, a) && InverterGate(g.nodes, b)
    ensures Input0(g, a) < |g.nodes| && Input0(g, b) < |g.nodes|
    ensures rep[Input0(g, a)] == rep[Input0(g, b)] <==> rep[a] == rep[b]
  {
    assert LevelAt(g, depth, base, a) && LevelAt(g, depth, base, b);
    RepOfRep(g, depth, base, rep, a);
    RepOfRep(g, depth, base, rep, b);
    RepOfRep(g, depth, base, rep, Input0(g, a));
    RepOfRep(g, depth, base, rep, Input0(g, b));
    assert Twins(depth, base, a, rep[a]) && Twins(depth, base, b, rep[b]);
    assert Twins(depth, base, Input0(g, a), rep[Input0(g, a)]) && Twins(depth, base, Input0(g, b), rep[Input0(g, b)]);
  }

  // ---- a gate list in which the merge keeps just the representatives ----

  /** Every gate comes after the gates of lower depth and not before its representative. */
  ghost predicate LayeredAt(g: Graph, depth: seq<nat>, rep: seq<nat>, gates: seq<nat>, j: nat)
    requires |rep| == |depth| == |g.nodes| && j < |gates|
  {
    && gates[j] < |g.nodes|
    && (forall x: nat :: x < |g.nodes| && g.IsGate(x) && depth[x] < depth[gates[j]] ==> x in gates[..j])
    && (rep[gates[j]] == gates[j] || rep[gates[j]] in gates[..j])
  }

  ghost predicate Layered(g: Graph, depth: seq<nat>, rep: seq<nat>, gates: seq<nat>)
    requires |rep| == |depth| == |g.nodes|
  {
    && Distinct(gates) && (forall n :: n in gates ==> n < |g.nodes| && g.IsGate(n))
    && forall j :: 0 <= j < |gates| ==> LayeredAt(g, depth, rep, gates, j)
  }

  /** The memo map after the gates `done`: the representatives among them, each under the
      representative of its input. */
  ghost predicate MemoOfReps(g: Graph, rep: seq<nat>, done: seq<nat>, memo: map<nat, nat>)
    requires g.Valid() && |rep| == |g.nodes|
  {
    && (forall n: nat {:trigger RecordedAs(g, rep, memo, n)} ::
          n in done && n < |g.nodes| && InverterGate(g.nodes, n) && rep[n] == n ==> RecordedAs(g, rep, memo, n))
    && (forall k :: k in memo ==> memo[k] in done && memo[k] < |g.nodes| && InverterGate(g.nodes, memo[k]) &&
                                  rep[memo[k]] == memo[k] && rep[Input0(g, memo[k])] == k)
  }

  ghost predicate RecordedAs(g: Graph, rep: seq<nat>, memo: map<nat, nat>, n: nat)
    requires g.Valid() && |rep| == |g.nodes| && n < |g.nodes| && InverterGate(g.nodes, n)
  {
    rep[Input0(g, n)] in memo && memo[rep[Input0(g, n)]] == n
  }

  lemma ReadsRepresentative(g: Graph, depth: seq<nat>, base: seq<nat>, rep: seq<nat>, done: seq<nat>, x: nat)
    requires g.Valid() && Levelled(g, depth, base) && RepOk(depth, base, rep)
    requires x < |g.nodes| && InverterGate(g.nodes, x)
    requires forall y: nat :: y < |g.nodes| && g.IsGate(y) && depth[y] < depth[x] ==> y in done
    ensures Input0(g, x) < |g.nodes| && Input0(Replaced(g, rep, done), x) == rep[Input0(g, x)]
  {
    assert LevelAt(g, depth, base, x);
    RepOfRep(g, depth, base, rep, Input0(g, x));
  }

  /** Replacing one more node is redirecting its readers. */
  lemma ReplaceNext(g: Graph, depth: seq<nat>, base: seq<nat>, rep: seq<nat>, done: seq<nat>, x: nat)
    requires g.Valid() && Levelled(g, depth, base) && RepOk(depth, base, rep) && x < |g.nodes|
    requires x !in done || rep[x] == x
    ensures Rewired(Replaced(g, rep, done), x, rep[x]) == Replaced(g, rep, done + [x])
    ensures rep[x] == x ==> Replaced(g, rep, done + [x]) == Replaced(g, rep, done)
  {
    var h, k := Replaced(g, rep, done), Replaced(g, rep, done + [x]);
    forall y: nat | y < |g.nodes| ensures rep[y] == x ==> rep[x] == x { RepOfRep(g, depth, base, rep, y); }
    forall m | 0 <= m < |g.inputs| ensures Subst(h.inputs[m], x, rep[x]) == k.inputs[m] {}
    if rep[x] == x {
      forall m | 0 <= m < |g.inputs| ensures h.inputs[m] == k.inputs[m] {}
    }
  }

  /** The state of a merge in which the gates `done` have been visited. */
  ghost predicate Pictured(g: Graph, rep: seq<nat>, done: seq<nat>, s: MergeState)
    requires g.Valid() && |rep| == |g.nodes|
  {
    s.g == Replaced(g, rep, done) && MemoOfReps(g, rep, done, s.memo)
  }

  /** One step of the merge keeps the picture: representatives are recorded, others redirected. */
  lemma MergeOneOfLayered(g: Graph, depth: seq<nat>, base: seq<nat>, rep: seq<nat>, gates: seq<nat>, i: nat,
      s: MergeState)
    requires g.Valid() && Levelled(g, depth, base) && RepOk(depth, base, rep)
    requires Layered(g, depth, rep, gates) && i < |gates|
    requires Pictured(g, rep, gates[..i], s)
    ensures Pictured(g, rep, gates[..i + 1], MergeOne(s, gates[i]))
  {
    var x, done := gates[i], gates[..i];
    assert gates[..i + 1] == done + [x] && LayeredAt(g, depth, rep, gates, i);
    assert x !in done;
    ReplaceNext(g, depth, base, rep, done, x);
    RepOfRep(g, depth, base, rep, x);
    if InverterGate(g.nodes, x) {
      ReadsRepresentative(g, depth, base, rep, done, x);
      if rep[x] == x {
        MemoRecords(g, depth, base, rep, done, x, s.memo);
      } else {
        MemoRedirects(g, depth, base, rep, done, x, s.memo);
      }
    } else {
      MemoSkips(g, rep, done, x, s.memo);
    }
  }

  lemma MemoSkips(g: Graph, rep: seq<nat>, done: seq<nat>, x: nat, memo: map<nat, nat>)
    requires g.Valid() && |rep| == |g.nodes| && MemoOfReps(g, rep, done, memo) && x < |g.nodes|
    requires !InverterGate(g.nodes, x) || rep[x] != x
    ensures MemoOfReps(g, rep, done + [x], memo)
  {
  }

  lemma MemoRedirects(g: Graph, depth: seq<nat>, base: seq<nat>, rep: seq<nat>, done: seq<nat>, x: nat,
      memo: map<nat, nat>)
    requires g.Valid() && Levelled(g, depth, base) && RepOk(depth, base, rep) && MemoOfReps(g, rep, done, memo)
    requires x < |g.nodes| && InverterGate(g.nodes, x) && rep[x] != x && rep[x] in done
    ensures Input0(g, x) < |rep| && rep[Input0(g, x)] in memo && memo[rep[Input0(g, x)]] == rep[x]
    ensures MemoOfReps(g, rep, done + [x], memo)
  {
    RepOfRep(g, depth, base, rep, x);
    TwinsOfInputs(g, depth, base, rep, rep[x], x);
    assert RecordedAs(g, rep, memo, rep[x]);
    MemoSkips(g, rep, done, x, memo);
  }

  lemma MemoRecords(g: Graph, depth: seq<nat>, base: seq<nat>, rep: seq<nat>, done: seq<nat>, x: nat,
      memo: map<nat, nat>)
    requires g.Valid() && Levelled(g, depth, base) && RepOk(depth, base, rep) && MemoOfReps(g, rep, done, memo)
    requires x < |g.nodes| && InverterGate(g.nodes, x) && rep[x] == x && x !in done
    ensures Input0(g, x) < |rep| && rep[Input0(g, x)] !in memo
    ensures MemoOfReps(g, rep, done + [x], memo[rep[Input0(g, x)] := x])
  {
    TwinsOfInputs(g, depth, base, rep, x, x);
    var k := rep[Input0(g, x)];
    if k in memo {
      TwinsOfInputs(g, depth, base, rep, memo[k], x);
    }
    var after := memo[k := x];
    forall n: nat | n in done + [x] && n < |g.nodes| && InverterGate(g.nodes, n) && rep[n] == n
      ensures RecordedAs(g, rep, after, n)
    {
      if n != x { assert RecordedAs(g, rep, memo, n); }
    }
  }

  lemma NothingReplaced(g: Graph, rep: seq<nat>)
    requires g.Valid() && |rep| == |g.nodes|
    ensures Pictured(g, rep, [], MergeState(g, map[]))
  {
    forall m | 0 <= m < |g.inputs| ensures Represented(g.inputs[m], rep, []) == g.inputs[m] {}
    assert Replaced(g, rep, []).inputs == g.inputs;
  }

  lemma {:induction false} MergePassOfLayered(g: Graph, depth: seq<nat>, base: seq<nat>, rep: seq<nat>, gates: seq<nat>,
      i: nat)
    requires g.Valid() && Levelled(g, depth, base) && RepOk(depth, base, rep)
    requires Layered(g, depth, rep, gates) && i <= |gates|
    ensures Pictured(g, rep, gates[..i], MergePass(MergeState(g, map[]), gates[..i]))
  {
    if i == 0 {
      NothingReplaced(g, rep);
      assert gates[..0] == [];
    } else {
      var j, start := i - 1, MergeState(g, map[]);
      assert Pictured(g, rep, gates[..j], MergePass(start, gates[..j])) by {
        MergePassOfLayered(g, depth, base, rep, gates, j);
      }
      assert MergePass(start, gates[..i]) == MergeOne(MergePass(start, gates[..j]), gates[j]) by {
        MergePassNext(start, gates, j);
      }
      MergeOneOfLayered(g, depth, base, rep, gates, j, MergePass(start, gates[..j]));
    }
  }

  /** Once all gates are visited, another pass changes nothing. */
  lemma MergeOneIsDone(g: Graph, depth: seq<nat>, base: seq<nat>, rep: seq<nat>, gates: seq<nat>, x: nat, s: MergeState)
    requires g.Valid() && Levelled(g, depth, base) && RepOk(depth, base, rep)
    requires ListsGates(g.nodes, gates) && Pictured(g, rep, gates, s)
    ensures MergeOne(s, x) == s
  {
    if x < |g.nodes| && InverterGate(g.nodes, x) {
      assert x in gates;
      RepOfRep(g, depth, base, rep, x);
      ReadsRepresentative(g, depth, base, rep, gates, x);
      TwinsOfInputs(g, depth, base, rep, rep[x], x);
      assert RecordedAs(g, rep, s.memo, rep[x]);
      if rep[x] != x {
        ReplaceNext(g, depth, base, rep, gates, rep[x]);
        forall m: nat ensures !Reads(s.g.inputs, m, x) {
          if m < |g.inputs| {
            forall i | 0 <= i < |g.inputs[m]| ensures s.g.inputs[m][i] != x {
              RepOfRep(g, depth, base, rep, g.inputs[m][i]);
            }
          }
        }
        RedirectUnread(s.g.inputs, x, rep[x]);
      }
    }
  }

  lemma {:induction false} MergePassIsDone(g: Graph, depth: seq<nat>, base: seq<nat>, rep: seq<nat>, gates: seq<nat>,
      ids: seq<nat>, s: MergeState)
    requires g.Valid() && Levelled(g, depth, base) && RepOk(depth, base, rep)
    requires ListsGates(g.nodes, gates) && Pictured(g, rep, gates, s)
    ensures MergePass(s, ids) == s
    decreases |ids|
  {
    if ids != [] {
      MergePassIsDone(g, depth, base, rep, gates, ids[..|ids| - 1], s);
      MergeOneIsDone(g, depth, base, rep, gates, ids[|ids| - 1], s);
    }
  }

  /** So the merge in this order reads every class of twins through its representative. */
  lemma {:induction false} MergeRunOfLayered(g: Graph, depth: seq<nat>, base: seq<nat>, rep: seq<nat>, gates: seq<nat>,
      passes: nat)
    requires g.Valid() && Levelled(g, depth, base) && RepOk(depth, base, rep)
    requires ListsGates(g.nodes, gates) && Layered(g, depth, rep, gates) && passes > 0
    ensures Pictured(g, rep, gates, MergeRun(g, gates, passes))
    decreases passes
  {
    if passes == 1 {
      MergePassOfLayered(g, depth, base, rep, gates, |gates|);
      assert gates[..|gates|] == gates;
      assert MergeRun(g, gates, 0) == MergeState(g, map[]);
    } else {
      MergeRunOfLayered(g, depth, base, rep, gates, passes - 1);
      MergePassIsDone(g, depth, base, rep, gates, gates, MergeRun(g, gates, passes - 1));
    }
  }

  // ---- every choice of representatives has such a gate list ----

  predicate InLayer(g: Graph, depth: seq<nat>, rep: seq<nat>, d: nat, isRep: bool, n: nat)
    requires |rep| == |depth| == |g.nodes|
  {
    n < |g.nodes| && g.IsGate(n) && depth[n] == d && (rep[n] == n <==> isRep)
  }

  /** The nodes below `n` in the layer. */
  function Layer(g: Graph, depth: seq<nat>, rep: seq<nat>, d: nat, isRep: bool, n: nat): (ids: seq<nat>)
    requires |rep| == |depth| == |g.nodes|
    ensures Distinct(ids) && forall x: nat :: x in ids <==> x < n && InLayer(g, depth, rep, d, isRep, x)
  {
    if n == 0 then []
    else Layer(g, depth, rep, d, isRep, n - 1) + if InLayer(g, depth, rep, d, isRep, n - 1) then [n - 1] else []
  }

  /** All gates of depth below `d`, layer by layer, representatives first. */
  function Layers(g: Graph, depth: seq<nat>, rep: seq<nat>, d: nat): (ids: seq<nat>)
    requires |rep| == |depth| == |g.nodes|
    ensures forall x: nat :: x in ids <==> x < |g.nodes| && g.IsGate(x) && depth[x] < d
  {
    if d == 0 then []
    else Layers(g, depth, rep, d - 1) + Layer(g, depth, rep, d - 1, true, |g.nodes|)
         + Layer(g, depth, rep, d - 1, false, |g.nodes|)
  }

  lemma {:induction false} LayersAreLayered(g: Graph, depth: seq<nat>, base: seq<nat>, rep: seq<nat>, d: nat)
    requires g.Valid() && Levelled(g, depth, base) && RepOk(depth, base, rep)
    ensures Layered(g, depth, rep, Layers(g, depth, rep, d))
    decreases d
  {
    if d > 0 {
      LayersAreLayered(g, depth, base, rep, d - 1);
      TwoLayersOnTop(g, depth, base, rep, Layers(g, depth, rep, d - 1), d - 1);
    }
  }

  lemma TwoLayersOnTop(g: Graph, depth: seq<nat>, base: seq<nat>, rep: seq<nat>, low: seq<nat>, d: nat)
    requires g.Valid() && Levelled(g, depth, base) && RepOk(depth, base, rep) && Layered(g, depth, rep, low)
    requires forall x: nat :: x in low <==> x < |g.nodes| && g.IsGate(x) && depth[x] < d
    ensures Layered(g, depth, rep, low + Layer(g, depth, rep, d, true, |g.nodes|)
                                   + Layer(g, depth, rep, d, false, |g.nodes|))
  {
    var reps, others := Layer(g, depth, rep, d, true, |g.nodes|), Layer(g, depth, rep, d, false, |g.nodes|);
    assert Layered(g, depth, rep, low + reps) by { LayerOnTop(g, depth, rep, low, reps, d); }
    OthersHaveReps(g, depth, base, rep, d);
    LayerOnTop(g, depth, rep, low + reps, others, d);
  }

  lemma OthersHaveReps(g: Graph, depth: seq<nat>, base: seq<nat>, rep: seq<nat>, d: nat)
    requires g.Valid() && Levelled(g, depth, base) && RepOk(depth, base, rep)
    ensures forall x ::
              x in Layer(g, depth, rep, d, false, |g.nodes|) ==> rep[x] in Layer(g, depth, rep, d, true, |g.nodes|)
  {
    forall x | x in Layer(g, depth, rep, d, false, |g.nodes|)
      ensures rep[x] in Layer(g, depth, rep, d, true, |g.nodes|)
    {
      assert InLayer(g, depth, rep, d, false, x);
      RepOfRep(g, depth, base, rep, x);
      assert Twins(depth, base, x, rep[x]);
      assert InLayer(g, depth, rep, d, true, rep[x]);
    }
  }

  /** Gates of one depth on top of a list with all lower gates and the missing representatives. */
  lemma LayerOnTop(g: Graph, depth: seq<nat>, rep: seq<nat>, low: seq<nat>, more: seq<nat>, d: nat)
    requires |rep| == |depth| == |g.nodes| && Layered(g, depth, rep, low) && Distinct(more)
    requires forall x: nat :: x < |g.nodes| && g.IsGate(x) && depth[x] < d ==> x in low
    requires forall x :: x in more ==> x < |g.nodes| && g.IsGate(x) && depth[x] == d && x !in low
    requires forall x :: x in more ==> rep[x] == x || rep[x] in low
    ensures Layered(g, depth, rep, low + more)
  {
    var all := low + more;
    AppendKeepsDistinct(low, more);
    forall j | 0 <= j < |all| ensures LayeredAt(g, depth, rep, all, j) {
      if j < |low| {
        assert LayeredAt(g, depth, rep, low, j) && all[..j] == low[..j];
      } else {
        assert all[j] in more;
        assert all[..j] == low + more[..j - |low|];
      }
    }
  }

  // ---- without level twins, some choice of representatives closes a loop ----

  predicate ReadsInto(g: Graph, s: set<nat>, m: nat) {
    m < |g.nodes| == |g.inputs| && g.IsGate(m) && exists i :: 0 <= i < |g.inputs[m]| && g.inputs[m][i] in s
  }

  /** Every node of `s` has a twin that reads a node of `s`. */
  ghost predicate Knot(g: Graph, depth: seq<nat>, base: seq<nat>, s: set<nat>)
    requires g.Valid() && |depth| == |base| == |g.nodes|
  {
    && s != {} && (forall x :: x in s ==> x < |g.nodes|)
    && (forall x {:trigger KnotAt(g, depth, base, s, x)} :: x in s ==> KnotAt(g, depth, base, s, x))
    && TwinsTogether(depth, base, s)
  }

  ghost predicate KnotAt(g: Graph, depth: seq<nat>, base: seq<nat>, s: set<nat>, x: nat)
    requires g.Valid() && |depth| == |base| == |g.nodes| && x < |g.nodes|
  {
    exists m: nat :: m < |g.nodes| && Twins(depth, base, x, m) && ReadsInto(g, s, m)
  }

  ghost predicate TwinsTogether(depth: seq<nat>, base: seq<nat>, s: set<nat>)
    requires |depth| == |base|
  {
    forall x: nat, y: nat :: x in s && x < |depth| && y < |depth| && Twins(depth, base, x, y) ==> y in s
  }

  ghost predicate RankedAt(g: Graph, depth: seq<nat>, base: seq<nat>, ranked: set<nat>, rank: seq<nat>, top: nat,
      x: nat)
    requires g.Valid() && |rank| == |depth| == |base| == |g.nodes|
  {
    && x < |g.nodes| && rank[x] < top
    && (g.IsGate(x) ==> forall i :: 0 <= i < |g.inputs[x]| ==>
          g.inputs[x][i] in ranked && rank[g.inputs[x][i]] < rank[x])
    && (forall y: nat :: y < |g.nodes| && Twins(depth, base, x, y) ==> rank[x] == rank[y])
  }

  /** Ranked so far: the nodes `ranked`, below `top`, with level twins. */
  ghost predicate RankedSoFar(g: Graph, depth: seq<nat>, base: seq<nat>, ranked: set<nat>, rank: seq<nat>, top: nat)
    requires g.Valid() && |depth| == |base| == |g.nodes|
  {
    && |rank| == |g.nodes| && TwinsTogether(depth, base, ranked)
    && forall x {:trigger RankedAt(g, depth, base, ranked, rank, top, x)} :: x in ranked ==>
         RankedAt(g, depth, base, ranked, rank, top, x)
  }

  lemma RankNext(g: Graph, depth: seq<nat>, base: seq<nat>, ranked: set<nat>, rank: seq<nat>, top: nat, x: nat)
      returns (ranked': set<nat>, rank': seq<nat>)
    requires g.Valid() && |depth| == |base| == |g.nodes| && RankedSoFar(g, depth, base, ranked, rank, top)
    requires x < |g.nodes| && x !in ranked
    requires forall m: nat, i :: m < |g.nodes| && Twins(depth, base, x, m) && g.IsGate(m) && 0 <= i < |g.inputs[m]| ==>
               g.inputs[m][i] in ranked
    ensures ranked < ranked' && (forall y :: y in ranked' ==> y < |g.nodes|)
    ensures RankedSoFar(g, depth, base, ranked', rank', top + 1)
  {
    var level := set m: nat | m < |g.nodes| && Twins(depth, base, x, m);
    ranked' := ranked + level;
    rank' := seq(|g.nodes|, y requires 0 <= y < |g.nodes| => if y in ranked then rank[y] else top);
    assert x in level;
    assert level !! ranked by {
      forall m | m in level ensures m !in ranked { assert Twins(depth, base, m, x); }
    }
    forall y | y in ranked' ensures RankedAt(g, depth, base, ranked', rank', top + 1, y) {
      if y in ranked { assert RankedAt(g, depth, base, ranked, rank, top, y); }
      if y in level && g.IsGate(y) {
        forall i | 0 <= i < |g.inputs[y]| ensures rank'[g.inputs[y][i]] < rank'[y] {
          assert RankedAt(g, depth, base, ranked, rank, top, g.inputs[y][i]);
        }
      }
    }
  }

  /** What cannot be ranked is a knot. */
  lemma KnotLeft(g: Graph, depth: seq<nat>, base: seq<nat>, ranked: set<nat>, s: set<nat>)
    requires g.Valid() && |depth| == |base| == |g.nodes| && TwinsTogether(depth, base, ranked)
    requires s != {} && forall x: nat :: x in s <==> x < |g.nodes| && x !in ranked
    requires forall x :: x in s ==> KnotAt(g, depth, base, s, x)
    ensures Knot(g, depth, base, s)
  {
    forall x: nat, y: nat | x in s && x < |depth| && y < |depth| && Twins(depth, base, x, y) ensures y in s {
      assert Twins(depth, base, y, x);
    }
  }

  lemma AllRanked(g: Graph, depth: seq<nat>, base: seq<nat>, ranked: set<nat>, rank: seq<nat>, top: nat)
    requires g.Valid() && |depth| == |base| == |g.nodes| && RankedSoFar(g, depth, base, ranked, rank, top)
    requires forall n: nat :: n < |g.nodes| ==> n in ranked
    ensures LevelRanked(g, depth, base, rank)
  {
    forall n: nat, i | n < |g.nodes| && g.IsGate(n) && 0 <= i < |g.inputs[n]| ensures rank[g.inputs[n][i]] < rank[n] {
      assert RankedAt(g, depth, base, ranked, rank, top, n);
    }
    forall a: nat, b: nat | a < |g.nodes| && b < |g.nodes| && Twins(depth, base, a, b) ensures rank[a] == rank[b] {
      assert RankedAt(g, depth, base, ranked, rank, top, a);
    }
  }

  /** Either there is a ranking with level twins, or there is a knot. */
  lemma {:induction false} RankOrKnot(g: Graph, depth: seq<nat>, base: seq<nat>, all: set<nat>, ranked: set<nat>,
      rank: seq<nat>, top: nat)
      returns (rank': seq<nat>, s: set<nat>)
    requires g.Valid() && |depth| == |base| == |g.nodes| && RankedSoFar(g, depth, base, ranked, rank, top)
    requires ranked <= all && forall n: nat :: n in all <==> n < |g.nodes|
    ensures LevelRanked(g, depth, base, rank') || Knot(g, depth, base, s)
    decreases all - ranked
  {
    rank', s := rank, all - ranked;
    if s == {} {
      forall n: nat | n < |g.nodes| ensures n in ranked { assert n in all && n !in s; }
      AllRanked(g, depth, base, ranked, rank, top);
    } else if x :| x in s && !KnotAt(g, depth, base, s, x) {
      forall m: nat, i | m < |g.nodes| && Twins(depth, base, x, m) && g.IsGate(m) && 0 <= i < |g.inputs[m]|
        ensures g.inputs[m][i] in ranked
      {
        assert !ReadsInto(g, s, m);
      }
      var more, next := RankNext(g, depth, base, ranked, rank, top, x);
      rank', s := RankOrKnot(g, depth, base, all, more, next, top + 1);
    } else {
      KnotLeft(g, depth, base, ranked, s);
    }
  }

  /** The twins of `x`, of those in the knot only the ones that read into it. */
  ghost function Candidates(g: Graph, depth: seq<nat>, base: seq<nat>, s: set<nat>, x: nat): (c: set<nat>)
    requires g.Valid() && |depth| == |base| == |g.nodes| && x < |g.nodes|
  {
    set m: nat | m < |g.nodes| && Twins(depth, base, x, m) && (x in s ==> ReadsInto(g, s, m))
  }

  ghost function AnyOf(c: set<nat>): (m: nat)
    requires c != {}
    ensures m in c
  {
    var m :| m in c; m
  }

  /** Representatives that read into the knot wherever they can. */
  lemma KnotRepresentatives(g: Graph, depth: seq<nat>, base: seq<nat>, s: set<nat>) returns (rep: seq<nat>)
    requires g.Valid() && Levelled(g, depth, base) && Knot(g, depth, base, s)
    ensures RepOk(depth, base, rep) && forall x :: x in s ==> x < |rep| && ReadsInto(g, s, rep[x])
  {
    forall x: nat | x < |g.nodes| ensures Candidates(g, depth, base, s, x) != {} {
      CandidateExists(g, depth, base, s, x);
    }
    rep := ChosenAre(g, depth, base, s);
  }

  lemma ChosenAre(g: Graph, depth: seq<nat>, base: seq<nat>, s: set<nat>) returns (rep: seq<nat>)
    requires g.Valid() && |depth| == |base| == |g.nodes| && TwinsTogether(depth, base, s)
    requires forall x :: x in s ==> x < |g.nodes|
    requires forall x: nat :: x < |g.nodes| ==> Candidates(g, depth, base, s, x) != {}
    ensures RepOk(depth, base, rep) && forall x :: x in s ==> x < |rep| && ReadsInto(g, s, rep[x])
  {
    rep := seq(|g.nodes|, x requires 0 <= x < |g.nodes| => AnyOf(Candidates(g, depth, base, s, x)));
    forall x: nat | x < |g.nodes|
      ensures rep[x] < |rep| && Twins(depth, base, x, rep[x]) && (x in s ==> ReadsInto(g, s, rep[x]))
    {
      assert rep[x] in Candidates(g, depth, base, s, x);
    }
    forall a: nat, b: nat | a < |rep| && b < |rep| && Twins(depth, base, a, b) ensures rep[a] == rep[b] {
      TwinsShareCandidates(g, depth, base, s, a, b);
    }
  }

  lemma CandidateExists(g: Graph, depth: seq<nat>, base: seq<nat>, s: set<nat>, x: nat)
    requires g.Valid() && |depth| == |base| == |g.nodes| && Knot(g, depth, base, s) && x < |g.nodes|
    ensures Candidates(g, depth, base, s, x) != {}
  {
    if x in s {
      assert KnotAt(g, depth, base, s, x);
      var m: nat :| m < |g.nodes| && Twins(depth, base, x, m) && ReadsInto(g, s, m);
      assert m in Candidates(g, depth, base, s, x);
    } else {
      assert x in Candidates(g, depth, base, s, x);
    }
  }

  lemma TwinsShareCandidates(g: Graph, depth: seq<nat>, base: seq<nat>, s: set<nat>, a: nat, b: nat)
    requires g.Valid() && |depth| == |base| == |g.nodes| && TwinsTogether(depth, base, s)
    requires a < |g.nodes| && b < |g.nodes| && Twins(depth, base, a, b)
    ensures Candidates(g, depth, base, s, a) == Candidates(g, depth, base, s, b)
  {
    assert Twins(depth, base, b, a);
    assert a in s <==> b in s;
  }

  /** One of the nodes of `s` whose representative ranks lowest. */
  lemma {:induction false} LowestOf(s: set<nat>, rep: seq<nat>, rank: seq<nat>) returns (x: nat)
    requires s != {} && forall y :: y in s ==> y < |rep| && rep[y] < |rank|
    ensures x in s && forall y :: y in s ==> rank[rep[x]] <= rank[rep[y]]
    decreases |s|
  {
    x :| x in s;
    if s != {x} {
      var low := LowestOf(s - {x}, rep, rank);
      if rank[rep[low]] < rank[rep[x]] { x := low; }
    }
  }

  /** The representative of `x` reads the representative of a node of `s`, which ranks lower. */
  lemma KnotStep(g: Graph, depth: seq<nat>, base: seq<nat>, s: set<nat>, rep: seq<nat>, gates: seq<nat>,
      rank: seq<nat>, x: nat) returns (y: nat)
    requires g.Valid() && Levelled(g, depth, base) && RepOk(depth, base, rep)
    requires ListsGates(g.nodes, gates) && x < |rep| && ReadsInto(g, s, rep[x])
    requires Replaced(g, rep, gates).RankedBy(rank)
    ensures y in s && y < |rep| && rep[y] < |rank| && rep[x] < |rank| && rank[rep[y]] < rank[rep[x]]
  {
    var m := rep[x];
    var i :| 0 <= i < |g.inputs[m]| && g.inputs[m][i] in s;
    y := g.inputs[m][i];
    RepOfRep(g, depth, base, rep, y);
    assert Replaced(g, rep, gates).inputs[m][i] == rep[y];
  }

  /** Read through representatives that read into it, a knot has no lowest node. */
  lemma KnotIsCyclic(g: Graph, depth: seq<nat>, base: seq<nat>, s: set<nat>, rep: seq<nat>, gates: seq<nat>)
    requires g.Valid() && Levelled(g, depth, base) && Knot(g, depth, base, s) && RepOk(depth, base, rep)
    requires ListsGates(g.nodes, gates) && (forall y :: y in s ==> y < |rep| && ReadsInto(g, s, rep[y]))
    ensures Replaced(g, rep, gates).Valid() && !Replaced(g, rep, gates).Acyclic()
  {
    if rank :| Replaced(g, rep, gates).RankedBy(rank) {
      forall y | y in s ensures rep[y] < |rank| { assert Twins(depth, base, y, rep[y]); }
      var x := LowestOf(s, rep, rank);
      var y := KnotStep(g, depth, base, s, rep, gates, rank, x);
    }
  }

  /** Of an unsafe netlist some gate list makes the merge close a loop, in its first pass and for good. */
  lemma UnsafeMergeClosesLoop(g: Graph) returns (gates: seq<nat>)
    requires g.Valid() && g.Acyclic() && !MergeSafe(g)
    ensures ListsGates(g.nodes, gates)
    ensures forall passes: nat :: passes > 0 ==> !CleanAfter(g, gates, passes)
  {
    var depth, base := LevelsExist(g);
    gates := KnotOrder(g, depth, base);
  }

  lemma KnotOrder(g: Graph, depth: seq<nat>, base: seq<nat>) returns (gates: seq<nat>)
    requires g.Valid() && Levelled(g, depth, base) && !MergeSafe(g)
    ensures ListsGates(g.nodes, gates)
    ensures forall passes: nat :: passes > 0 ==> !CleanAfter(g, gates, passes)
  {
    var s := KnotOfUnsafe(g, depth, base);
    var rep := KnotRepresentatives(g, depth, base, s);
    gates := Layers(g, depth, rep, MaxOf(depth) + 1);
    AllLayers(g, depth, base, rep);
    forall passes: nat | passes > 0 ensures !CleanAfter(g, gates, passes) {
      KnotRun(g, depth, base, s, rep, gates, passes);
    }
  }

  lemma AllLayers(g: Graph, depth: seq<nat>, base: seq<nat>, rep: seq<nat>)
    requires g.Valid() && Levelled(g, depth, base) && RepOk(depth, base, rep)
    ensures ListsGates(g.nodes, Layers(g, depth, rep, MaxOf(depth) + 1))
    ensures Layered(g, depth, rep, Layers(g, depth, rep, MaxOf(depth) + 1))
  {
    LayersAreLayered(g, depth, base, rep, MaxOf(depth) + 1);
  }

  lemma KnotRun(g: Graph, depth: seq<nat>, base: seq<nat>, s: set<nat>, rep: seq<nat>, gates: seq<nat>, passes: nat)
    requires g.Valid() && Levelled(g, depth, base) && Knot(g, depth, base, s) && RepOk(depth, base, rep)
    requires ListsGates(g.nodes, gates) && (forall y :: y in s ==> y < |rep| && ReadsInto(g, s, rep[y]))
    requires Layered(g, depth, rep, gates) && passes > 0
    ensures !CleanAfter(g, gates, passes)
  {
    KnotIsCyclic(g, depth, base, s, rep, gates);
    MergeRunOfLayered(g, depth, base, rep, gates, passes);
  }

  lemma KnotOfUnsafe(g: Graph, depth: seq<nat>, base: seq<nat>) returns (s: set<nat>)
    requires g.Valid() && Levelled(g, depth, base) && !MergeSafe(g)
    ensures Knot(g, depth, base, s)
  {
    var all := set n: nat | n < |g.nodes| && Twins(depth, base, n, n);
    forall n: nat ensures n in all <==> n < |g.nodes| {
      if n < |g.nodes| { assert Twins(depth, base, n, n); }
    }
    var rank;
    rank, s := RankOrKnot(g, depth, base, all, {}, seq(|g.nodes|, i => 0), 0);
    assert !LevelRanked(g, depth, base, rank);
  }

  /** The condition for merging to be safe is exact: it holds if and only if no order of the gate list
      makes the merge close a loop. */
  lemma MergeSafeIff(g: Graph)
    requires g.Valid() && g.Acyclic()
    ensures MergeSafe(g) <==> forall gates :: ListsGates(g.nodes, gates) ==> MergesCleanly(g, gates)
  {
    if MergeSafe(g) {
      forall gates | ListsGates(g.nodes, gates) ensures MergesCleanly(g, gates) {
        forall passes: nat ensures CleanAfter(g, gates, passes) { SafeRunIsAcyclic(g, gates, passes); }
      }
    } else {
      var gates := UnsafeMergeClosesLoop(g);
      assert !CleanAfter(g, gates, 1);
    }
  }

  // ---- the smallest unsafe netlist ----

  /** Two inverters `a` and `b` of `k` are all the gates, and the second pin of `b` reads `a`. */
  ghost predicate TwoPins(g: Graph, k: nat, a: nat, b: nat) {
    && g.Valid() && ListsGates(g.nodes, [b, a]) && k < |g.nodes| && a != b && k != a && k != b
    && a < |g.nodes| && b < |g.nodes| && InverterGate(g.nodes, a) && InverterGate(g.nodes, b)
    && g.inputs[a] == [k, k] && g.inputs[b] == [k, a]
    && forall m :: 0 <= m < |g.nodes| && m != a && m != b ==> a !in g.inputs[m]
  }

  lemma TwoPinPass(g: Graph, k: nat, a: nat, b: nat, s: MergeState)
    requires TwoPins(g, k, a, b) && s in {MergeState(g, map[]), MergeState(Rewired(g, a, b), map[k := b])}
    ensures MergePass(s, [b, a]) == MergeState(Rewired(g, a, b), map[k := b])
    ensures b in Rewired(g, a, b).inputs[b]
  {
    var h := Rewired(g, a, b);
    assert h.inputs[a] == [k, k] && h.inputs[b] == [k, b] && h.inputs[b][1] == b;
    TwoGatePass(s, b, a);
    assert MergeOne(s, b) == MergeState(s.g, map[k := b]);
    if s.g != g { NobodyReadsMerged(g, k, a, b); }
  }

  lemma TwoGatePass(s: MergeState, x: nat, y: nat)
    ensures MergePass(s, [x, y]) == MergeOne(MergeOne(s, x), y)
  {
    MergePassNext(s, [x, y], 0);
    MergePassNext(s, [x, y], 1);
    assert [x, y][..0] == [] && [x, y][..1] == [x] && [x, y][..2] == [x, y];
  }

  lemma NobodyReadsMerged(g: Graph, k: nat, a: nat, b: nat)
    requires TwoPins(g, k, a, b)
    ensures Rewired(Rewired(g, a, b), a, b) == Rewired(g, a, b)
  {
    var h := Rewired(g, a, b);
    forall m: nat ensures !Reads(h.inputs, m, a) {
      if m < |h.inputs| && m != a && m != b { assert a !in g.inputs[m]; }
    }
    RedirectUnread(h.inputs, a, b);
  }

  /** With `b` listed before `a`, the merge records `b` and redirects the readers of `a` to it, so that
      `b` reads itself; it stays so in all further passes. */
  lemma {:induction false} TwoPinRun(g: Graph, k: nat, a: nat, b: nat, passes: nat)
    requires TwoPins(g, k, a, b) && passes > 0
    ensures MergeRun(g, [b, a], passes) == MergeState(Rewired(g, a, b), map[k := b])
    ensures !CleanAfter(g, [b, a], passes)
    decreases passes
  {
    if passes == 1 {
      assert MergeRun(g, [b, a], 0) == MergeState(g, map[]);
    } else {
      TwoPinRun(g, k, a, b, passes - 1);
    }
    TwoPinPass(g, k, a, b, MergeRun(g, [b, a], passes - 1));
    SelfReadIsCyclic(Rewired(g, a, b), b);
  }

  lemma SelfReadIsCyclic(h: Graph, n: nat)
    requires h.Valid() && n < |h.nodes| && h.IsGate(n) && n in h.inputs[n]
    ensures !h.Acyclic()
  {
    var i :| 0 <= i < |h.inputs[n]| && h.inputs[n][i] == n;
    forall rank ensures !h.RankedBy(rank) {}
  }

  /** A primary input 0 and two inverters 1 and 2 of it, made of a cell `cell` with two pins; the
      unused pin of 2 is tied to 1. */
  function TwoPinInverters(cell: Cell): Graph {
    Graph([Node(InputNode, cell, false, false), Node(GateNode, cell, false, false),
           Node(GateNode, cell, false, false)],
          [[], [0, 0], [0, 1]])
  }

  lemma TwoPinInvertersAreAcyclic(cell: Cell)
    requires cell.Valid() && cell.fn.arity == 2
    ensures TwoPinInverters(cell).Valid() && TwoPinInverters(cell).RankedBy([0, 1, 2])
  {
    var g := TwoPinInverters(cell);
    forall n: nat, i: nat | n < 3 && i < |g.inputs[n]| ensures g.inputs[n][i] < n {
      if n == 1 {} else {}
    }
  }

  /** This netlist has no loop, and merging its two inverters in the order 2, 1 closes one. */
  lemma TwoPinMergeClosesLoop(cell: Cell, passes: nat)
    requires cell.Valid() && cell.fn.arity == 2 && cell.isInverter && passes > 0
    ensures var g := TwoPinInverters(cell);
            && g.Valid() && g.Acyclic() && ListsGates(g.nodes, [2, 1]) && !MergeSafe(g)
            && !CleanAfter(g, [2, 1], passes)
  {
    var g := TwoPinInverters(cell);
    TwoPinInvertersAreAcyclic(cell);
    assert TwoPins(g, 0, 1, 2);
    TwoPinRun(g, 0, 1, 2, passes);
    MergeSafeIff(g);
    assert !MergesCleanly(g, [2, 1]);
  }

  // ---- inverters in a loop ----

  /** The inverter recorded for a node has the opposite value, if `v` gives the values. */
  ghost predicate RecordsOpposites(memo: map<nat, nat>, v: Bits) {
    forall k :: k in memo ==> k < |v| && memo[k] < |v| && v[memo[k]] == !v[k]
  }

  lemma MergeOneKeepsSolution(s: MergeState, out: nat, env: Bits, v: Bits)
    requires s.g.Valid() && |env| == |s.g.nodes| && Solves(s.g, env, v) && RecordsOpposites(s.memo, v)
    ensures var t := MergeOne(s, out); t.g.Valid() && Solves(t.g, env, v) && RecordsOpposites(t.memo, v)
  {
    if out < |s.g.nodes| && InverterGate(s.g.nodes, out) {
      BufferAndInverterValues(s.g, env, v, out);
      var k := Input0(s.g, out);
      if k in s.memo { RedirectKeepsSolution(s.g, out, s.memo[k], env, v); }
    }
  }

  lemma {:induction false} MergePassKeepsSolution(s: MergeState, gates: seq<nat>, env: Bits, v: Bits)
    requires s.g.Valid() && |env| == |s.g.nodes| && Solves(s.g, env, v) && RecordsOpposites(s.memo, v)
    ensures var t := MergePass(s, gates); t.g.Valid() && Solves(t.g, env, v) && RecordsOpposites(t.memo, v)
    decreases |gates|
  {
    if gates != [] {
      MergePassKeepsSolution(s, gates[..|gates| - 1], env, v);
      MergeOneKeepsSolution(MergePass(s, gates[..|gates| - 1]), gates[|gates| - 1], env, v);
    }
  }

  /** On any netlist, inverters in a loop or not, no number of passes loses a solution. */
  lemma {:induction false} MergeRunKeepsSolution(g: Graph, gates: seq<nat>, passes: nat, env: Bits, v: Bits)
    requires g.Valid() && |env| == |g.nodes| && Solves(g, env, v)
    ensures var t := MergeRun(g, gates, passes); t.g.Valid() && Solves(t.g, env, v) && RecordsOpposites(t.memo, v)
    decreases passes
  {
    if passes > 0 {
      MergeRunKeepsSolution(g, gates, passes - 1, env, v);
      MergePassKeepsSolution(MergeRun(g, gates, passes - 1), gates, env, v);
    }
  }

  /** Three inverters with one pin: 0 and 1 read 1, and 2 reads 0. */
  function LoopedInverters(cell: Cell): Graph {
    var n := Node(GateNode, cell, false, false);
    Graph([n, n, n], [[1], [1], [0]])
  }

  /** The same inverters, all reading `n`. */
  function AllRead(cell: Cell, n: nat): Graph {
    LoopedInverters(cell).(inputs := [[n], [n], [n]])
  }

  lemma RedirectAll(cell: Cell, n: nat, m: nat)
    ensures Rewired(AllRead(cell, n), n, m) == AllRead(cell, m)
  {
    assert Subst([n], n, m) == [m];
    assert Redirect([[n], [n], [n]], n, m) == [[m], [m], [m]];
  }

  lemma ThreeGatePass(s: MergeState, gates: seq<nat>)
    requires gates == [0, 1, 2]
    ensures MergePass(s, gates) == MergeOne(MergeOne(MergeOne(s, 0), 1), 2)
  {
    MergePassNext(s, gates, 0);
    MergePassNext(s, gates, 1);
    MergePassNext(s, gates, 2);
    assert gates[..0] == [] && gates[..3] == gates;
  }

  /** The memo map that is complete after the second pass. */
  function LoopedMemo(): map<nat, nat> {
    map[1 := 0, 0 := 2, 2 := 1]
  }

  lemma LoopedFirstPass(cell: Cell, gates: seq<nat>)
    requires cell.isInverter && gates == [0, 1, 2]
    ensures MergePass(MergeState(LoopedInverters(cell), map[]), gates) ==
            MergeState(AllRead(cell, 0), map[1 := 0, 0 := 2])
  {
    var s := MergeState(LoopedInverters(cell), map[]);
    ThreeGatePass(s, gates);
    assert MergeOne(s, 0) == MergeState(s.g, map[1 := 0]);
    assert Subst([1], 1, 0) == [0] && Subst([0], 1, 0) == [0];
    assert Redirect([[1], [1], [0]], 1, 0) == [[0], [0], [0]];
    assert MergeOne(MergeOne(s, 0), 1) == MergeState(AllRead(cell, 0), map[1 := 0]);
  }

  /** A pass over inverters that all read 0 makes them read 2 and then 1. */
  lemma LoopedEvenPass(cell: Cell, gates: seq<nat>, memo: map<nat, nat>)
    requires cell.isInverter && gates == [0, 1, 2] && (memo == map[1 := 0, 0 := 2] || memo == LoopedMemo())
    ensures MergePass(MergeState(AllRead(cell, 0), memo), gates) == MergeState(AllRead(cell, 1), LoopedMemo())
  {
    var s := MergeState(AllRead(cell, 0), memo);
    ThreeGatePass(s, gates);
    RedirectAll(cell, 0, 2);
    RedirectAll(cell, 2, 1);
    assert MergeOne(s, 0) == MergeState(AllRead(cell, 2), memo);
    assert MergeOne(MergeOne(s, 0), 1) == MergeState(AllRead(cell, 2), LoopedMemo());
  }

  lemma LoopedOddPass(cell: Cell, gates: seq<nat>)
    requires cell.isInverter && gates == [0, 1, 2]
    ensures MergePass(MergeState(AllRead(cell, 1), LoopedMemo()), gates) == MergeState(AllRead(cell, 0), LoopedMemo())
  {
    var s := MergeState(AllRead(cell, 1), LoopedMemo());
    ThreeGatePass(s, gates);
    RedirectAll(cell, 1, 0);
    assert MergeOne(s, 0) == s;
    assert MergeOne(s, 1) == MergeState(AllRead(cell, 0), LoopedMemo());
  }

  lemma MergeRunNext(g: Graph, gates: seq<nat>, passes: nat)
    ensures MergeRun(g, gates, 0) == MergeState(g, map[])
    ensures MergeRun(g, gates, passes + 1) == MergePass(MergeRun(g, gates, passes), gates)
  {
  }

  lemma LoopedTwoPasses(cell: Cell, gates: seq<nat>)
    requires cell.isInverter && gates == [0, 1, 2]
    ensures MergeRun(LoopedInverters(cell), gates, 1).g == AllRead(cell, 0)
    ensures MergeRun(LoopedInverters(cell), gates, 2) == MergeState(AllRead(cell, 1), LoopedMemo())
  {
    MergeRunNext(LoopedInverters(cell), gates, 0);
    MergeRunNext(LoopedInverters(cell), gates, 1);
    LoopedFirstPass(cell, gates);
    LoopedEvenPass(cell, gates, map[1 := 0, 0 := 2]);
  }

  /** If a pass leads from each of two states to the other, the run goes back and forth. */
  lemma {:induction false} AlternatingRun(g: Graph, gates: seq<nat>, even: MergeState, odd: MergeState, passes: nat)
    requires MergePass(even, gates) == odd && MergePass(odd, gates) == even
    requires MergeRun(g, gates, 2) == even && passes >= 2
    ensures MergeRun(g, gates, passes) == if passes % 2 == 0 then even else odd
    decreases passes
  {
    if passes > 2 {
      AlternatingRun(g, gates, even, odd, passes - 1);
      MergeRunNext(g, gates, passes - 1);
    }
  }

  /** What gate 0 reads, by turns. */
  lemma LoopedRead(cell: Cell, gates: seq<nat>, passes: nat)
    requires cell.isInverter && gates == [0, 1, 2]
    ensures Input0(MergeRun(LoopedInverters(cell), gates, passes).g, 0) == if passes % 2 == 0 then 1 else 0
  {
    LoopedTwoPasses(cell, gates);
    if passes >= 2 {
      LoopedOddPass(cell, gates);
      LoopedEvenPass(cell, gates, LoopedMemo());
      AlternatingRun(LoopedInverters(cell), gates, MergeState(AllRead(cell, 1), LoopedMemo()),
                     MergeState(AllRead(cell, 0), LoopedMemo()), passes);
    }
  }

  lemma LoopedInvertersLoop(cell: Cell, gates: seq<nat>)
    requires cell.Valid() && cell.fn.arity == 1 && cell.isInverter && gates == [0, 1, 2]
    ensures var g := LoopedInverters(cell); g.Valid() && ListsGates(g.nodes, gates) && !InverterChainsEnd(g)
  {
    var g := LoopedInverters(cell);
    assert InverterGate(g.nodes, 1) && g.inputs[1][0] == 1;
    forall rank ensures !InvertersRankedBy(g, rank) {}
  }

  /** With an inverter that reads itself the merge need not end: here every pass changes the netlist, from
      the second on by turns so that all read 1 and that all read 0. */
  lemma MergeNeedNotEnd(cell: Cell, gates: seq<nat>, passes: nat)
    requires cell.Valid() && cell.fn.arity == 1 && cell.isInverter && gates == [0, 1, 2]
    ensures var g := LoopedInverters(cell);
            && g.Valid() && ListsGates(g.nodes, gates) && !InverterChainsEnd(g)
            && MergeRun(g, gates, passes + 1).g != MergeRun(g, gates, passes).g
  {
    LoopedInvertersLoop(cell, gates);
    LoopedRead(cell, gates, passes);
    LoopedRead(cell, gates, passes + 1);
  }
}
