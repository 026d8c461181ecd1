/** A wiring on which some cells mislead the counter queries about a position but none about the whole
    list, so the condition that is exact for every position is more than a list needs. */
module CounterLists {
  import opened BoolFunctions
  import opened Netlists
  import opened CounterChecks
  import opened CounterQueries
  import opened CounterWirings

  ghost predicate ListIsJudged(p: Design, one: bool)
    requires p.Valid()
  {
    (forall i :: 1 <= i < |p.q| ==> Accepted(p, one, i)) <==> exists step, hold :: p.HasShape(one, step, hold)
  }

  /** No gate in the cone of `top` reads node `n`. */
  ghost predicate NotReadBelow(k: Design, n: nat, top: nat)
    requires k.Valid() && top < |k.g.nodes|
  {
    forall x: nat, p: nat :: InCone(k, x, top) && p < |k.g.inputs[x]| ==> k.g.inputs[x][p] != n
  }

  lemma {:induction false} UnreadDoesNotMatter(k: Design, n: nat, top: nat, a: Bits, v: bool, x: nat)
    requires k.Valid() && top < |k.g.nodes| == |a| && n < |a| && NotReadBelow(k, n, top) && InCone(k, x, top)
    ensures Eval(k.g, k.rank, a[n := v], x) == Eval(k.g, k.rank, a, x)
    decreases k.rank[x]
  {
    forall p | 0 <= p < |k.g.inputs[x]|
      ensures Eval(k.g, k.rank, a[n := v], k.g.inputs[x][p]) == Eval(k.g, k.rank, a, k.g.inputs[x][p])
    {
      var y := k.g.inputs[x][p];
      FeedsThrough(k.g, k.rank, x, top, p);
      if k.g.IsGate(y) { UnreadDoesNotMatter(k, n, top, a, v, y); }
    }
    SameInputsSameValue(k, a[n := v], a, x);
  }

  /** A gate that the second and third cone share reads latch 2 but no lower latch; latch 2 is not behind latch
      input 0, nor latch 0 behind latch input 1. */
  ghost predicate ReadsAhead(k: Design) {
    && k.Valid() && |k.q| == 3 && k.HasCone(0) && k.HasCone(1)
    && SharedReadNone(k, 2, 2) && NotReadBelow(k, k.q[2], k.d[0]) && NotReadBelow(k, k.q[0], k.d[1])
  }

  /** Then passing at position 1 makes latch input 1, where the latch is 1, what latch input 0 is. */
  lemma SecondFollowsFirst(k: Design, one: bool, b: Bits)
    requires ReadsAhead(k) && Accepted(k, one, 1) && |b| == |k.g.nodes| && b[k.q[1]]
    ensures k.Next(b, 1) == k.Next(b[k.q[0] := true], 0)
  {
    var lower, first := b[k.q[0] := one], b[k.q[0] := true];
    UnreadDoesNotMatter(k, k.q[0], k.d[1], b, one, k.d[1]);
    QuerySameIff(k, one, true, 1);
    assert k.q[0] in k.q[..2];
    assert k.AgreeOutside(first, lower, 2) && k.LowerAre(lower, 1, one) && lower[k.q[1]];
  }

  /** So latch 2 does not matter to it, and what t3 compares with the same value of latch 2 is enough. */
  lemma AheadIsAlike(k: Design, one: bool)
    requires ReadsAhead(k) && Accepted(k, one, 1) && Accepted(k, one, 2)
    ensures k.HoldIsAlike(one, 2)
  {
    QueryAlikeIff(k, one, 2);
    forall a: Bits, b: Bits | |a| == |b| == |k.g.nodes| && k.AgreeOutside(a, b, 3) && k.Held(a, 2, one) &&
                              k.Held(b, 1, one)
      ensures k.Next(a, 2) == k.Next(b, 1)
    {
      var c := b[k.q[2] := a[k.q[2]]];
      AgreesBelow(k, a, b);
      SharedAgreeThere(k, 2, 2, a, c);
      assert c[k.q[0]] == b[k.q[0]];
      assert k.Held(c, 1, one) && k.AgreeOutside(a, c, 3);
      assert k.Next(a, 2) == k.Next(c, 1);
      SecondFollowsFirst(k, one, b);
      SecondFollowsFirst(k, one, c);
      UnreadDoesNotMatter(k, k.q[2], k.d[0], b[k.q[0] := true], a[k.q[2]], k.d[0]);
      assert b[k.q[0] := true][k.q[2] := a[k.q[2]]] == c[k.q[0] := true];
    }
  }

  lemma AgreesBelow(k: Design, a: Bits, b: Bits)
    requires k.Valid() && |k.q| == 3 && |a| == |b| == |k.g.nodes| && k.AgreeOutside(a, b, 3)
    ensures var c := b[k.q[2] := a[k.q[2]]]; k.AgreeOutside(a, c, 2) && k.AgreeOutside(a, c, 3)
  {
    var c := b[k.q[2] := a[k.q[2]]];
    assert k.q[..3] == k.q[..2] + [k.q[2]];
  }

  lemma AheadCounts(k: Design, one: bool)
    requires ReadsAhead(k)
    ensures Accepted(k, one, 1) && Accepted(k, one, 2) <==> k.Counts(one, 1) && k.Counts(one, 2)
  {
    AcceptedIffCounts(k, one, 1);
    if Accepted(k, one, 1) && Accepted(k, one, 2) {
      AheadIsAlike(k, one);
      AlikeIsConstant(k, one, 2);
      AcceptedIff(k, one, 2);
    }
    if k.Counts(one, 2) { CountsAreAccepted(k, one, 2); }
  }

  lemma AheadHasShape(k: Design, one: bool)
    requires ReadsAhead(k)
    ensures ListIsJudged(k, one)
  {
    AheadCounts(k, one);
    ChecksIffShape(k, one);
  }

  /** The list is judged right, whatever the cells. */
  lemma AheadIsJudged(k: Design, one: bool)
    requires ReadsAhead(k)
    ensures forall p :: SameWiring(k, p) ==> ListIsJudged(p, one)
  {
    forall p | SameWiring(k, p) ensures ListIsJudged(p, one) {
      WiringKeepsAhead(k, p);
      AheadHasShape(p, one);
    }
  }

  lemma WiringKeepsAhead(k: Design, p: Design)
    requires ReadsAhead(k) && SameWiring(k, p)
    ensures ReadsAhead(p)
  {
    WiringCones(k, p, k.d[0]);
    WiringCones(k, p, k.d[1]);
    WiringCones(k, p, k.d[2]);
  }

  /** Latches 0, 1 and 2 read their gates 4, 5 and 6. Gate 3 takes over latch 2 and is read by gates 5 and 6;
      gates 4 and 5 read their own latches. */
  function AheadInputs(n: nat): (ids: seq<nat>)
    requires n < 7
    ensures forall i :: 0 <= i < |ids| ==> ids[i] < 7 && (n >= 3 ==> AheadRank(ids[i]) < AheadRank(n))
    ensures forall i :: 0 <= i < |ids| && ids[i] >= 4 ==> n == ids[i] - 4
    ensures ids != []
  {
    match n
    case 0 => [4]
    case 1 => [5]
    case 2 => [6]
    case 3 => [2]
    case 4 => [0]
    case 5 => [1, 3]
    case _ => [3]
  }

  function AheadRank(n: nat): nat {
    if n < 3 then 0 else if n == 3 then 1 else 2
  }

  ghost predicate IsAheadNode(k: Design, n: nat)
    requires n < |k.g.nodes| && n < |k.g.inputs| && n < |k.rank| && n < 7
  {
    && k.g.nodes[n] == Node(if n < 3 then LatchNode else GateNode, Projection(|AheadInputs(n)|, 0), n >= 4, false)
    && k.g.inputs[n] == AheadInputs(n) && k.rank[n] == AheadRank(n)
  }

  ghost predicate IsAheadDesign(k: Design) {
    && |k.g.nodes| == |k.g.inputs| == |k.rank| == 7 && |k.q| == |k.d| == 3
    && (forall n: nat :: n < 7 ==> IsAheadNode(k, n))
    && (forall i: nat :: i < 3 ==> k.q[i] == i && k.d[i] == i + 4)
  }

  ghost function AheadDesign(): (k: Design)
    ensures IsAheadDesign(k)
  {
    var nodes := seq(7, n requires 0 <= n < 7 =>
      Node(if n < 3 then LatchNode else GateNode, Projection(|AheadInputs(n)|, 0), n >= 4, false));
    var inputs := seq(7, n requires 0 <= n < 7 => AheadInputs(n));
    Design(Graph(nodes, inputs), seq(7, n requires 0 <= n < 7 => AheadRank(n)), [0, 1, 2], [4, 5, 6])
  }

  lemma AheadDesignValid(k: Design)
    requires IsAheadDesign(k)
    ensures k.Valid()
  {
    forall n: nat, i: nat | n < 7 && i < |k.g.inputs[n]|
      ensures k.g.inputs[n][i] < 7 && (k.g.IsGate(n) ==> k.rank[k.g.inputs[n][i]] < k.rank[n])
    {
      assert IsAheadNode(k, n) && IsAheadNode(k, AheadInputs(n)[i]);
    }
    forall n: nat | n < 7 && k.g.IsGate(n)
      ensures k.g.nodes[n].cell.Valid() && k.g.nodes[n].cell.fn.arity == |k.g.inputs[n]|
    {
      assert IsAheadNode(k, n);
    }
    assert k.g.Valid() && k.g.RankedBy(k.rank);
    forall i: nat | i < 3 ensures k.g.nodes[k.q[i]].kind.LatchNode? && IsOnlyReader(k.g, k.q[i], k.d[i]) {
      AheadLatch(k, i);
    }
  }

  lemma AheadLatch(k: Design, i: nat)
    requires IsAheadDesign(k) && k.g.Valid() && i < 3
    ensures k.g.nodes[k.q[i]].kind.LatchNode? && IsOnlyReader(k.g, k.q[i], k.d[i])
  {
    assert IsAheadNode(k, i) && AheadInputs(i)[0] == i + 4;
    forall m: nat, p: nat | m < 7 && p < |k.g.inputs[m]| && k.g.inputs[m][p] == i + 4 ensures m == i {
      assert IsAheadNode(k, m);
    }
  }

  lemma AheadGate(k: Design, n: nat)
    requires IsAheadDesign(k) && n < 7
    ensures k.g.inputs[n] == AheadInputs(n) && (k.g.IsGate(n) <==> n >= 3)
  {
    assert IsAheadNode(k, n);
  }

  /** What a gate of this netlist can be fed by. */
  lemma AheadCone(k: Design, x: nat, top: nat)
    requires IsAheadDesign(k) && k.Valid() && 3 <= top < 7 && InCone(k, x, top)
    ensures 3 <= x < 7 && (x == top || (x == 3 && top >= 5))
  {
    AheadGate(k, top);
    AheadGate(k, x);
    if x != top {
      var i: nat :| i < |k.g.inputs[top]| && Feeds(k.g, k.rank, x, k.g.inputs[top][i]);
      AheadGate(k, k.g.inputs[top][i]);
      if k.g.inputs[top][i] == 3 { BufferCone(k, x); }
    }
  }

  lemma BufferCone(k: Design, x: nat)
    requires IsAheadDesign(k) && k.Valid() && x < 7 && k.g.IsGate(x) && Feeds(k.g, k.rank, x, 3)
    ensures x == 3
  {
    AheadGate(k, 3);
    AheadGate(k, 2);
  }

  lemma AheadShared(k: Design)
    requires IsAheadDesign(k) && k.Valid()
    ensures SharedReadNone(k, 2, 2) && !SharedReadNoLatch(k, 2)
  {
    forall x: nat, p: nat | InCone(k, x, k.d[2]) && InCone(k, x, k.d[1]) && p < |k.g.inputs[x]|
      ensures k.g.inputs[x][p] !in k.q[..2]
    {
      AheadCone(k, x, 5);
      AheadCone(k, x, 6);
      AheadGate(k, 3);
    }
    BufferIsShared(k);
    assert k.q[..3][2] == 2;
    assert k.g.inputs[3][0] in k.q[..3];
  }

  lemma BufferIsShared(k: Design)
    requires IsAheadDesign(k) && k.Valid()
    ensures InCone(k, 3, k.d[1]) && InCone(k, 3, k.d[2]) && k.g.inputs[3] == [2]
  {
    AheadGate(k, 3);
    AheadGate(k, 5);
    AheadGate(k, 6);
    assert Feeds(k.g, k.rank, 3, k.g.inputs[5][1]) && Feeds(k.g, k.rank, 3, k.g.inputs[6][0]);
  }

  lemma AheadUnread(k: Design)
    requires IsAheadDesign(k) && k.Valid()
    ensures NotReadBelow(k, k.q[2], k.d[0]) && NotReadBelow(k, k.q[0], k.d[1])
  {
    forall x: nat, p: nat | InCone(k, x, k.d[0]) && p < |k.g.inputs[x]| ensures k.g.inputs[x][p] != 2 {
      AheadCone(k, x, 4);
      AheadGate(k, x);
    }
    forall x: nat, p: nat | InCone(k, x, k.d[1]) && p < |k.g.inputs[x]| ensures k.g.inputs[x][p] != 0 {
      AheadCone(k, x, 5);
      AheadGate(k, x);
    }
  }

  /** So the condition per position is not needed for a whole list: here some cells mislead the queries at
      position 2, but then position 1 is turned down. */
  lemma ListNeedsLess(one: bool) returns (k: Design)
    ensures k.Valid() && |k.q| == 3
    ensures exists p :: SameWiring(k, p) && !IsJudged(p, one, 2)
    ensures forall p :: SameWiring(k, p) ==> ListIsJudged(p, one)
  {
    k := AheadDesign();
    AheadDesignValid(k);
    AheadShared(k);
    AheadUnread(k);
    AheadGate(k, 4);
    AheadGate(k, 5);
    AcceptedIffWiring(k, one, 2);
    AheadIsJudged(k, one);
  }
}
