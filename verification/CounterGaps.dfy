/** What the counter queries let through that is no counter, and that they never lose one that is. */
module CounterGaps {
  import opened BoolFunctions
  import opened Netlists
  import opened CounterChecks
  import opened CounterQueries
  import opened CounterArithmetic

  /** Latches that count modulo 2^n are accepted by the queries at every position. */
  lemma CountersAreAccepted(k: Design, up: bool, reset: Bits -> bool, enable: Bits -> bool)
    requires k.Valid() && IsCounter(k, up, reset, enable)
    requires forall j :: 0 <= j < |k.q| ==> k.HasCone(j)
    ensures forall i :: 1 <= i < |k.q| ==> Accepted(k, up, i)
  {
    CountersPass(k, up, reset, enable);
    forall i | 1 <= i < |k.q| ensures Accepted(k, up, i) {
      CountsAreAccepted(k, up, i);
    }
  }

  // ---- library cells: BUF (also the gate of a plain flip-flop), INV, AND2, XOR2 and MX2 ----

  predicate Buf(xs: Bits) { |xs| == 1 && xs[0] }
  predicate Inv(xs: Bits) { |xs| == 1 && !xs[0] }
  predicate And2(xs: Bits) { |xs| == 2 && xs[0] && xs[1] }
  predicate Xor2(xs: Bits) { |xs| == 2 && xs[0] != xs[1] }
  predicate Mux2(xs: Bits) { |xs| == 3 && if xs[2] then xs[1] else xs[0] }

  ghost function CellOf(n: nat, f: Bits -> bool): (c: Cell)
    ensures c.Valid() && c.fn.arity == n && forall xs :: |xs| == n ==> c.fn.Apply(xs) == f(xs)
  {
    LibraryCell(Fn(n, set xs | xs in Vectors(n) && f(xs)))
  }

  ghost predicate Computes(k: Design, n: nat, ids: seq<nat>, f: Bits -> bool)
    requires k.Valid()
  {
    && n < |k.g.nodes| && k.g.IsGate(n) && k.g.inputs[n] == ids
    && forall xs :: |xs| == |ids| ==> k.g.nodes[n].cell.fn.Apply(xs) == f(xs)
  }

  /** The gates between the latches and the latch gates. */
  datatype GapGates = GapGates(flip0: nat, differ: nat, both: nat, flip2: nat, next2: nat)

  /** Three plain flip-flops. Latch 0 toggles, latch 1 takes over the difference of the first two, and latch
      2 toggles when both are 1 but otherwise takes over that difference instead of keeping its value. */
  ghost predicate IsGap(k: Design, u: GapGates) {
    && k.Valid() && |k.q| == 3
    && Computes(k, u.flip0, [k.q[0]], Inv)
    && Computes(k, u.differ, [k.q[0], k.q[1]], Xor2)
    && Computes(k, u.both, [k.q[0], k.q[1]], And2)
    && Computes(k, u.flip2, [k.q[2]], Inv)
    && Computes(k, u.next2, [u.differ, u.flip2, u.both], Mux2)
    && Computes(k, k.d[0], [u.flip0], Buf)
    && Computes(k, k.d[1], [u.differ], Buf)
    && Computes(k, k.d[2], [u.next2], Buf)
  }

  lemma ConeValue(k: Design, n: nat, top: nat, ids: seq<nat>, f: Bits -> bool, v: Bits)
    requires k.Valid() && Computes(k, n, ids, f) && top < |k.g.nodes| && InCone(k, n, top)
    requires |v| == |k.g.nodes| && SolvesCone(k, top, v)
    ensures v[n] == f(Pick(v, ids))
    ensures forall p :: 0 <= p < |ids| && k.g.IsGate(ids[p]) ==> InCone(k, ids[p], top)
  {
    forall p | 0 <= p < |ids| && k.g.IsGate(ids[p]) ensures InCone(k, ids[p], top) {
      FeedsThrough(k.g, k.rank, n, top, p);
    }
  }

  lemma FirstValue(k: Design, u: GapGates, v: Bits)
    requires IsGap(k, u) && |v| == |k.g.nodes| && SolvesCone(k, k.d[0], v)
    ensures v[k.d[0]] == !v[k.q[0]]
  {
    assert InCone(k, k.d[0], k.d[0]);
    ConeValue(k, k.d[0], k.d[0], [u.flip0], Buf, v);
    assert [u.flip0][0] == u.flip0;
    ConeValue(k, u.flip0, k.d[0], [k.q[0]], Inv, v);
  }

  lemma DifferenceValue(k: Design, u: GapGates, top: nat, v: Bits)
    requires IsGap(k, u) && top < |k.g.nodes| && |v| == |k.g.nodes| && SolvesCone(k, top, v)
    requires InCone(k, u.differ, top)
    ensures v[u.differ] == (v[k.q[0]] != v[k.q[1]])
  {
    ConeValue(k, u.differ, top, [k.q[0], k.q[1]], Xor2, v);
  }

  lemma SecondValue(k: Design, u: GapGates, v: Bits)
    requires IsGap(k, u) && |v| == |k.g.nodes| && SolvesCone(k, k.d[1], v)
    ensures v[k.d[1]] == v[u.differ] == (v[k.q[0]] != v[k.q[1]])
  {
    assert InCone(k, k.d[1], k.d[1]);
    ConeValue(k, k.d[1], k.d[1], [u.differ], Buf, v);
    assert [u.differ][0] == u.differ;
    DifferenceValue(k, u, k.d[1], v);
  }

  lemma ThirdValue(k: Design, u: GapGates, v: Bits)
    requires IsGap(k, u) && |v| == |k.g.nodes| && SolvesCone(k, k.d[2], v)
    ensures v[k.d[2]] == if v[k.q[0]] && v[k.q[1]] then !v[k.q[2]] else v[u.differ]
    ensures v[u.differ] == (v[k.q[0]] != v[k.q[1]])
  {
    var ids := [u.differ, u.flip2, u.both];
    assert InCone(k, k.d[2], k.d[2]);
    ConeValue(k, k.d[2], k.d[2], [u.next2], Buf, v);
    assert [u.next2][0] == u.next2;
    ConeValue(k, u.next2, k.d[2], ids, Mux2, v);
    assert ids[0] == u.differ && ids[1] == u.flip2 && ids[2] == u.both;
    DifferenceValue(k, u, k.d[2], v);
    ConeValue(k, u.flip2, k.d[2], [k.q[2]], Inv, v);
    ConeValue(k, u.both, k.d[2], [k.q[0], k.q[1]], And2, v);
  }

  lemma LowerBits(k: Design, u: GapGates, v: Bits)
    requires IsGap(k, u) && |v| == |k.g.nodes|
    ensures k.LowerAre(v, 1, true) <==> v[k.q[0]]
    ensures k.LowerAre(v, 2, true) <==> v[k.q[0]] && v[k.q[1]]
  {
  }

  lemma GapSteps(k: Design, u: GapGates, value: bool, i: nat)
    requires IsGap(k, u) && 1 <= i < 3
    ensures QuerySame(k, true, value, i)
  {
    forall v: Bits, w: Bits | SameCopies(k, true, value, i, v, w) ensures v[k.d[0]] == w[k.d[i]] {
      FirstValue(k, u, v);
      LowerBits(k, u, w);
      if i == 1 { SecondValue(k, u, w); } else { ThirdValue(k, u, w); }
    }
  }

  /** t2 compares nothing here: the gate of a plain flip-flop reads no latch. */
  lemma GapHolds(k: Design, u: GapGates, i: nat)
    requires IsGap(k, u) && 1 <= i < 3
    ensures QueryHold(k, true, i)
  {
    assert k.g.inputs[k.d[i]] == [if i == 1 then u.differ else u.next2];
    QueryHoldIsBlind(k, true, i);
  }

  /** t3 compares the difference with itself, its literal being shared. */
  lemma GapIsAlike(k: Design, u: GapGates)
    requires IsGap(k, u)
    ensures QueryAlike(k, true, 2)
  {
    forall v: Bits, w: Bits | AlikeCopies(k, true, 2, v, w) ensures v[k.d[2]] == w[k.d[1]] {
      ThirdValue(k, u, v);
      LowerBits(k, u, v);
      SecondValue(k, u, w);
      assert u.differ !in k.q[..3];
    }
  }

  lemma ThirdNext(k: Design, u: GapGates, a: Bits)
    requires IsGap(k, u) && |a| == |k.g.nodes|
    ensures k.Next(a, 2) == if a[k.q[0]] && a[k.q[1]] then !a[k.q[2]] else a[k.q[0]] != a[k.q[1]]
  {
    SolvedSolvesCone(k, a, k.d[2]);
    ThirdValue(k, u, Solved(k, a));
  }

  lemma HeldByTwo(k: Design) returns (a: Bits, b: Bits)
    requires k.Valid() && |k.q| == 3
    ensures |a| == |b| == |k.g.nodes| && k.AgreeOutside(a, b, 2) && k.Held(a, 2, true) && k.Held(b, 2, true)
    ensures !a[k.q[0]] && b[k.q[0]] && !a[k.q[1]] && !b[k.q[1]]
  {
    a := seq(|k.g.nodes|, i => false)[k.q[2] := true];
    b := a[k.q[0] := true];
    assert k.q[0] in k.q[..2];
    assert !a[k.q[1]] && !b[k.q[1]];
  }

  /** The third latch is held at 0 or at 1 depending on the latches below it. */
  lemma GapHoldDiffers(k: Design, u: GapGates)
    requires IsGap(k, u)
    ensures !k.HoldIsConstant(true, 2)
  {
    var a, b := HeldByTwo(k);
    ThirdNext(k, u, a);
    ThirdNext(k, u, b);
  }

  /** Accepted at every position from 1 up, and yet not of counter shape. */
  lemma AcceptedWithoutShape(k: Design, u: GapGates)
    requires IsGap(k, u)
    ensures forall i :: 1 <= i < |k.q| ==> Accepted(k, true, i)
    ensures !exists step, hold :: k.HasShape(true, step, hold)
  {
    forall i | 1 <= i < |k.q| ensures Accepted(k, true, i) {
      GapSteps(k, u, false, i);
      GapSteps(k, u, true, i);
      GapHolds(k, u, i);
      GapIsAlike(k, u);
    }
    if step, hold :| k.HasShape(true, step, hold) {
      ShapePasses(k, true, step, hold, 2);
      GapHoldDiffers(k, u);
    }
  }

  // ---- such a netlist ----

  /** Latches 0, 1 and 2 read their gates 8, 9 and 10. */
  function GapInputs(n: nat): (ids: seq<nat>)
    requires n < 11
    ensures forall i :: 0 <= i < |ids| ==> ids[i] < 11 && (n >= 3 ==> GapRank(ids[i]) < GapRank(n))
    ensures forall i :: 0 <= i < |ids| && ids[i] >= 8 ==> n == ids[i] - 8
  {
    match n
    case 0 => [8]
    case 1 => [9]
    case 2 => [10]
    case 3 => [0]
    case 4 => [0, 1]
    case 5 => [0, 1]
    case 6 => [2]
    case 7 => [4, 6, 5]
    case 8 => [3]
    case 9 => [4]
    case _ => [7]
  }

  function GapRank(n: nat): nat {
    if n < 3 then 0 else if n < 7 then 1 else if n == 7 then 2 else 3
  }

  ghost function GapFunction(n: nat): Bits -> bool {
    if n == 3 || n == 6 then Inv else if n == 4 then Xor2 else if n == 5 then And2 else if n == 7 then Mux2 else Buf
  }

  ghost function GapCell(n: nat): (c: Cell)
    requires n < 11
    ensures c.Valid() && (n >= 3 ==> c.fn.arity == |GapInputs(n)|)
  {
    CellOf(|GapInputs(n)|, GapFunction(n))
  }

  ghost predicate IsGapNode(k: Design, n: nat)
    requires n < |k.g.nodes| && n < |k.g.inputs| && n < |k.rank| && n < 11
  {
    && k.g.nodes[n] == Node(if n < 3 then LatchNode else GateNode, GapCell(n), n >= 8, false)
    && k.g.inputs[n] == GapInputs(n) && k.rank[n] == GapRank(n)
  }

  ghost predicate IsGapDesign(k: Design) {
    && |k.g.nodes| == |k.g.inputs| == |k.rank| == 11 && |k.q| == |k.d| == 3
    && (forall n: nat :: n < 11 ==> IsGapNode(k, n))
    && (forall i: nat :: i < 3 ==> k.q[i] == i && k.d[i] == i + 8)
  }

  ghost function GapDesign(): (k: Design)
    ensures IsGapDesign(k)
  {
    var nodes := seq(11, n requires 0 <= n < 11 =>
      Node(if n < 3 then LatchNode else GateNode, GapCell(n), n >= 8, false));
    var inputs := seq(11, n requires 0 <= n < 11 => GapInputs(n));
    Design(Graph(nodes, inputs), seq(11, n requires 0 <= n < 11 => GapRank(n)), [0, 1, 2], [8, 9, 10])
  }

  lemma GapDesignValid(k: Design)
    requires IsGapDesign(k)
    ensures k.Valid()
  {
    forall n: nat, i: nat | n < 11 && i < |k.g.inputs[n]|
      ensures k.g.inputs[n][i] < 11 && (k.g.IsGate(n) ==> k.rank[k.g.inputs[n][i]] < k.rank[n])
    {
      assert IsGapNode(k, n) && IsGapNode(k, GapInputs(n)[i]);
    }
    forall n: nat | n < 11 && k.g.IsGate(n)
      ensures k.g.nodes[n].cell.Valid() && k.g.nodes[n].cell.fn.arity == |k.g.inputs[n]|
    {
      assert IsGapNode(k, n);
    }
    assert k.g.Valid() && k.g.RankedBy(k.rank);
    forall i: nat | i < 3 ensures k.g.nodes[k.q[i]].kind.LatchNode? && IsOnlyReader(k.g, k.q[i], k.d[i]) {
      GapLatch(k, i);
    }
  }

  lemma GapLatch(k: Design, i: nat)
    requires IsGapDesign(k) && k.g.Valid() && i < 3
    ensures k.g.nodes[k.q[i]].kind.LatchNode? && IsOnlyReader(k.g, k.q[i], k.d[i])
  {
    assert IsGapNode(k, i) && GapInputs(i)[0] == i + 8;
    forall m: nat, p: nat | m < 11 && p < |k.g.inputs[m]| && k.g.inputs[m][p] == i + 8 ensures m == i {
      assert IsGapNode(k, m);
    }
  }

  lemma GapDesignIsGap(k: Design)
    requires IsGapDesign(k)
    ensures IsGap(k, GapGates(3, 4, 5, 6, 7))
  {
    GapDesignValid(k);
    assert k.q[0] == 0 && k.q[1] == 1 && k.q[2] == 2 && k.d[0] == 8 && k.d[1] == 9 && k.d[2] == 10;
    GapLogic(k);
    GapComputes(k, 8, [3], Buf);
    GapComputes(k, 9, [4], Buf);
    GapComputes(k, 10, [7], Buf);
  }

  lemma GapLogic(k: Design)
    requires IsGapDesign(k) && k.Valid()
    ensures Computes(k, 3, [0], Inv) && Computes(k, 4, [0, 1], Xor2) && Computes(k, 5, [0, 1], And2)
    ensures Computes(k, 6, [2], Inv) && Computes(k, 7, [4, 6, 5], Mux2)
  {
    GapComputes(k, 3, [0], Inv);
    GapComputes(k, 4, [0, 1], Xor2);
    GapComputes(k, 5, [0, 1], And2);
    GapComputes(k, 6, [2], Inv);
    GapComputes(k, 7, [4, 6, 5], Mux2);
  }

  lemma GapComputes(k: Design, n: nat, ids: seq<nat>, f: Bits -> bool)
    requires IsGapDesign(k) && k.Valid() && 3 <= n < 11 && ids == GapInputs(n) && f == GapFunction(n)
    ensures Computes(k, n, ids, f)
  {
    assert IsGapNode(k, n);
  }

  /** So the queries accept more than counters: an up "counter" of three plain flip-flops, in a netlist of
      library cells, without the shape. */
  lemma QueriesAcceptMore() returns (k: Design)
    ensures k.Valid() && |k.q| == 3 && forall i :: 1 <= i < |k.q| ==> Accepted(k, true, i)
    ensures !exists step, hold :: k.HasShape(true, step, hold)
  {
    k := GapDesign();
    GapDesignIsGap(k);
    AcceptedWithoutShape(k, GapGates(3, 4, 5, 6, 7));
  }
}
