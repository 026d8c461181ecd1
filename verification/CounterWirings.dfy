/** On which wirings the counter queries accept exactly what the checks mean, whatever the cells
    compute, and cells that mislead the queries on all other wirings. */
module CounterWirings {
  import opened BoolFunctions
  import opened Netlists
  import opened CounterChecks
  import opened CounterQueries

  /** The gates below latch input `i` read none of the lower latches; only its own gate may. */
  ghost predicate ReadsLowerAtTopOnly(k: Design, i: nat)
    requires k.Valid() && i < |k.q|
  {
    forall x: nat, p: nat ::
      InCone(k, x, k.d[i]) && x != k.d[i] && p < |k.g.inputs[x]| ==> k.g.inputs[x][p] !in k.q[..i]
  }

  /** The gates in the cones of both latch inputs `i` and `i - 1` read none of the first `m` latches. */
  ghost predicate SharedReadNone(k: Design, i: nat, m: nat)
    requires k.Valid() && 1 <= i < |k.q| && m <= |k.q|
  {
    forall x: nat, p: nat ::
      InCone(k, x, k.d[i]) && InCone(k, x, k.d[i - 1]) && p < |k.g.inputs[x]| ==> k.g.inputs[x][p] !in k.q[..m]
  }

  /** They read no latch up to latch `i`. */
  ghost predicate SharedReadNoLatch(k: Design, i: nat)
    requires k.Valid() && 1 <= i < |k.q|
  {
    SharedReadNone(k, i, i + 1)
  }

  // ---- the conditions are enough ----

  /** A gate has the same value from `a` as from `b` if what it reads has. */
  lemma SameInputsSameValue(k: Design, a: Bits, b: Bits, x: nat)
    requires k.Valid() && |a| == |b| == |k.g.nodes| && x < |a| && k.g.IsGate(x)
    requires forall p :: 0 <= p < |k.g.inputs[x]| ==>
               Eval(k.g, k.rank, a, k.g.inputs[x][p]) == Eval(k.g, k.rank, b, k.g.inputs[x][p])
    ensures Eval(k.g, k.rank, a, x) == Eval(k.g, k.rank, b, x)
  {
    var xs := seq(|k.g.inputs[x]|, p requires 0 <= p < |k.g.inputs[x]| => Eval(k.g, k.rank, a, k.g.inputs[x][p]));
    var ys := seq(|k.g.inputs[x]|, p requires 0 <= p < |k.g.inputs[x]| => Eval(k.g, k.rank, b, k.g.inputs[x][p]));
    assert xs == ys;
  }

  lemma {:induction false} InnerValue(k: Design, i: nat, a: Bits, b: Bits, x: nat)
    requires k.Valid() && i < |k.q| && |a| == |b| == |k.g.nodes| && ReadsLowerAtTopOnly(k, i)
    requires k.AgreeOutside(a, b, i) && InCone(k, x, k.d[i]) && x != k.d[i]
    ensures Eval(k.g, k.rank, a, x) == Eval(k.g, k.rank, b, x)
    decreases k.rank[x]
  {
    forall p | 0 <= p < |k.g.inputs[x]|
      ensures Eval(k.g, k.rank, a, k.g.inputs[x][p]) == Eval(k.g, k.rank, b, k.g.inputs[x][p])
    {
      var y := k.g.inputs[x][p];
      FeedsThrough(k.g, k.rank, x, k.d[i], p);
      if k.g.IsGate(y) {
        ReadIsNoTop(k, i, x, p);
        InnerValue(k, i, a, b, y);
      }
    }
    SameInputsSameValue(k, a, b, x);
  }

  /** No gate reads a latch gate. */
  lemma ReadIsNoTop(k: Design, i: nat, x: nat, p: nat)
    requires k.Valid() && i < |k.q| && x < |k.g.nodes| && k.g.IsGate(x) && p < |k.g.inputs[x]| && k.HasCone(i)
    ensures k.g.inputs[x][p] != k.d[i]
  {
  }

  lemma {:induction false} SharedValue(k: Design, i: nat, m: nat, a: Bits, b: Bits, x: nat)
    requires k.Valid() && 1 <= i < |k.q| && m <= |k.q| && |a| == |b| == |k.g.nodes| && SharedReadNone(k, i, m)
    requires k.AgreeOutside(a, b, m) && InCone(k, x, k.d[i]) && InCone(k, x, k.d[i - 1])
    ensures Eval(k.g, k.rank, a, x) == Eval(k.g, k.rank, b, x)
    decreases k.rank[x]
  {
    forall p | 0 <= p < |k.g.inputs[x]|
      ensures Eval(k.g, k.rank, a, k.g.inputs[x][p]) == Eval(k.g, k.rank, b, k.g.inputs[x][p])
    {
      var y := k.g.inputs[x][p];
      FeedsThrough(k.g, k.rank, x, k.d[i], p);
      FeedsThrough(k.g, k.rank, x, k.d[i - 1], p);
      if k.g.IsGate(y) { SharedValue(k, i, m, a, b, y); }
    }
    SameInputsSameValue(k, a, b, x);
  }

  lemma InnerAgreeThere(k: Design, i: nat, a: Bits, b: Bits)
    requires k.Valid() && i < |k.q| && |a| == |b| == |k.g.nodes| && ReadsLowerAtTopOnly(k, i)
    requires k.AgreeOutside(a, b, i)
    ensures InnerAgree(k, i, a, b)
  {
    forall x: nat | InCone(k, x, k.d[i]) && x != k.d[i] ensures Eval(k.g, k.rank, a, x) == Eval(k.g, k.rank, b, x) {
      InnerValue(k, i, a, b, x);
    }
  }

  lemma SharedAgreeThere(k: Design, i: nat, m: nat, a: Bits, b: Bits)
    requires k.Valid() && 1 <= i < |k.q| && m <= |k.q| && |a| == |b| == |k.g.nodes| && SharedReadNone(k, i, m)
    requires k.AgreeOutside(a, b, m)
    ensures SharedAgree(k, i, a, b)
  {
    forall x: nat | InCone(k, x, k.d[i]) && InCone(k, x, k.d[i - 1])
      ensures Eval(k.g, k.rank, a, x) == Eval(k.g, k.rank, b, x)
    {
      SharedValue(k, i, m, a, b, x);
    }
  }

  lemma HoldShows(k: Design, one: bool, i: nat)
    requires k.Valid() && i < |k.q| && ReadsLowerAtTopOnly(k, i)
    ensures HoldLooksConstant(k, one, i) <==> k.HoldIsConstant(one, i)
  {
    forall a: Bits, b: Bits | |a| == |b| == |k.g.nodes| && k.AgreeOutside(a, b, i) ensures InnerAgree(k, i, a, b) {
      InnerAgreeThere(k, i, a, b);
    }
  }

  lemma LikenessShows(k: Design, one: bool, i: nat)
    requires k.Valid() && 1 <= i < |k.q| && SharedReadNoLatch(k, i)
    ensures HoldLooksAlike(k, one, i) <==> k.HoldIsAlike(one, i)
  {
    if HoldLooksAlike(k, one, i) && i >= 2 {
      forall a: Bits, b: Bits | |a| == |b| == |k.g.nodes| && k.AgreeOutside(a, b, i + 1) && k.Held(a, i, one) &&
                                k.Held(b, i - 1, one)
        ensures k.Next(a, i) == k.Next(b, i - 1)
      {
        SharedAgreeThere(k, i, i + 1, a, b);
      }
    }
  }

  lemma {:induction false} OutsideDetermines(k: Design, a: Bits, b: Bits, x: nat)
    requires k.Valid() && |a| == |b| == |k.g.nodes| && x < |a|
    requires forall y :: 0 <= y < |a| && !k.g.IsGate(y) ==> a[y] == b[y]
    ensures Eval(k.g, k.rank, a, x) == Eval(k.g, k.rank, b, x)
    decreases k.rank[x]
  {
    if k.g.IsGate(x) {
      forall p | 0 <= p < |k.g.inputs[x]|
        ensures Eval(k.g, k.rank, a, k.g.inputs[x][p]) == Eval(k.g, k.rank, b, k.g.inputs[x][p])
      {
        OutsideDetermines(k, a, b, k.g.inputs[x][p]);
      }
      SameInputsSameValue(k, a, b, x);
    }
  }

  /** Latch 1 is held by latch 0 alone, so there is nothing its held value could vary with. */
  lemma SecondIsHeldConstant(k: Design, one: bool)
    requires k.Valid() && |k.q| >= 2
    ensures k.HoldIsConstant(one, 1) <==> k.HasCone(1)
  {
    forall a: Bits, b: Bits | |a| == |b| == |k.g.nodes| && k.AgreeOutside(a, b, 1) && k.Held(a, 1, one) &&
                              k.Held(b, 1, one)
      ensures k.Next(a, 1) == k.Next(b, 1)
    {
      forall y | 0 <= y < |a| && !k.g.IsGate(y) ensures a[y] == b[y] {
        if y in k.q[..1] { assert y == k.q[0]; }
      }
      OutsideDetermines(k, a, b, k.d[1]);
    }
  }

  /** Like `a`, but with latch 0 not `one` and latch `i - 1` at 1. */
  lemma HeldOneLower(k: Design, one: bool, i: nat, a: Bits) returns (c: Bits)
    requires k.Valid() && 2 <= i < |k.q| && |a| == |k.g.nodes|
    ensures |c| == |a| && k.Held(c, i - 1, one)
    ensures forall x :: 0 <= x < |a| && x !in k.q[..i] ==> c[x] == a[x]
  {
    c := a[k.q[0] := !one][k.q[i - 1] := true];
    assert k.q[0] in k.q[..i] && k.q[i - 1] in k.q[..i];
    assert c[k.q[0]] != one;
  }

  /** From the third latch on, t3 as it is meant says all that t2 is meant to say. */
  lemma AlikeIsConstant(k: Design, one: bool, i: nat)
    requires k.Valid() && 2 <= i < |k.q| && k.HoldIsAlike(one, i)
    ensures k.HoldIsConstant(one, i)
  {
    forall a: Bits, b: Bits | |a| == |b| == |k.g.nodes| && k.AgreeOutside(a, b, i) && k.Held(a, i, one) &&
                              k.Held(b, i, one)
      ensures k.Next(a, i) == k.Next(b, i)
    {
      var c := HeldOneLower(k, one, i, a);
      assert k.q[..i] <= k.q[..i + 1];
      assert forall x :: x in k.q[..i] ==> x in k.q[..i + 1];
      assert k.AgreeOutside(a, c, i + 1) && k.AgreeOutside(b, c, i + 1);
    }
  }

  /** Where the shared gates read no counter latch, a position is accepted exactly when it counts. */
  lemma AcceptedIffCounts(k: Design, one: bool, i: nat)
    requires k.Valid() && 1 <= i < |k.q| && (i >= 2 ==> SharedReadNoLatch(k, i))
    ensures Accepted(k, one, i) <==> k.Counts(one, i)
  {
    AcceptedIff(k, one, i);
    if k.Counts(one, i) { CountsAreAccepted(k, one, i); }
    if i == 1 {
      SecondIsHeldConstant(k, one);
    } else {
      LikenessShows(k, one, i);
      if k.HoldIsAlike(one, i) { AlikeIsConstant(k, one, i); }
    }
  }

  /** Where no gate shared by neighbouring cones reads a counter latch, the queries accept at every
      position exactly the designs of counter shape. */
  lemma AcceptedIffShape(k: Design, one: bool)
    requires k.Valid() && |k.q| >= 2
    requires forall i :: 2 <= i < |k.q| ==> SharedReadNoLatch(k, i)
    ensures (forall i :: 1 <= i < |k.q| ==> Accepted(k, one, i)) <==>
            exists step, hold :: k.HasShape(one, step, hold)
  {
    forall i | 1 <= i < |k.q| ensures Accepted(k, one, i) <==> k.Counts(one, i) {
      AcceptedIffCounts(k, one, i);
    }
    ChecksIffShape(k, one);
  }

  // ---- the conditions are needed ----

  /** `p` has the latches and the wiring of `k`; its gates may be other cells. */
  ghost predicate SameWiring(k: Design, p: Design)
    requires k.Valid()
  {
    && p.Valid() && |p.g.nodes| == |k.g.nodes| && p.g.inputs == k.g.inputs && p.rank == k.rank
    && p.q == k.q && p.d == k.d && forall n: nat :: n < |k.g.nodes| ==> (p.g.IsGate(n) <==> k.g.IsGate(n))
  }

  lemma {:induction false} WiringFeeds(k: Design, p: Design, n: nat, top: nat)
    requires k.Valid() && SameWiring(k, p) && top < |k.g.nodes|
    ensures Feeds(p.g, p.rank, n, top) <==> Feeds(k.g, k.rank, n, top)
    decreases k.rank[top]
  {
    if k.g.IsGate(top) {
      forall j | 0 <= j < |k.g.inputs[top]|
        ensures Feeds(p.g, p.rank, n, k.g.inputs[top][j]) <==> Feeds(k.g, k.rank, n, k.g.inputs[top][j])
      {
        WiringFeeds(k, p, n, k.g.inputs[top][j]);
      }
    }
  }

  lemma WiringCones(k: Design, p: Design, top: nat)
    requires k.Valid() && SameWiring(k, p) && top < |k.g.nodes|
    ensures forall x: nat :: InCone(p, x, top) <==> InCone(k, x, top)
  {
    forall x: nat ensures InCone(p, x, top) <==> InCone(k, x, top) {
      WiringFeeds(k, p, x, top);
    }
  }

  /** The conditions are about the wiring alone. */
  lemma WiringDecides(k: Design, p: Design, i: nat)
    requires k.Valid() && SameWiring(k, p) && 1 <= i < |k.q|
    ensures ReadsLowerAtTopOnly(p, i) <==> ReadsLowerAtTopOnly(k, i)
    ensures SharedReadNoLatch(p, i) <==> SharedReadNoLatch(k, i)
  {
    WiringCones(k, p, k.d[i]);
    WiringCones(k, p, k.d[i - 1]);
  }

  /** A cell of `n` inputs that gives input `j`, and one that gives `c`. */
  ghost function Projection(n: nat, j: nat): (c: Cell)
    requires j < n
    ensures c.Valid() && c.fn.arity == n && forall xs :: |xs| == n ==> (c.fn.Apply(xs) <==> xs[j])
  {
    LibraryCell(Fn(n, set xs | xs in Vectors(n) && xs[j]))
  }

  ghost function Constant(n: nat, v: bool): (c: Cell)
    ensures c.Valid() && c.fn.arity == n && forall xs :: |xs| == n ==> (c.fn.Apply(xs) <==> v)
  {
    LibraryCell(Fn(n, set xs | xs in Vectors(n) && v))
  }

  /** The design `k` with its gates replaced by `cells`. */
  ghost function Fitted(k: Design, cells: seq<Cell>): (p: Design)
    requires k.Valid() && |cells| == |k.g.nodes|
    requires forall n: nat :: n < |cells| && k.g.IsGate(n) ==> Fits(k, cells[n], n)
    ensures SameWiring(k, p)
    ensures forall n: nat :: n < |cells| && k.g.IsGate(n) ==> p.g.nodes[n].cell == cells[n]
  {
    var nodes := seq(|cells|, n requires 0 <= n < |cells| =>
      if k.g.IsGate(n) then k.g.nodes[n].(cell := cells[n]) else k.g.nodes[n]);
    var p := k.(g := Graph(nodes, k.g.inputs));
    assert p.g.Valid() by {
      forall n | 0 <= n < |cells| && p.g.IsGate(n)
        ensures nodes[n].cell.Valid() && nodes[n].cell.fn.arity == |k.g.inputs[n]|
      {
        assert Fits(k, cells[n], n);
      }
    }
    assert p.g.RankedBy(p.rank);
    p
  }

  ghost predicate Fits(k: Design, c: Cell, n: nat)
    requires k.Valid() && n < |k.g.nodes|
  {
    c.Valid() && c.fn.arity == |k.g.inputs[n]|
  }

  /** The pin at which gate `n`, fed by gate `x`, takes over what `x` takes from its own pin `pin`. */
  ghost function CarryPin(k: Design, x: nat, pin: nat, n: nat): (j: nat)
    requires k.Valid() && x < |k.g.nodes| && k.g.IsGate(x) && pin < |k.g.inputs[x]|
    requires n < |k.g.nodes| && k.g.IsGate(n) && Feeds(k.g, k.rank, x, n)
    ensures j < |k.g.inputs[n]| && if n == x then j == pin else Feeds(k.g, k.rank, x, k.g.inputs[n][j])
  {
    if n == x then pin
    else
      var j: nat :| j < |k.g.inputs[n]| && Feeds(k.g, k.rank, x, k.g.inputs[n][j]);
      j
  }

  /** In the cone of `top`, the gates of `p` hand on what gate `x` takes from its pin `pin`. */
  ghost predicate HandsOn(k: Design, p: Design, x: nat, pin: nat, top: nat)
    requires k.Valid() && x < |k.g.nodes| && k.g.IsGate(x) && pin < |k.g.inputs[x]| && top < |k.g.nodes|
  {
    SameWiring(k, p) &&
    forall n: nat {:trigger HandsOnAt(k, p, x, pin, n)} ::
      InCone(k, n, top) && Feeds(k.g, k.rank, x, n) ==> HandsOnAt(k, p, x, pin, n)
  }

  ghost predicate HandsOnAt(k: Design, p: Design, x: nat, pin: nat, n: nat)
    requires k.Valid() && SameWiring(k, p) && x < |k.g.nodes| && k.g.IsGate(x) && pin < |k.g.inputs[x]|
    requires n < |k.g.nodes| && k.g.IsGate(n) && Feeds(k.g, k.rank, x, n)
  {
    p.g.nodes[n].cell == Projection(|k.g.inputs[n]|, CarryPin(k, x, pin, n))
  }

  lemma ProjectedValue(p: Design, n: nat, j: nat, a: Bits)
    requires p.Valid() && |a| == |p.g.nodes| && n < |a| && p.g.IsGate(n) && j < |p.g.inputs[n]|
    requires p.g.nodes[n].cell == Projection(|p.g.inputs[n]|, j)
    ensures Eval(p.g, p.rank, a, n) == Eval(p.g, p.rank, a, p.g.inputs[n][j])
  {
    var xs := seq(|p.g.inputs[n]|, i requires 0 <= i < |p.g.inputs[n]| => Eval(p.g, p.rank, a, p.g.inputs[n][i]));
    assert xs[j] == Eval(p.g, p.rank, a, p.g.inputs[n][j]);
    assert p.g.nodes[n].cell.fn.Apply(xs) == xs[j];
  }

  lemma ConstantValue(p: Design, n: nat, v: bool, a: Bits)
    requires p.Valid() && |a| == |p.g.nodes| && n < |a| && p.g.IsGate(n)
    requires p.g.nodes[n].cell == Constant(|p.g.inputs[n]|, v)
    ensures Eval(p.g, p.rank, a, n) == v
  {
    var xs := seq(|p.g.inputs[n]|, i requires 0 <= i < |p.g.inputs[n]| => Eval(p.g, p.rank, a, p.g.inputs[n][i]));
    assert Constant(|p.g.inputs[n]|, v).fn.Apply(xs) == v;
  }

  lemma {:induction false} CarriedValue(k: Design, p: Design, x: nat, pin: nat, top: nat, a: Bits, n: nat)
    requires k.Valid() && x < |k.g.nodes| && k.g.IsGate(x) && pin < |k.g.inputs[x]| && top < |k.g.nodes|
    requires HandsOn(k, p, x, pin, top) && |a| == |k.g.nodes| && !k.g.IsGate(k.g.inputs[x][pin])
    requires InCone(k, n, top) && Feeds(k.g, k.rank, x, n)
    ensures Eval(p.g, p.rank, a, n) == a[k.g.inputs[x][pin]]
    decreases k.rank[n]
  {
    var j := CarryPin(k, x, pin, n);
    assert HandsOnAt(k, p, x, pin, n);
    ProjectedValue(p, n, j, a);
    if n != x {
      FeedsThrough(k.g, k.rank, n, top, j);
      CarriedValue(k, p, x, pin, top, a, k.g.inputs[n][j]);
    }
  }

  /** Node `n` always has the value of latch `m`. */
  ghost predicate GivesLatch(p: Design, n: nat, m: nat)
    requires p.Valid() && n < |p.g.nodes| && m < |p.q|
  {
    forall a :: |a| == |p.g.nodes| ==> Eval(p.g, p.rank, a, n) == a[p.q[m]]
  }

  ghost predicate GivesValue(p: Design, n: nat, v: bool)
    requires p.Valid() && n < |p.g.nodes|
  {
    forall a :: |a| == |p.g.nodes| ==> Eval(p.g, p.rank, a, n) == v
  }

  /** Gate `x`, common to the cones of latch inputs `i` and `i - 1`, gives latch `m`; so does latch input
      `i - 1`, and so does latch input `i`, unless `m` is `i` and it is constantly 1. */
  ghost predicate Misleads(p: Design, i: nat, x: nat, m: nat)
    requires p.Valid() && 2 <= i < |p.q| && m <= i
  {
    && p.HasCone(i) && p.HasCone(i - 1) && InCone(p, x, p.d[i]) && InCone(p, x, p.d[i - 1])
    && GivesLatch(p, x, m) && GivesLatch(p, p.d[i - 1], m)
    && if m == i then GivesValue(p, p.d[i], true) else GivesLatch(p, p.d[i], m)
  }

  lemma IsHeld(p: Design, one: bool, i: nat, a: Bits, low: nat)
    requires p.Valid() && low < i < |p.q| && |a| == |p.g.nodes| && a[p.q[i]] && a[p.q[low]] == !one
    ensures p.Held(a, i, one)
  {
  }

  /** All ones but for two latches. */
  ghost function OnesBut(p: Design, i: nat, u: bool, j: nat, v: bool): (a: Bits)
    requires p.Valid() && i < |p.q| && j < |p.q| && i != j
    ensures |a| == |p.g.nodes| && a[p.q[i]] == u && a[p.q[j]] == v
    ensures forall n :: 0 <= n < |p.q| && n != i && n != j ==> a[p.q[n]]
  {
    seq(|p.g.nodes|, n => true)[p.q[i] := u][p.q[j] := v]
  }

  lemma OnesButAgree(p: Design, m: nat, i: nat, u: bool, j: nat, v: bool, i': nat, u': bool, j': nat, v': bool)
    requires p.Valid() && m <= |p.q| && i < m && j < m && i != j && i' < m && j' < m && i' != j'
    ensures p.AgreeOutside(OnesBut(p, i, u, j, v), OnesBut(p, i', u', j', v'), m)
  {
    assert p.q[i] in p.q[..m] && p.q[j] in p.q[..m] && p.q[i'] in p.q[..m] && p.q[j'] in p.q[..m];
  }

  /** Latch `i` held in `a` and latch `i - 1` held in `b`, with different values of latch `m`. */
  lemma ToldApart(p: Design, one: bool, i: nat, m: nat) returns (a: Bits, b: Bits)
    requires p.Valid() && 2 <= i < |p.q| && m <= i
    ensures |a| == |b| == |p.g.nodes| && p.AgreeOutside(a, b, i + 1)
    ensures p.Held(a, i, one) && p.Held(b, i - 1, one) && a[p.q[m]] != b[p.q[m]]
  {
    if m < i - 1 {
      a, b := OnesBut(p, m, one, i - 1, !one), OnesBut(p, m, !one, i, true);
      OnesButAgree(p, i + 1, m, one, i - 1, !one, m, !one, i, true);
      IsHeld(p, one, i, a, i - 1);
      IsHeld(p, one, i - 1, b, m);
    } else {
      a, b := OnesBut(p, 0, !one, i - 1, m == i), OnesBut(p, 0, !one, i, m < i);
      OnesButAgree(p, i + 1, 0, !one, i - 1, m == i, 0, !one, i, m < i);
      IsHeld(p, one, i, a, 0);
      IsHeld(p, one, i - 1, b, 0);
    }
  }

  lemma MisleadingIsNotAlike(p: Design, one: bool, i: nat, x: nat, m: nat)
    requires p.Valid() && 2 <= i < |p.q| && m <= i && Misleads(p, i, x, m)
    ensures !p.HoldIsAlike(one, i)
  {
    var a, b := ToldApart(p, one, i, m);
    assert p.Next(b, i - 1) == b[p.q[m]] && p.Next(a, i) == (m == i || a[p.q[m]]);
    assert p.AgreeOutside(a, b, i + 1) && p.Next(a, i) != p.Next(b, i - 1);
  }

  lemma MisleadingLooksAlike(p: Design, one: bool, i: nat, x: nat, m: nat)
    requires p.Valid() && 2 <= i < |p.q| && m <= i && Misleads(p, i, x, m)
    ensures HoldLooksAlike(p, one, i)
  {
    forall a: Bits, b: Bits | |a| == |b| == |p.g.nodes| && p.Held(a, i, one) && SharedAgree(p, i, a, b)
      ensures p.Next(a, i) == p.Next(b, i - 1)
    {
      assert Eval(p.g, p.rank, a, x) == Eval(p.g, p.rank, b, x);
    }
  }

  lemma DistinctLatchGates(p: Design, i: nat, j: nat)
    requires p.Valid() && i < |p.q| && j < |p.q| && i != j && p.HasCone(i)
    ensures p.d[i] != p.d[j] && !Feeds(p.g, p.rank, p.d[i], p.d[j])
  {
    assert IsOnlyReader(p.g, p.q[i], p.d[i]);
    if Feeds(p.g, p.rank, p.d[i], p.d[j]) { LatchGateIsTop(p, i, p.d[j]); }
  }

  /** A gate below the top that tells the value of latch `m` keeps t2 from comparing where it differs. */
  lemma MisleadingLooksConstant(p: Design, one: bool, i: nat, x: nat, m: nat)
    requires p.Valid() && 2 <= i < |p.q| && m <= i && Misleads(p, i, x, m)
    ensures HoldLooksConstant(p, one, i)
  {
    DistinctLatchGates(p, i, i - 1);
    forall a: Bits, b: Bits | |a| == |b| == |p.g.nodes| && InnerAgree(p, i, a, b)
      ensures p.Next(a, i) == p.Next(b, i)
    {
      assert Eval(p.g, p.rank, a, x) == Eval(p.g, p.rank, b, x);
    }
  }

  lemma MisleadingStepsAlike(p: Design, one: bool, value: bool, i: nat, x: nat, m: nat)
    requires p.Valid() && 2 <= i < |p.q| && m <= i && Misleads(p, i, x, m) && p.HasCone(0)
    requires GivesValue(p, p.d[0], m == i || one)
    ensures p.SameAsFirst(one, value, i)
  {
    forall a: Bits, b: Bits | |a| == |b| == |p.g.nodes| && p.LowerAre(b, i, one)
      ensures p.Next(a, 0) == p.Next(b, i)
    {
      assert p.Next(b, i) == (m == i || b[p.q[m]]);
    }
  }

  /** The cells that mislead: latch inputs 0 and, if `m` is `i`, also `i` are constant; what gate `x` feeds
      otherwise hands on latch `m`. */
  ghost function MisleadingCell(k: Design, one: bool, i: nat, x: nat, pin: nat, m: nat, n: nat): (c: Cell)
    requires k.Valid() && 2 <= i < |k.q| && m <= i && x < |k.g.nodes| && k.g.IsGate(x) && pin < |k.g.inputs[x]|
    requires n < |k.g.nodes| && k.g.IsGate(n)
    ensures Fits(k, c, n)
  {
    var arity := |k.g.inputs[n]|;
    if n == k.d[0] then Constant(arity, m == i || one)
    else if n == k.d[i] && m == i then Constant(arity, true)
    else if Feeds(k.g, k.rank, x, n) then Projection(arity, CarryPin(k, x, pin, n))
    else k.g.nodes[n].cell
  }

  ghost function MisleadingDesign(k: Design, one: bool, i: nat, x: nat, pin: nat, m: nat): (p: Design)
    requires k.Valid() && 2 <= i < |k.q| && m <= i && x < |k.g.nodes| && k.g.IsGate(x) && pin < |k.g.inputs[x]|
    ensures SameWiring(k, p)
    ensures forall n: nat :: n < |k.g.nodes| && k.g.IsGate(n) ==>
              p.g.nodes[n].cell == MisleadingCell(k, one, i, x, pin, m, n)
  {
    var cells := seq(|k.g.nodes|, n requires 0 <= n < |k.g.nodes| =>
      if k.g.IsGate(n) then MisleadingCell(k, one, i, x, pin, m, n) else k.g.nodes[n].cell);
    Fitted(k, cells)
  }

  lemma MisleadingHandsOn(k: Design, one: bool, i: nat, x: nat, pin: nat, m: nat, top: nat)
    requires k.Valid() && 2 <= i < |k.q| && m <= i && x < |k.g.nodes| && k.g.IsGate(x) && pin < |k.g.inputs[x]|
    requires k.HasCone(i) && (top == k.d[i - 1] || (top == k.d[i] && m < i))
    ensures HandsOn(k, MisleadingDesign(k, one, i, x, pin, m), x, pin, top)
  {
    var p := MisleadingDesign(k, one, i, x, pin, m);
    var j := if top == k.d[i - 1] then i - 1 else i;
    if k.HasCone(0) { DistinctLatchGates(k, 0, j); }
    if m == i { DistinctLatchGates(k, i, j); }
    forall n: nat | InCone(k, n, top) && Feeds(k.g, k.rank, x, n)
      ensures HandsOnAt(k, p, x, pin, n)
    {
      assert n != k.d[0] && (m == i ==> n != k.d[i]);
      assert p.g.nodes[n].cell == MisleadingCell(k, one, i, x, pin, m, n);
    }
  }

  lemma CarriedGives(k: Design, p: Design, x: nat, pin: nat, m: nat, top: nat, n: nat)
    requires k.Valid() && m < |k.q| && top < |k.g.nodes| && InCone(k, n, top) && InCone(k, x, n)
    requires pin < |k.g.inputs[x]| && k.g.inputs[x][pin] == k.q[m] && HandsOn(k, p, x, pin, top)
    ensures GivesLatch(p, n, m)
  {
    forall a: Bits | |a| == |p.g.nodes| ensures Eval(p.g, p.rank, a, n) == a[p.q[m]] {
      CarriedValue(k, p, x, pin, top, a, n);
    }
  }

  lemma ConstantGives(p: Design, n: nat, v: bool)
    requires p.Valid() && n < |p.g.nodes| && p.g.IsGate(n) && p.g.nodes[n].cell == Constant(|p.g.inputs[n]|, v)
    ensures GivesValue(p, n, v)
  {
    forall a: Bits | |a| == |p.g.nodes| ensures Eval(p.g, p.rank, a, n) == v {
      ConstantValue(p, n, v, a);
    }
  }

  /** The cells that mislead, in a design. */
  lemma Mislead(k: Design, one: bool, i: nat, x: nat, pin: nat, m: nat) returns (p: Design)
    requires k.Valid() && 2 <= i < |k.q| && m <= i && x < |k.g.nodes| && k.g.IsGate(x) && pin < |k.g.inputs[x]|
    requires k.HasCone(i)
    ensures SameWiring(k, p) && HandsOn(k, p, x, pin, k.d[i - 1]) && (m < i ==> HandsOn(k, p, x, pin, k.d[i]))
    ensures m == i ==> p.g.nodes[k.d[i]].cell == Constant(|k.g.inputs[k.d[i]]|, true)
    ensures k.HasCone(0) ==> p.g.nodes[k.d[0]].cell == Constant(|k.g.inputs[k.d[0]]|, m == i || one)
  {
    p := MisleadingDesign(k, one, i, x, pin, m);
    MisleadingHandsOn(k, one, i, x, pin, m, k.d[i - 1]);
    if m < i { MisleadingHandsOn(k, one, i, x, pin, m, k.d[i]); }
    DistinctLatchGates(k, i, 0);
  }

  lemma MisleadingDesignMisleads(k: Design, one: bool, i: nat, x: nat, pin: nat, m: nat) returns (p: Design)
    requires k.Valid() && 2 <= i < |k.q| && m <= i && k.HasCone(i) && k.HasCone(i - 1)
    requires InCone(k, x, k.d[i]) && InCone(k, x, k.d[i - 1]) && pin < |k.g.inputs[x]|
    requires k.g.inputs[x][pin] == k.q[m]
    ensures SameWiring(k, p) && Misleads(p, i, x, m)
    ensures k.HasCone(0) ==> GivesValue(p, k.d[0], m == i || one)
  {
    p := Mislead(k, one, i, x, pin, m);
    assert GivesLatch(p, x, m) && GivesLatch(p, p.d[i - 1], m) by {
      assert InCone(k, x, x) && InCone(k, k.d[i - 1], k.d[i - 1]);
      CarriedGives(k, p, x, pin, m, k.d[i - 1], x);
      CarriedGives(k, p, x, pin, m, k.d[i - 1], k.d[i - 1]);
    }
    if m < i {
      assert InCone(k, k.d[i], k.d[i]);
      CarriedGives(k, p, x, pin, m, k.d[i], k.d[i]);
    } else {
      ConstantGives(p, k.d[i], true);
    }
    if k.HasCone(0) { ConstantGives(p, k.d[0], m == i || one); }
    WiringFeeds(k, p, x, k.d[i]);
    WiringFeeds(k, p, x, k.d[i - 1]);
  }

  lemma HoldMisled(k: Design, p: Design, one: bool, i: nat, x: nat, pin: nat, m: nat)
    requires k.Valid() && 2 <= i < |k.q| && m < i && InCone(k, x, k.d[i]) && x != k.d[i]
    requires pin < |k.g.inputs[x]| && k.g.inputs[x][pin] == k.q[m] && HandsOn(k, p, x, pin, k.d[i])
    ensures HoldLooksConstant(p, one, i) && !p.HoldIsConstant(one, i)
  {
    HasConeAbove(k, i, x);
    assert InCone(k, x, x) && InCone(k, k.d[i], k.d[i]);
    CarriedGives(k, p, x, pin, m, k.d[i], x);
    CarriedGives(k, p, x, pin, m, k.d[i], k.d[i]);
    WiringFeeds(k, p, x, k.d[i]);
    HoldToldApart(p, one, i, x, m);
  }

  lemma HoldToldApart(p: Design, one: bool, i: nat, x: nat, m: nat)
    requires p.Valid() && 2 <= i < |p.q| && m < i && p.HasCone(i) && InCone(p, x, p.d[i]) && x != p.d[i]
    requires GivesLatch(p, x, m) && GivesLatch(p, p.d[i], m)
    ensures HoldLooksConstant(p, one, i) && !p.HoldIsConstant(one, i)
  {
    var low := if m == 0 then 1 else 0;
    var a, b := OnesBut(p, low, !one, m, true), OnesBut(p, low, !one, m, false);
    OnesButAgree(p, i, low, !one, m, true, low, !one, m, false);
    IsHeld(p, one, i, a, low);
    IsHeld(p, one, i, b, low);
    forall a: Bits, b: Bits | |a| == |b| == |p.g.nodes| && InnerAgree(p, i, a, b)
      ensures p.Next(a, i) == p.Next(b, i)
    {
      assert Eval(p.g, p.rank, a, x) == Eval(p.g, p.rank, b, x);
    }
  }

  // ---- both together ----

  ghost predicate HoldIsJudged(p: Design, one: bool, i: nat)
    requires p.Valid() && i < |p.q|
  {
    QueryHold(p, one, i) <==> p.HoldIsConstant(one, i)
  }

  ghost predicate AlikeIsJudged(p: Design, one: bool, i: nat)
    requires p.Valid() && i < |p.q|
  {
    QueryAlike(p, one, i) <==> p.HoldIsAlike(one, i)
  }

  ghost predicate IsJudged(p: Design, one: bool, i: nat)
    requires p.Valid() && i < |p.q|
  {
    Accepted(p, one, i) <==> p.Counts(one, i)
  }

  /** t2 is right for every choice of cells exactly where the gates below the latch input read no lower
      latch. */
  lemma QueryHoldIffWiring(k: Design, one: bool, i: nat)
    requires k.Valid() && 2 <= i < |k.q|
    ensures ReadsLowerAtTopOnly(k, i) <==> forall p :: SameWiring(k, p) ==> HoldIsJudged(p, one, i)
  {
    if ReadsLowerAtTopOnly(k, i) {
      forall p | SameWiring(k, p) ensures HoldIsJudged(p, one, i) {
        WiringDecides(k, p, i);
        QueryHoldIff(p, one, i);
        HoldShows(p, one, i);
      }
    } else {
      var x: nat, pin: nat :| InCone(k, x, k.d[i]) && x != k.d[i] && pin < |k.g.inputs[x]| &&
                              k.g.inputs[x][pin] in k.q[..i];
      var m: nat :| m < i && k.q[m] == k.g.inputs[x][pin];
      HasConeAbove(k, i, x);
      var p := Mislead(k, one, i, x, pin, m);
      HoldMisled(k, p, one, i, x, pin, m);
      QueryHoldIff(p, one, i);
      assert !HoldIsJudged(p, one, i);
    }
  }

  lemma HasConeAbove(k: Design, i: nat, x: nat)
    requires k.Valid() && i < |k.q| && InCone(k, x, k.d[i])
    ensures k.HasCone(i)
  {
  }

  /** Where a shared gate reads a counter latch, some cells make t2 and t3 accept position `i` although the
      latches are not held alike. */
  lemma SomeCellsMislead(k: Design, one: bool, i: nat) returns (p: Design)
    requires k.Valid() && 2 <= i < |k.q| && !SharedReadNoLatch(k, i)
    ensures SameWiring(k, p) && QueryHold(p, one, i) && QueryAlike(p, one, i) && !p.HoldIsAlike(one, i)
    ensures k.HasCone(0) ==> Accepted(p, one, i)
  {
    var x: nat, pin: nat :| InCone(k, x, k.d[i]) && InCone(k, x, k.d[i - 1]) && pin < |k.g.inputs[x]| &&
                            k.g.inputs[x][pin] in k.q[..i + 1];
    var m: nat :| m <= i && k.q[m] == k.g.inputs[x][pin];
    HasConeAbove(k, i, x);
    HasConeAbove(k, i - 1, x);
    p := MisleadingDesignMisleads(k, one, i, x, pin, m);
    MisleadingIsNotAlike(p, one, i, x, m);
    MisleadingIsAccepted(k, p, one, i, x, m);
  }

  lemma MisleadingIsAccepted(k: Design, p: Design, one: bool, i: nat, x: nat, m: nat)
    requires k.Valid() && 2 <= i < |k.q| && m <= i && SameWiring(k, p) && Misleads(p, i, x, m)
    requires k.HasCone(0) ==> GivesValue(p, k.d[0], m == i || one)
    ensures QueryHold(p, one, i) && QueryAlike(p, one, i) && (k.HasCone(0) ==> Accepted(p, one, i))
  {
    MisleadingLooksConstant(p, one, i, x, m);
    MisleadingLooksAlike(p, one, i, x, m);
    QueryHoldIff(p, one, i);
    QueryAlikeIff(p, one, i);
    if k.HasCone(0) {
      MisleadingStepsAlike(p, one, false, i, x, m);
      MisleadingStepsAlike(p, one, true, i, x, m);
      AcceptedIff(p, one, i);
    }
  }

  /** t3 is right for every choice of cells exactly where no shared gate reads a counter latch. */
  lemma QueryAlikeIffWiring(k: Design, one: bool, i: nat)
    requires k.Valid() && 2 <= i < |k.q|
    ensures SharedReadNoLatch(k, i) <==> forall p :: SameWiring(k, p) ==> AlikeIsJudged(p, one, i)
  {
    if SharedReadNoLatch(k, i) {
      forall p | SameWiring(k, p) ensures AlikeIsJudged(p, one, i) {
        WiringDecides(k, p, i);
        QueryAlikeIff(p, one, i);
        LikenessShows(p, one, i);
      }
    } else {
      var p := SomeCellsMislead(k, one, i);
      assert !AlikeIsJudged(p, one, i);
    }
  }

  /** The queries together are right about position `i`, for every choice of cells, exactly where no gate
      shared with the position below reads a counter latch: what t2 misses, t3 makes up for. */
  lemma AcceptedIffWiring(k: Design, one: bool, i: nat)
    requires k.Valid() && 2 <= i < |k.q| && k.HasCone(0)
    ensures SharedReadNoLatch(k, i) <==> forall p :: SameWiring(k, p) ==> IsJudged(p, one, i)
  {
    if SharedReadNoLatch(k, i) {
      forall p | SameWiring(k, p) ensures IsJudged(p, one, i) {
        WiringDecides(k, p, i);
        AcceptedIffCounts(p, one, i);
      }
    } else {
      var p := SomeCellsMislead(k, one, i);
      assert !IsJudged(p, one, i);
    }
  }
}
