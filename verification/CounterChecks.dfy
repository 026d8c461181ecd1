/** The checks that decide whether a list of latches counts up or down: as statements about the
    next-state functions, and as the satisfiability queries that are actually posed. */
module CounterChecks {
  import opened BoolFunctions
  import opened Netlists

  /** Node `n` reads `x` and no other node does. */
  ghost predicate IsOnlyReader(g: Graph, n: nat, x: nat)
    requires g.Valid() && n < |g.nodes|
  {
    && x in g.inputs[n]
    && forall m: nat, p: nat :: m < |g.nodes| && p < |g.inputs[m]| && g.inputs[m][p] == x ==> m == n
  }

  /** A list of latches `q` with the nodes `d` at their inputs. A gate at a latch input is the one made
      for that latch out of its flip-flop cell, and nothing but the latch reads it. */
  datatype Design = Design(g: Graph, rank: seq<nat>, q: seq<nat>, d: seq<nat>)
  {
    ghost predicate Valid() {
      && g.Valid() && g.RankedBy(rank) && |q| == |d|
      && (forall i :: 0 <= i < |q| ==> q[i] < |g.nodes| && g.nodes[q[i]].kind.LatchNode?)
      && (forall i, j :: 0 <= i < j < |q| ==> q[i] != q[j])
      && (forall i {:trigger d[i]} :: 0 <= i < |d| ==> d[i] < |g.nodes|)
      && (forall i {:trigger g.IsGate(d[i])} :: 0 <= i < |d| && g.IsGate(d[i]) ==> IsOnlyReader(g, q[i], d[i]))
    }

    /** The next value of latch `i` when everything that is no gate has the values `a`. */
    ghost function Next(a: Bits, i: nat): bool
      requires Valid() && |a| == |g.nodes| && i < |q|
    {
      Eval(g, rank, a, d[i])
    }

    /** Latch inputs that are no gates have an empty fanin cone, and every check rejects them. */
    ghost predicate HasCone(i: nat)
      requires Valid() && i < |q|
    {
      g.IsGate(d[i])
    }

    /** `a` and `b` agree on everything that is no gate, except perhaps the first `m` latches. */
    ghost predicate AgreeOutside(a: Bits, b: Bits, m: nat)
      requires Valid() && |a| == |b| == |g.nodes| && m <= |q|
    {
      forall x :: 0 <= x < |g.nodes| && !g.IsGate(x) && x !in q[..m] ==> a[x] == b[x]
    }

    ghost predicate LowerAre(a: Bits, i: nat, one: bool)
      requires Valid() && |a| == |g.nodes| && i <= |q|
    {
      forall m :: 0 <= m < i ==> a[q[m]] == one
    }

    /** Latch `i` is 1 and some lower latch is not `one`. */
    ghost predicate Held(a: Bits, i: nat, one: bool)
      requires Valid() && |a| == |g.nodes| && i < |q|
    {
      a[q[i]] && !LowerAre(a, i, one)
    }

    // ---- what the checks are meant to say; `one` is true for up, false for down counters ----

    /** Checks t0 (`value` false) and t1 (`value` true): with all lower latches `one`, latch `i` goes
        where latch 0 goes from the same value. */
    ghost predicate SameAsFirst(one: bool, value: bool, i: nat)
      requires Valid() && i < |q|
    {
      && HasCone(0) && HasCone(i)
      && forall a, b {:trigger AgreeOutside(a, b, i + 1)} ::
           |a| == |b| == |g.nodes| && AgreeOutside(a, b, i + 1) && a[q[0]] == value &&
           LowerAre(b, i, one) && b[q[i]] == value
           ==> Next(a, 0) == Next(b, i)
    }

    /** Check t2: where latch `i` is held, its next value does not depend on the lower latches. */
    ghost predicate HoldIsConstant(one: bool, i: nat)
      requires Valid() && i < |q|
    {
      && HasCone(i)
      && forall a, b {:trigger AgreeOutside(a, b, i)} ::
           |a| == |b| == |g.nodes| && AgreeOutside(a, b, i) && Held(a, i, one) && Held(b, i, one)
           ==> Next(a, i) == Next(b, i)
    }

    /** Check t3: latches `i` and `i - 1` are held alike. */
    ghost predicate HoldIsAlike(one: bool, i: nat)
      requires Valid() && i < |q|
    {
      i < 2 ||
      (&& HasCone(i) && HasCone(i - 1)
       && forall a, b {:trigger AgreeOutside(a, b, i + 1)} ::
            |a| == |b| == |g.nodes| && AgreeOutside(a, b, i + 1) && Held(a, i, one) && Held(b, i - 1, one)
            ==> Next(a, i) == Next(b, i - 1))
    }

    ghost predicate Counts(one: bool, i: nat)
      requires Valid() && i < |q|
    {
      && SameAsFirst(one, false, i) && SameAsFirst(one, true, i)
      && HoldIsConstant(one, i) && HoldIsAlike(one, i)
    }

    // ---- the shape the checks characterize ----

    /** What `a` says outside the counter. */
    ghost function Rest(a: Bits): (r: Bits)
      requires Valid() && |a| == |g.nodes|
      ensures |r| == |a|
    {
      seq(|a|, x requires 0 <= x < |a| => !g.IsGate(x) && x !in q && a[x])
    }

    /** Latch `j` goes from value v to `step(v)` when all lower latches are `one`, and is held at `hold`
        when it is 1 and some lower latch is not. For an up counter `step(true)` is what the 1s below
        the lowest 0 become, and `step(false)` is what the lowest 0 becomes. */
    ghost predicate HasShape(one: bool, step: (bool, Bits) -> bool, hold: Bits -> bool)
      requires Valid()
    {
      && (forall j :: 0 <= j < |q| ==> HasCone(j))
      && (forall a, j :: |a| == |g.nodes| && 0 <= j < |q| && LowerAre(a, j, one) ==>
            Next(a, j) == step(a[q[j]], Rest(a)))
      && (forall a, j :: |a| == |g.nodes| && 0 <= j < |q| && Held(a, j, one) ==>
            Next(a, j) == hold(Rest(a)))
    }
  }

  /** The shape implies the checks, at every position. */
  lemma ShapePasses(k: Design, one: bool, step: (bool, Bits) -> bool, hold: Bits -> bool, i: nat)
    requires k.Valid() && 1 <= i < |k.q| && k.HasShape(one, step, hold)
    ensures k.Counts(one, i)
  {
    forall a: Bits, b: Bits, m: nat | |a| == |b| == |k.g.nodes| && m <= |k.q| && k.AgreeOutside(a, b, m)
      ensures k.Rest(a) == k.Rest(b)
    {
      forall x | 0 <= x < |a| ensures k.Rest(a)[x] == k.Rest(b)[x] {
        if x in k.q[..m] { assert x in k.q; }
      }
    }
  }

  lemma RestIgnoresLatches(k: Design, a: Bits, i: nat, v: bool)
    requires k.Valid() && |a| == |k.g.nodes| && i < |k.q|
    ensures k.Rest(a[k.q[i] := v]) == k.Rest(a)
    ensures k.Rest(k.Rest(a)[k.q[i] := v]) == k.Rest(a)
  {
    assert k.q[i] in k.q;
  }

  lemma SameRestAgrees(k: Design, a: Bits, b: Bits)
    requires k.Valid() && |a| == |b| == |k.g.nodes| && k.Rest(a) == k.Rest(b)
    ensures k.AgreeOutside(a, b, |k.q|)
  {
    assert k.q[..|k.q|] == k.q;
    forall x | 0 <= x < |a| && !k.g.IsGate(x) && x !in k.q ensures a[x] == b[x] {
      assert k.Rest(a)[x] == k.Rest(b)[x];
    }
  }

  /** The next value of latch 0 depends on its own value and on nothing else of the counter. */
  lemma FirstDependsOnItself(k: Design, one: bool, a: Bits, b: Bits)
    requires k.Valid() && |k.q| >= 2 && |a| == |b| == |k.g.nodes|
    requires k.Rest(a) == k.Rest(b) && a[k.q[0]] == b[k.q[0]]
    requires k.SameAsFirst(one, a[k.q[0]], |k.q| - 1)
    ensures k.Next(a, 0) == k.Next(b, 0)
  {
    var c := AllSteppingTop(k, one, a);
    SameRestAgrees(k, a, c);
    SameRestAgrees(k, b, c);
  }

  /** Like `a` outside the counter, all latches `one` but the topmost, which is as latch 0 in `a`. */
  lemma AllSteppingTop(k: Design, one: bool, a: Bits) returns (c: Bits)
    requires k.Valid() && |k.q| >= 2 && |a| == |k.g.nodes|
    ensures |c| == |a| && k.Rest(c) == k.Rest(a)
    ensures k.LowerAre(c, |k.q| - 1, one) && c[k.q[|k.q| - 1]] == a[k.q[0]]
  {
    var n := |k.q|;
    c := seq(|a|, x requires 0 <= x < |a| =>
      if x in k.q[..n - 1] then one else if x == k.q[n - 1] then a[k.q[0]] else a[x]);
    assert k.q[n - 1] !in k.q[..n - 1];
    forall x | 0 <= x < |a| ensures k.Rest(c)[x] == k.Rest(a)[x] {
      if x in k.q[..n - 1] || x == k.q[n - 1] { assert x in k.q; }
    }
    forall m | 0 <= m < n - 1 ensures c[k.q[m]] == one { assert k.q[m] in k.q[..n - 1]; }
  }

  /** The outside of the counter as in `r`, the topmost latch held because latch 0 is not `one`. */
  ghost function TopHeld(k: Design, one: bool, r: Bits): (b: Bits)
    requires k.Valid() && |k.q| >= 2 && |r| == |k.g.nodes|
    ensures |b| == |r| && k.Held(b, |k.q| - 1, one)
  {
    var b := r[k.q[0] := !one][k.q[|k.q| - 1] := true];
    assert b[k.q[0]] == !one;
    b
  }

  ghost predicate StepValue(k: Design, v: bool, r: Bits)
    requires k.Valid() && |k.q| >= 2
  {
    |r| == |k.g.nodes| && k.Next(r[k.q[0] := v], 0)
  }

  ghost predicate HoldValue(k: Design, one: bool, r: Bits)
    requires k.Valid() && |k.q| >= 2
  {
    |r| == |k.g.nodes| && k.Next(TopHeld(k, one, r), |k.q| - 1)
  }

  /** Held latches go where the topmost one goes. */
  lemma {:induction false} HeldLikeTop(k: Design, one: bool, a: Bits, i: nat)
    requires k.Valid() && |k.q| >= 2 && |a| == |k.g.nodes| && i < |k.q| && k.Held(a, i, one)
    requires forall j :: 1 <= j < |k.q| ==> k.Counts(one, j)
    ensures k.Next(a, i) == HoldValue(k, one, k.Rest(a))
    decreases |k.q| - i
  {
    if i == |k.q| - 1 {
      TopIsHeldAt(k, one, a);
    } else {
      HeldLikeNext(k, one, a, i);
      HeldLikeTop(k, one, a[k.q[i + 1] := true], i + 1);
    }
  }

  lemma TopIsHeldAt(k: Design, one: bool, a: Bits)
    requires k.Valid() && |k.q| >= 2 && |a| == |k.g.nodes| && k.Held(a, |k.q| - 1, one)
    requires k.Counts(one, |k.q| - 1)
    ensures k.Next(a, |k.q| - 1) == HoldValue(k, one, k.Rest(a))
  {
    AgreesWithTop(k, one, a);
  }

  /** A held latch goes where the next one goes when that is held too, the outside being the same. */
  lemma HeldLikeNext(k: Design, one: bool, a: Bits, i: nat)
    requires k.Valid() && |a| == |k.g.nodes| && i + 1 < |k.q| && k.Held(a, i, one) && k.Counts(one, i + 1)
    ensures var b := a[k.q[i + 1] := true];
            k.Held(b, i + 1, one) && k.Rest(b) == k.Rest(a) && k.Next(b, i + 1) == k.Next(a, i)
  {
    RaisedIsHeld(k, one, a, i);
    RestIgnoresLatches(k, a, i + 1, true);
  }

  lemma AgreesWithTop(k: Design, one: bool, a: Bits)
    requires k.Valid() && |k.q| >= 2 && |a| == |k.g.nodes| && a[k.q[|k.q| - 1]]
    ensures k.AgreeOutside(a, TopHeld(k, one, k.Rest(a)), |k.q| - 1)
  {
    var n := |k.q|;
    var top := TopHeld(k, one, k.Rest(a));
    forall x | 0 <= x < |a| && !k.g.IsGate(x) && x !in k.q[..n - 1] ensures a[x] == top[x] {
      if x in k.q {
        assert x == k.q[n - 1];
      } else {
        assert k.q[0] in k.q && k.q[n - 1] in k.q && k.Rest(a)[x] == a[x];
      }
    }
  }

  /** Raising the next latch above a held one holds it too. */
  lemma RaisedIsHeld(k: Design, one: bool, a: Bits, i: nat)
    requires k.Valid() && |a| == |k.g.nodes| && i + 1 < |k.q| && k.Held(a, i, one)
    ensures var b := a[k.q[i + 1] := true]; k.Held(b, i + 1, one) && k.AgreeOutside(b, a, i + 2)
  {
    var b := a[k.q[i + 1] := true];
    var m :| 0 <= m < i && a[k.q[m]] != one;
    assert b[k.q[m]] == a[k.q[m]];
    assert k.q[i + 1] in k.q[..i + 2];
  }

  lemma StepsLikeFirst(k: Design, one: bool, a: Bits, j: nat)
    requires k.Valid() && |k.q| >= 2 && |a| == |k.g.nodes| && j < |k.q| && k.LowerAre(a, j, one)
    requires forall i :: 1 <= i < |k.q| ==> k.Counts(one, i)
    ensures k.Next(a, j) == StepValue(k, a[k.q[j]], k.Rest(a))
  {
    var v := a[k.q[j]];
    assert k.Counts(one, |k.q| - 1);
    var first := a[k.q[0] := v];
    var base := k.Rest(a)[k.q[0] := v];
    RestIgnoresLatches(k, a, 0, v);
    FirstDependsOnItself(k, one, first, base);
    if j > 0 {
      assert k.Counts(one, j);
      assert k.q[0] in k.q[..j + 1];
      assert k.AgreeOutside(first, a, j + 1);
    } else {
      assert first == a;
    }
  }

  lemma AllHaveCones(k: Design, one: bool)
    requires k.Valid() && |k.q| >= 2
    requires forall i :: 1 <= i < |k.q| ==> k.Counts(one, i)
    ensures forall j :: 0 <= j < |k.q| ==> k.HasCone(j)
  {
    forall j | 0 <= j < |k.q| ensures k.HasCone(j) {
      assert k.Counts(one, if j == 0 then 1 else j);
    }
  }

  /** The checks, passed at every position from 1 up, give the shape. */
  lemma ChecksGiveShape(k: Design, one: bool)
    requires k.Valid() && |k.q| >= 2
    requires forall i :: 1 <= i < |k.q| ==> k.Counts(one, i)
    ensures exists step, hold :: k.HasShape(one, step, hold)
  {
    AllHaveCones(k, one);
    forall a: Bits, j | |a| == |k.g.nodes| && 0 <= j < |k.q| && k.LowerAre(a, j, one)
      ensures k.Next(a, j) == StepValue(k, a[k.q[j]], k.Rest(a))
    {
      StepsLikeFirst(k, one, a, j);
    }
    forall a: Bits, j | |a| == |k.g.nodes| && 0 <= j < |k.q| && k.Held(a, j, one)
      ensures k.Next(a, j) == HoldValue(k, one, k.Rest(a))
    {
      HeldLikeTop(k, one, a, j);
    }
    assert k.HasShape(one, (v: bool, r: Bits) => StepValue(k, v, r), (r: Bits) => HoldValue(k, one, r));
  }

  /** Passing the checks at every position is having the shape of a counter. */
  lemma ChecksIffShape(k: Design, one: bool)
    requires k.Valid() && |k.q| >= 2
    ensures (forall i :: 1 <= i < |k.q| ==> k.Counts(one, i)) <==>
            exists step, hold :: k.HasShape(one, step, hold)
  {
    if forall i :: 1 <= i < |k.q| ==> k.Counts(one, i) {
      ChecksGiveShape(k, one);
    }
    if step, hold :| k.HasShape(one, step, hold) {
      forall i | 1 <= i < |k.q| ensures k.Counts(one, i) {
        ShapePasses(k, one, step, hold, i);
      }
    }
  }
}
