/** The satisfiability queries the counter checks pose. Each query holds two copies of fanin cones;
    an answer "equivalent" means that no assignment to the literals of both copies makes the two
    latch inputs differ. Checks t0 and t1 give every gate of the second copy a new literal. Checks t2
    and t3 do that only for the lower latches (and, in t2, for the latch input itself), so the gates
    inside the cones are forced to agree in both copies. */
module CounterQueries {
  import opened BoolFunctions
  import opened Netlists
  import opened CounterChecks

  /** `v` satisfies the clauses of every gate in the fanin cone of `top`. */
  ghost predicate SolvesCone(k: Design, top: nat, v: Bits)
    requires k.Valid() && top < |k.g.nodes| && |v| == |k.g.nodes|
  {
    forall x: nat :: x < |k.g.nodes| && k.g.IsGate(x) && Feeds(k.g, k.rank, x, top) ==>
      v[x] == NodeValue(k.g, v, v, x)
  }

  /** The two copies share all literals but those of the first `m` latches and of the node `top`. */
  ghost predicate Share(k: Design, v: Bits, w: Bits, m: nat, top: nat)
    requires k.Valid() && |v| == |w| == |k.g.nodes| && m <= |k.q|
  {
    forall x :: 0 <= x < |k.g.nodes| && x != top && x !in k.q[..m] ==> v[x] == w[x]
  }

  /** A satisfying assignment of the clauses of t0 or t1: `v` for the first latch, `w` for latch `i`. */
  ghost predicate SameCopies(k: Design, one: bool, value: bool, i: nat, v: Bits, w: Bits)
    requires k.Valid() && i < |k.q|
  {
    && |v| == |w| == |k.g.nodes| && SolvesCone(k, k.d[0], v) && SolvesCone(k, k.d[i], w)
    && k.AgreeOutside(v, w, i + 1) && v[k.q[0]] == value && k.LowerAre(w, i, one) && w[k.q[i]] == value
  }

  /** Queries t0 (`value` false) and t1 (`value` true). The gates of the second cone get new literals
      before the literals of both latch inputs are looked up; the first latch input keeps its own, since
      it is in no other cone (`LatchGateIsTop`). */
  ghost predicate QuerySame(k: Design, one: bool, value: bool, i: nat)
    requires k.Valid() && i < |k.q|
  {
    && k.HasCone(0) && k.HasCone(i)
    && forall v, w :: SameCopies(k, one, value, i, v, w) ==> v[k.d[0]] == w[k.d[i]]
  }

  /** A satisfying assignment of the clauses of t2. */
  ghost predicate HoldCopies(k: Design, one: bool, i: nat, v: Bits, w: Bits)
    requires k.Valid() && i < |k.q|
  {
    && |v| == |w| == |k.g.nodes| && SolvesCone(k, k.d[i], v) && SolvesCone(k, k.d[i], w)
    && Share(k, v, w, i, k.d[i]) && k.Held(v, i, one) && k.Held(w, i, one)
  }

  /** Query t2. */
  ghost predicate QueryHold(k: Design, one: bool, i: nat)
    requires k.Valid() && i < |k.q|
  {
    k.HasCone(i) && forall v, w :: HoldCopies(k, one, i, v, w) ==> v[k.d[i]] == w[k.d[i]]
  }

  /** A satisfying assignment of the clauses of t3; no node besides the latches has a new literal. */
  ghost predicate AlikeCopies(k: Design, one: bool, i: nat, v: Bits, w: Bits)
    requires k.Valid() && 1 <= i < |k.q|
  {
    && |v| == |w| == |k.g.nodes| && SolvesCone(k, k.d[i], v) && SolvesCone(k, k.d[i - 1], w)
    && Share(k, v, w, i + 1, |k.g.nodes|) && k.Held(v, i, one) && k.Held(w, i - 1, one)
  }

  /** Query t3. */
  ghost predicate QueryAlike(k: Design, one: bool, i: nat)
    requires k.Valid() && i < |k.q|
  {
    i < 2 ||
    (&& k.HasCone(i) && k.HasCone(i - 1)
     && forall v, w :: AlikeCopies(k, one, i, v, w) ==> v[k.d[i]] == w[k.d[i - 1]])
  }

  /** What the search accepts at position `i`. */
  ghost predicate Accepted(k: Design, one: bool, i: nat)
    requires k.Valid() && i < |k.q|
  {
    && QuerySame(k, one, false, i) && QuerySame(k, one, true, i)
    && QueryHold(k, one, i) && QueryAlike(k, one, i)
  }

  // ---- cones and values ----

  /** A solution of a cone gives its top the value computed from the inputs. */
  lemma {:induction false} ConeDetermines(k: Design, top: nat, v: Bits, n: nat)
    requires k.Valid() && top < |k.g.nodes| && |v| == |k.g.nodes| && SolvesCone(k, top, v)
    requires n < |k.g.nodes| && Feeds(k.g, k.rank, n, top)
    ensures v[n] == Eval(k.g, k.rank, v, n)
    decreases k.rank[n]
  {
    if k.g.IsGate(n) {
      var xs := seq(|k.g.inputs[n]|, i requires 0 <= i < |k.g.inputs[n]| =>
        Eval(k.g, k.rank, v, k.g.inputs[n][i]));
      forall i | 0 <= i < |k.g.inputs[n]| ensures v[k.g.inputs[n][i]] == xs[i] {
        FeedsThrough(k.g, k.rank, n, top, i);
        ConeDetermines(k, top, v, k.g.inputs[n][i]);
      }
      assert Pick(v, k.g.inputs[n]) == xs;
    }
  }

  /** All gates solved from the outside values of `a`. */
  ghost function Solved(k: Design, a: Bits): (v: Bits)
    requires k.Valid() && |a| == |k.g.nodes|
    ensures |v| == |a| && forall x :: 0 <= x < |a| ==> v[x] == Eval(k.g, k.rank, a, x)
  {
    seq(|a|, x requires 0 <= x < |a| => Eval(k.g, k.rank, a, x))
  }

  lemma SolvedSolvesCone(k: Design, a: Bits, top: nat)
    requires k.Valid() && |a| == |k.g.nodes| && top < |k.g.nodes|
    ensures SolvesCone(k, top, Solved(k, a))
  {
    var v := Solved(k, a);
    forall x: nat | x < |a| && k.g.IsGate(x) ensures v[x] == NodeValue(k.g, v, v, x) {
      assert Pick(v, k.g.inputs[x]) == seq(|k.g.inputs[x]|, i requires 0 <= i < |k.g.inputs[x]| =>
        Eval(k.g, k.rank, a, k.g.inputs[x][i]));
    }
  }

  /** A latch gate is in no cone but its own. */
  lemma {:induction false} LatchGateIsTop(k: Design, i: nat, top: nat)
    requires k.Valid() && i < |k.q| && top < |k.g.nodes| && k.HasCone(i) && Feeds(k.g, k.rank, k.d[i], top)
    ensures top == k.d[i]
    decreases k.rank[top]
  {
    if top != k.d[i] {
      var j :| 0 <= j < |k.g.inputs[top]| && Feeds(k.g, k.rank, k.d[i], k.g.inputs[top][j]);
      LatchGateIsTop(k, i, k.g.inputs[top][j]);
    }
  }

  // ---- t0 and t1 say what they are meant to say ----

  lemma QuerySameMeans(k: Design, one: bool, value: bool, i: nat)
    requires k.Valid() && i < |k.q| && QuerySame(k, one, value, i)
    ensures k.SameAsFirst(one, value, i)
  {
    forall a: Bits, b: Bits | |a| == |b| == |k.g.nodes| && k.AgreeOutside(a, b, i + 1) && a[k.q[0]] == value &&
                              k.LowerAre(b, i, one) && b[k.q[i]] == value
      ensures k.Next(a, 0) == k.Next(b, i)
    {
      SolvedSolvesCone(k, a, k.d[0]);
      SolvedSolvesCone(k, b, k.d[i]);
      assert SameCopies(k, one, value, i, Solved(k, a), Solved(k, b));
    }
  }

  lemma QuerySameIff(k: Design, one: bool, value: bool, i: nat)
    requires k.Valid() && i < |k.q|
    ensures QuerySame(k, one, value, i) <==> k.SameAsFirst(one, value, i)
  {
    if QuerySame(k, one, value, i) { QuerySameMeans(k, one, value, i); }
    if k.SameAsFirst(one, value, i) {
      forall v: Bits, w: Bits | SameCopies(k, one, value, i, v, w) ensures v[k.d[0]] == w[k.d[i]]
      {
        ConeDetermines(k, k.d[0], v, k.d[0]);
        ConeDetermines(k, k.d[i], w, k.d[i]);
      }
    }
  }

  // ---- what t2 and t3 can tell ----

  ghost predicate InCone(k: Design, x: nat, top: nat)
    requires k.Valid() && top < |k.g.nodes|
  {
    x < |k.g.nodes| && k.g.IsGate(x) && Feeds(k.g, k.rank, x, top)
  }

  /** The gates below latch input `i`, its own gate aside, have the same values from `a` as from `b`. */
  ghost predicate InnerAgree(k: Design, i: nat, a: Bits, b: Bits)
    requires k.Valid() && i < |k.q| && |a| == |b| == |k.g.nodes|
  {
    forall x: nat :: InCone(k, x, k.d[i]) && x != k.d[i] ==> Eval(k.g, k.rank, a, x) == Eval(k.g, k.rank, b, x)
  }

  /** The gates in the cones of both latch inputs `i` and `i - 1` have the same values from `a` as from `b`. */
  ghost predicate SharedAgree(k: Design, i: nat, a: Bits, b: Bits)
    requires k.Valid() && 1 <= i < |k.q| && |a| == |b| == |k.g.nodes|
  {
    forall x: nat :: InCone(k, x, k.d[i]) && InCone(k, x, k.d[i - 1]) ==>
      Eval(k.g, k.rank, a, x) == Eval(k.g, k.rank, b, x)
  }

  /** Like check t2, but comparing only where no gate below the latch input tells the lower latches apart. */
  ghost predicate HoldLooksConstant(k: Design, one: bool, i: nat)
    requires k.Valid() && i < |k.q|
  {
    && k.HasCone(i)
    && forall a, b {:trigger InnerAgree(k, i, a, b)} ::
         |a| == |b| == |k.g.nodes| && k.AgreeOutside(a, b, i) && k.Held(a, i, one) && k.Held(b, i, one) &&
         InnerAgree(k, i, a, b)
         ==> k.Next(a, i) == k.Next(b, i)
  }

  /** Like check t3, but comparing only where no gate common to both cones tells the latches apart. */
  ghost predicate HoldLooksAlike(k: Design, one: bool, i: nat)
    requires k.Valid() && i < |k.q|
  {
    i < 2 ||
    (&& k.HasCone(i) && k.HasCone(i - 1)
     && forall a, b {:trigger SharedAgree(k, i, a, b)} ::
          |a| == |b| == |k.g.nodes| && k.AgreeOutside(a, b, i + 1) && k.Held(a, i, one) &&
          k.Held(b, i - 1, one) && SharedAgree(k, i, a, b)
          ==> k.Next(a, i) == k.Next(b, i - 1))
  }

  /** An assignment that has the computed values in a cone and the outside values elsewhere. */
  lemma SolvedConeSolves(k: Design, a: Bits, top: nat, v: Bits)
    requires k.Valid() && |a| == |v| == |k.g.nodes| && top < |k.g.nodes|
    requires forall x: nat :: x < |a| && !k.g.IsGate(x) ==> v[x] == a[x]
    requires forall x: nat :: InCone(k, x, top) ==> v[x] == Solved(k, a)[x]
    ensures SolvesCone(k, top, v)
  {
    SolvedSolvesCone(k, a, top);
    var u := Solved(k, a);
    forall x: nat | x < |a| && k.g.IsGate(x) && Feeds(k.g, k.rank, x, top)
      ensures v[x] == NodeValue(k.g, v, v, x)
    {
      forall i | 0 <= i < |k.g.inputs[x]| ensures v[k.g.inputs[x][i]] == u[k.g.inputs[x][i]] {
        FeedsThrough(k.g, k.rank, x, top, i);
        if k.g.IsGate(k.g.inputs[x][i]) { assert InCone(k, k.g.inputs[x][i], top); }
      }
      assert InCone(k, x, top);
      assert Pick(v, k.g.inputs[x]) == Pick(u, k.g.inputs[x]);
    }
  }

  /** Gates in the cone of `top` as solved from `a`, other gates as solved from `b`, the rest as in `c`. */
  ghost function Joint(k: Design, top: nat, a: Bits, b: Bits, c: Bits): (v: Bits)
    requires k.Valid() && |a| == |b| == |c| == |k.g.nodes| && top < |k.g.nodes|
    ensures |v| == |c|
    ensures forall x: nat :: x < |c| && !k.g.IsGate(x) ==> v[x] == c[x]
    ensures forall x: nat :: x < |c| && k.g.IsGate(x) ==>
              v[x] == if InCone(k, x, top) then Solved(k, a)[x] else Solved(k, b)[x]
  {
    seq(|c|, x requires 0 <= x < |c| =>
      if !k.g.IsGate(x) then c[x] else if InCone(k, x, top) then Solved(k, a)[x] else Solved(k, b)[x])
  }

  lemma HeldBelow(k: Design, one: bool, i: nat, a: Bits, v: Bits)
    requires k.Valid() && i < |k.q| && |a| == |v| == |k.g.nodes| && k.Held(a, i, one)
    requires forall x :: 0 <= x < |a| && !k.g.IsGate(x) ==> v[x] == a[x]
    ensures k.Held(v, i, one)
  {
    var m :| 0 <= m < i && a[k.q[m]] != one;
    assert v[k.q[m]] == a[k.q[m]];
  }

  lemma JointIsHoldCopy(k: Design, one: bool, i: nat, a: Bits, b: Bits)
    requires k.Valid() && i < |k.q| && |a| == |b| == |k.g.nodes|
    requires k.AgreeOutside(a, b, i) && k.Held(a, i, one) && k.Held(b, i, one) && InnerAgree(k, i, a, b)
    ensures HoldCopies(k, one, i, Solved(k, a), Joint(k, k.d[i], b, a, b))
  {
    var top := k.d[i];
    var v, w := Solved(k, a), Joint(k, top, b, a, b);
    SolvedSolvesCone(k, a, top);
    SolvedConeSolves(k, b, top, w);
    HeldBelow(k, one, i, a, v);
    HeldBelow(k, one, i, b, w);
    forall x | 0 <= x < |a| && x != top && x !in k.q[..i] ensures v[x] == w[x] {
      if InCone(k, x, top) { assert Eval(k.g, k.rank, a, x) == Eval(k.g, k.rank, b, x); }
    }
  }

  lemma ConeAgrees(k: Design, top: nat, v: Bits, x: nat)
    requires k.Valid() && top < |k.g.nodes| && |v| == |k.g.nodes| && SolvesCone(k, top, v) && InCone(k, x, top)
    ensures v[x] == Eval(k.g, k.rank, v, x)
  {
    ConeDetermines(k, top, v, x);
  }

  lemma HoldSeen(k: Design, one: bool, i: nat, v: Bits, w: Bits)
    requires k.Valid() && i < |k.q| && HoldLooksConstant(k, one, i) && HoldCopies(k, one, i, v, w)
    ensures v[k.d[i]] == w[k.d[i]]
  {
    var top := k.d[i];
    forall x: nat | InCone(k, x, top) && x != top ensures Eval(k.g, k.rank, v, x) == Eval(k.g, k.rank, w, x) {
      ConeAgrees(k, top, v, x);
      ConeAgrees(k, top, w, x);
    }
    assert InnerAgree(k, i, v, w);
    assert InCone(k, top, top);
    ConeAgrees(k, top, v, top);
    ConeAgrees(k, top, w, top);
  }

  /** What t2 accepts: constancy as far as it shows beside the shared literals. */
  lemma QueryHoldIff(k: Design, one: bool, i: nat)
    requires k.Valid() && i < |k.q|
    ensures QueryHold(k, one, i) <==> HoldLooksConstant(k, one, i)
  {
    if QueryHold(k, one, i) {
      forall a: Bits, b: Bits | |a| == |b| == |k.g.nodes| && k.AgreeOutside(a, b, i) && k.Held(a, i, one) &&
                                k.Held(b, i, one) && InnerAgree(k, i, a, b)
        ensures k.Next(a, i) == k.Next(b, i)
      {
        JointIsHoldCopy(k, one, i, a, b);
        assert InCone(k, k.d[i], k.d[i]);
      }
    }
    if HoldLooksConstant(k, one, i) {
      forall v: Bits, w: Bits | HoldCopies(k, one, i, v, w) ensures v[k.d[i]] == w[k.d[i]]
      {
        HoldSeen(k, one, i, v, w);
      }
    }
  }

  lemma JointsShare(k: Design, top: nat, a: Bits, b: Bits, m: nat)
    requires k.Valid() && |a| == |b| == |k.g.nodes| && top < |k.g.nodes| && m <= |k.q| && k.AgreeOutside(a, b, m)
    ensures Share(k, Joint(k, top, a, b, a), Joint(k, top, a, b, b), m, |k.g.nodes|)
  {
  }

  lemma JointIsFirstCopy(k: Design, one: bool, i: nat, a: Bits, b: Bits)
    requires k.Valid() && i < |k.q| && |a| == |b| == |k.g.nodes| && k.HasCone(i) && k.Held(a, i, one)
    ensures var v := Joint(k, k.d[i], a, b, a);
            SolvesCone(k, k.d[i], v) && k.Held(v, i, one) && v[k.d[i]] == k.Next(a, i)
  {
    var v := Joint(k, k.d[i], a, b, a);
    SolvedConeSolves(k, a, k.d[i], v);
    HeldBelow(k, one, i, a, v);
    assert InCone(k, k.d[i], k.d[i]);
  }

  /** Where the shared gates agree, the joint assignment solves the second cone from `b`. */
  lemma JointIsSecondCopy(k: Design, one: bool, i: nat, a: Bits, b: Bits)
    requires k.Valid() && 1 <= i < |k.q| && |a| == |b| == |k.g.nodes| && SharedAgree(k, i, a, b)
    requires k.HasCone(i - 1) && k.Held(b, i - 1, one)
    ensures var w := Joint(k, k.d[i], a, b, b);
            SolvesCone(k, k.d[i - 1], w) && k.Held(w, i - 1, one) && w[k.d[i - 1]] == k.Next(b, i - 1)
  {
    var w := Joint(k, k.d[i], a, b, b);
    forall x: nat | InCone(k, x, k.d[i - 1]) ensures w[x] == Solved(k, b)[x] {
      if InCone(k, x, k.d[i]) { assert Eval(k.g, k.rank, a, x) == Eval(k.g, k.rank, b, x); }
    }
    SolvedConeSolves(k, b, k.d[i - 1], w);
    HeldBelow(k, one, i - 1, b, w);
    assert InCone(k, k.d[i - 1], k.d[i - 1]);
  }

  lemma AlikeCopied(k: Design, one: bool, i: nat, a: Bits, b: Bits)
    requires k.Valid() && 2 <= i < |k.q| && QueryAlike(k, one, i) && |a| == |b| == |k.g.nodes|
    requires k.AgreeOutside(a, b, i + 1) && k.Held(a, i, one) && k.Held(b, i - 1, one) && SharedAgree(k, i, a, b)
    ensures k.Next(a, i) == k.Next(b, i - 1)
  {
    JointsShare(k, k.d[i], a, b, i + 1);
    JointIsFirstCopy(k, one, i, a, b);
    JointIsSecondCopy(k, one, i, a, b);
    assert AlikeCopies(k, one, i, Joint(k, k.d[i], a, b, a), Joint(k, k.d[i], a, b, b));
  }

  lemma AlikeSeen(k: Design, one: bool, i: nat, v: Bits, w: Bits)
    requires k.Valid() && 2 <= i < |k.q| && HoldLooksAlike(k, one, i) && AlikeCopies(k, one, i, v, w)
    ensures v[k.d[i]] == w[k.d[i - 1]]
  {
    forall x: nat | InCone(k, x, k.d[i]) && InCone(k, x, k.d[i - 1])
      ensures Eval(k.g, k.rank, v, x) == Eval(k.g, k.rank, w, x)
    {
      ConeAgrees(k, k.d[i], v, x);
      ConeAgrees(k, k.d[i - 1], w, x);
    }
    assert SharedAgree(k, i, v, w);
    assert InCone(k, k.d[i], k.d[i]) && InCone(k, k.d[i - 1], k.d[i - 1]);
    ConeAgrees(k, k.d[i], v, k.d[i]);
    ConeAgrees(k, k.d[i - 1], w, k.d[i - 1]);
  }

  /** What t3 accepts: likeness as far as it shows beside the shared literals. */
  lemma QueryAlikeIff(k: Design, one: bool, i: nat)
    requires k.Valid() && i < |k.q|
    ensures QueryAlike(k, one, i) <==> HoldLooksAlike(k, one, i)
  {
    if QueryAlike(k, one, i) && i >= 2 {
      forall a: Bits, b: Bits | |a| == |b| == |k.g.nodes| && k.AgreeOutside(a, b, i + 1) && k.Held(a, i, one) &&
                                k.Held(b, i - 1, one) && SharedAgree(k, i, a, b)
        ensures k.Next(a, i) == k.Next(b, i - 1)
      {
        AlikeCopied(k, one, i, a, b);
      }
    }
    if HoldLooksAlike(k, one, i) && i >= 2 {
      forall v: Bits, w: Bits | AlikeCopies(k, one, i, v, w) ensures v[k.d[i]] == w[k.d[i - 1]]
      {
        AlikeSeen(k, one, i, v, w);
      }
    }
  }

  /** What the four queries accept at a position, without solver or literals. */
  lemma AcceptedIff(k: Design, one: bool, i: nat)
    requires k.Valid() && i < |k.q|
    ensures Accepted(k, one, i) <==>
              && k.SameAsFirst(one, false, i) && k.SameAsFirst(one, true, i)
              && HoldLooksConstant(k, one, i) && HoldLooksAlike(k, one, i)
  {
    QuerySameIff(k, one, false, i);
    QuerySameIff(k, one, true, i);
    QueryHoldIff(k, one, i);
    QueryAlikeIff(k, one, i);
  }

  /** Nothing the checks are meant to accept is turned down. */
  lemma CountsAreAccepted(k: Design, one: bool, i: nat)
    requires k.Valid() && i < |k.q| && k.Counts(one, i)
    ensures Accepted(k, one, i)
  {
    AcceptedIff(k, one, i);
  }

  /** A latch input whose gate reads no lower latch directly passes t2 whatever it computes. */
  lemma QueryHoldIsBlind(k: Design, one: bool, i: nat)
    requires k.Valid() && i < |k.q| && k.HasCone(i)
    requires forall p :: 0 <= p < |k.g.inputs[k.d[i]]| ==> k.g.inputs[k.d[i]][p] !in k.q[..i]
    ensures QueryHold(k, one, i)
  {
    var top := k.d[i];
    assert Feeds(k.g, k.rank, top, top);
    forall v: Bits, w: Bits | HoldCopies(k, one, i, v, w) ensures v[top] == w[top]
    {
      assert Pick(v, k.g.inputs[top]) == Pick(w, k.g.inputs[top]);
    }
  }
}
