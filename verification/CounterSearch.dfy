/** The recursive search that lengthens lists of latches as long as the counter checks pass. */
module CounterSearch {
  import opened BoolFunctions
  import opened Netlists
  import opened Sequences
  import opened CounterChecks
  import opened CounterQueries
  import opened CounterArithmetic
  import opened CounterGaps

  const MAX_DIFFERENCE := 16

  function Abs(x: int): nat {
    if x < 0 then -x else x
  }

  /** What the search reads about latches: which latches each one drives and is driven by in one step,
      the marks of its clock and reset trees, and whether it is to be ignored. */
  datatype LatchGraph = LatchGraph(driven: seq<set<nat>>, driving: seq<set<nat>>, clock: seq<int>, reset: seq<int>,
                                   ignored: set<nat>)
  {
    predicate Valid() {
      && |driven| == |driving| == |clock| == |reset|
      && forall n, m :: 0 <= n < |driven| && m in driven[n] ==> m < |driven|
    }

    predicate SameGroup(a: nat, b: nat)
      requires Valid() && a < |driven| && b < |driven|
    {
      clock[a] == clock[b] && Abs(reset[a] - reset[b]) <= 1
    }

    function CountDiff(a: nat, b: nat): nat
      requires Valid() && a < |driven| && b < |driven|
    {
      |driving[a] - driving[b]| + |driving[b] - driving[a]|
    }

    ghost predicate AllIn(s: seq<nat>) {
      forall i :: 0 <= i < |s| ==> s[i] < |driven|
    }

    /** `n` may follow the nonempty list `s`. */
    ghost predicate Joins(s: seq<nat>, n: nat)
      requires Valid() && AllIn(s) && |s| > 0
    {
      && n < |driven| && n !in s && n !in ignored
      && (forall i :: 0 <= i < |s| ==> n in driven[s[i]])
      && (|s| >= 2 ==> n in driven[n])
      && SameGroup(n, s[|s| - 1]) && CountDiff(n, s[|s| - 1]) < MAX_DIFFERENCE
    }

    lemma JoinsLonger(s: seq<nat>, next: nat, n: nat)
      requires Valid() && AllIn(s) && |s| > 0 && next < |driven|
      ensures Joins(s + [next], n) <==>
                && n < |driven| && n !in s + [next] && n !in ignored && n in driven[next]
                && (forall i :: 0 <= i < |s| ==> n in driven[s[i]]) && n in driven[n]
                && SameGroup(n, next) && CountDiff(n, next) < MAX_DIFFERENCE
    {
      var t := s + [next];
      assert forall i :: 0 <= i < |s| ==> t[i] == s[i];
      assert t[|s|] == next;
    }
  }

  /** Latch `i` differs from all earlier ones, is driven by all of them and is not ignored; it has the clock of
      the one before it, a reset mark at most 1 away, and fewer than 16 latches that drive only one of the two;
      and from the third on it drives itself. */
  ghost predicate Linked(lg: LatchGraph, s: seq<nat>, i: nat)
    requires lg.Valid() && lg.AllIn(s) && 0 < i < |s|
  {
    && (forall j :: 0 <= j < i ==> s[j] != s[i] && s[i] in lg.driven[s[j]]) && s[i] !in lg.ignored
    && lg.clock[s[i]] == lg.clock[s[i - 1]] && -1 <= lg.reset[s[i]] - lg.reset[s[i - 1]] <= 1
    && |(lg.driving[s[i]] + lg.driving[s[i - 1]]) - lg.driving[s[i]] * lg.driving[s[i - 1]]| < 16
    && (i >= 2 ==> s[i] in lg.driven[s[i]])
  }

  ghost predicate Chain(lg: LatchGraph, s: seq<nat>)
    requires lg.Valid()
  {
    lg.AllIn(s) && forall i :: 1 <= i < |s| ==> Linked(lg, s, i)
  }

  lemma CountDiffIs(lg: LatchGraph, a: nat, b: nat)
    requires lg.Valid() && a < |lg.driven| && b < |lg.driven|
    ensures lg.CountDiff(a, b) == |(lg.driving[a] + lg.driving[b]) - lg.driving[a] * lg.driving[b]|
  {
    assert (lg.driving[a] + lg.driving[b]) - lg.driving[a] * lg.driving[b] ==
           (lg.driving[a] - lg.driving[b]) + (lg.driving[b] - lg.driving[a]);
  }

  lemma JoinsIffLinked(lg: LatchGraph, s: seq<nat>, i: nat)
    requires lg.Valid() && lg.AllIn(s) && 0 < i < |s|
    ensures lg.Joins(s[..i], s[i]) <==> Linked(lg, s, i)
  {
    var t := s[..i];
    assert t[|t| - 1] == s[i - 1];
    assert forall j :: 0 <= j < i ==> t[j] == s[j];
    CountDiffIs(lg, s[i], s[i - 1]);
  }

  /** What may follow the list. */
  ghost predicate MayFollow(lg: LatchGraph, s: seq<nat>, n: nat)
    requires lg.Valid() && lg.AllIn(s) && |s| > 0
  {
    n < |lg.driven| && lg.AllIn(s + [n]) && Linked(lg, s + [n], |s|)
  }

  lemma JoinsIffMayFollow(lg: LatchGraph, s: seq<nat>, n: nat)
    requires lg.Valid() && lg.AllIn(s) && |s| > 0
    ensures lg.Joins(s, n) <==> MayFollow(lg, s, n)
  {
    if n < |lg.driven| {
      assert (s + [n])[..|s|] == s;
      JoinsIffLinked(lg, s + [n], |s|);
    }
  }

  /** All latches of a chain have one clock. */
  lemma {:induction false} OneClock(lg: LatchGraph, s: seq<nat>, i: nat)
    requires lg.Valid() && Chain(lg, s) && i < |s|
    ensures lg.clock[s[i]] == lg.clock[s[0]]
  {
    if i > 0 {
      OneClock(lg, s, i - 1);
      assert Linked(lg, s, i);
    }
  }

  datatype Counter = Counter(latches: seq<nat>, up: bool, down: bool)

  /** A list of latches that passed so far, with the latches that could follow. */
  class CounterState {
    const lg: LatchGraph
    const latches: seq<nat>
    var available: set<nat>
    var up: bool
    var down: bool

    ghost predicate Valid()
      reads this
    {
      && lg.Valid() && |latches| > 0 && lg.AllIn(latches)
      && forall n: nat :: n in available <==> lg.Joins(latches, n)
    }

    constructor Head(lg: LatchGraph, head: nat)
      requires lg.Valid() && head < |lg.driven|
      ensures Valid() && this.lg == lg && latches == [head] && up && down
      ensures forall n: nat :: n in available <==> MayFollow(lg, [head], n)
    {
      this.lg := lg;
      latches := [head];
      up, down := true, true;
      new;
      var s := lg.driven[head];
      available := {};
      while s != {}
        invariant s <= lg.driven[head] && up && down
        invariant forall n: nat :: n in available <==> n !in s && lg.Joins([head], n)
      {
        var n :| n in s;
        s := s - {n};
        if n != head && n !in lg.ignored && lg.SameGroup(head, n) && lg.CountDiff(n, head) < MAX_DIFFERENCE {
          available := available + {n};
        }
      }
      forall n: nat ensures n in available <==> MayFollow(lg, [head], n) { JoinsIffMayFollow(lg, [head], n); }
    }

    constructor Extended(other: CounterState, next: nat)
      requires other.Valid() && next in other.available
      ensures Valid() && lg == other.lg && latches == other.latches + [next] && !up && !down
      ensures forall n: nat :: n in available <==> MayFollow(lg, latches, n)
    {
      lg := other.lg;
      latches := other.latches + [next];
      up, down := false, false;
      new;
      var s := lg.driven[next];
      available := {};
      while s != {}
        invariant s <= lg.driven[next] && !up && !down
        invariant forall n: nat :: n in available <==> n !in s && lg.Joins(latches, n)
      {
        var n :| n in s;
        s := s - {n};
        var reachable := other.IsFullyReachable(n);
        lg.JoinsLonger(other.latches, next, n);
        if n !in latches && reachable && n in lg.driven[n] && lg.SameGroup(n, next) &&
           lg.CountDiff(n, next) < MAX_DIFFERENCE && n !in lg.ignored
        {
          available := available + {n};
        }
      }
      forall n: nat ensures n in available <==> MayFollow(lg, latches, n) { JoinsIffMayFollow(lg, latches, n); }
    }

    method IsFullyReachable(n: nat) returns (reachable: bool)
      requires Valid()
      ensures reachable <==> forall i :: 0 <= i < |latches| ==> n in lg.driven[latches[i]]
    {
      var i := 0;
      while i < |latches|
        invariant 0 <= i <= |latches|
        invariant forall j :: 0 <= j < i ==> n in lg.driven[latches[j]]
      {
        if n !in lg.driven[latches[i]] { return false; }
        i := i + 1;
      }
      return true;
    }
  }

  /** The search, given the answers of the checks for the last latch of a list and a direction. */
  class Search {
    const lg: LatchGraph
    const maxSize: nat
    const check: (seq<nat>, bool) -> bool
    var counters: seq<Counter>

    constructor (lg: LatchGraph, maxSize: nat, check: (seq<nat>, bool) -> bool)
      ensures this.lg == lg && this.maxSize == maxSize && this.check == check && counters == []
    {
      this.lg, this.maxSize, this.check := lg, maxSize, check;
      counters := [];
    }

    method Lengthen(state: CounterState) returns (ghost added: seq<Counter>)
      requires state.Valid() && state.lg == lg && |state.latches| <= maxSize + 1 && (state.up || state.down)
      modifies this
      ensures counters == old(counters) + added && Distinct(added)
      ensures forall c :: c in added <==>
                Grown(lg, maxSize, check, state.latches, c) && (c.up ==> state.up) && (c.down ==> state.down)
      ensures forall c :: c in added <==>
                Continues(lg, maxSize, check, state.latches, c) && (c.up ==> state.up) && (c.down ==> state.down)
      decreases maxSize + 1 - |state.latches|, 1
    {
      added := [];
      ghost var s := state.latches;
      if state.available != {} && |state.latches| <= maxSize {
        var todo := state.available;
        ghost var tried := {};
        while todo != {}
          invariant state.Valid() && todo <= state.available && tried == state.available - todo
          invariant counters == old(counters) + added && Distinct(added)
          invariant forall c :: c in added <==>
                      Grown(lg, maxSize, check, s, c) && (c.up ==> state.up) && (c.down ==> state.down) &&
                      c.latches[|s|] in tried
        {
          var n :| n in todo;
          todo := todo - {n};
          ghost var more := Extend(state, n);
          AppendKeepsDistinct(added, more);
          added := added + more;
          tried := tried + {n};
        }
      }
      forall c | Grown(lg, maxSize, check, s, c) ensures |s| <= maxSize && c.latches[|s|] in state.available {
        assert Follows(lg, maxSize, check, c, |s|);
      }
      forall c ensures Grown(lg, maxSize, check, s, c) <==> Continues(lg, maxSize, check, s, c) {
        GrownIffContinues(lg, maxSize, check, s, c);
      }
    }

    /** One step of the loop: the list followed by `n`, in the directions still possible. */
    method Extend(state: CounterState, n: nat) returns (ghost added: seq<Counter>)
      requires state.Valid() && state.lg == lg && |state.latches| <= maxSize && (state.up || state.down)
      requires n in state.available
      modifies this
      ensures counters == old(counters) + added && Distinct(added)
      ensures forall c :: c in added <==>
                Grown(lg, maxSize, check, state.latches, c) && (c.up ==> state.up) && (c.down ==> state.down) &&
                c.latches[|state.latches|] == n
      decreases maxSize + 1 - |state.latches|, 0
    {
      var next := new CounterState.Extended(state, n);
      assert next.latches[..|state.latches|] == state.latches;
      if state.up && state.down {
        ghost var ups := Try(next, true);
        ghost var downs := Try(next, false);
        AppendKeepsDistinct(ups, downs);
        added := ups + downs;
      } else {
        added := Try(next, state.up);
      }
    }

    method Try(state: CounterState, up: bool) returns (ghost added: seq<Counter>)
      requires state.Valid() && state.lg == lg && 2 <= |state.latches| <= maxSize + 1
      requires lg.Joins(state.latches[..|state.latches| - 1], state.latches[|state.latches| - 1])
      modifies this, state
      ensures state.Valid() && counters == old(counters) + added && Distinct(added)
      ensures forall c :: c in added <==>
                Grown(lg, maxSize, check, state.latches[..|state.latches| - 1], c) && c.up == up &&
                c.latches[|state.latches| - 1] == state.latches[|state.latches| - 1]
      decreases maxSize + 1 - |state.latches|, 2
    {
      added := [];
      if check(state.latches, up) {
        counters := counters + [Counter(state.latches, up, !up)];
        state.up := up;
        state.down := !up;
        ghost var more := Lengthen(state);
        added := [Counter(state.latches, up, !up)] + more;
      }
      forall c: Counter
        ensures c in added <==>
                Grown(lg, maxSize, check, state.latches[..|state.latches| - 1], c) && c.up == up &&
                c.latches[|state.latches| - 1] == state.latches[|state.latches| - 1]
      {
        GrownStep(lg, maxSize, check, state.latches, c);
      }
    }
  }

  /** `c` continues the list `s` by at least one latch, every latch added being allowed to follow the
      list before it and passing the checks in the direction of `c`. */
  ghost predicate Grown(lg: LatchGraph, maxSize: nat, check: (seq<nat>, bool) -> bool, s: seq<nat>, c: Counter)
    requires lg.Valid()
  {
    && c.down == !c.up && 0 < |s| < |c.latches| && lg.AllIn(c.latches) && c.latches[..|s|] == s
    && forall i :: |s| <= i < |c.latches| ==> Follows(lg, maxSize, check, c, i)
  }

  ghost predicate Follows(lg: LatchGraph, maxSize: nat, check: (seq<nat>, bool) -> bool, c: Counter, i: nat)
    requires lg.Valid() && lg.AllIn(c.latches) && 0 < i < |c.latches|
  {
    i <= maxSize && lg.Joins(c.latches[..i], c.latches[i]) && check(c.latches[..i + 1], c.up)
  }

  lemma GrownStep(lg: LatchGraph, maxSize: nat, check: (seq<nat>, bool) -> bool, t: seq<nat>, c: Counter)
    requires lg.Valid() && lg.AllIn(t) && 2 <= |t| <= maxSize + 1 && lg.Joins(t[..|t| - 1], t[|t| - 1])
    ensures Grown(lg, maxSize, check, t[..|t| - 1], c) && c.latches[|t| - 1] == t[|t| - 1] <==>
            check(t, c.up) && c.down == !c.up && (c.latches == t || Grown(lg, maxSize, check, t, c))
  {
    var m := |t| - 1;
    if Grown(lg, maxSize, check, t[..m], c) && c.latches[m] == t[m] {
      assert c.latches[..m + 1] == c.latches[..m] + [c.latches[m]] == t;
      assert Follows(lg, maxSize, check, c, m);
    }
    if check(t, c.up) && c.down == !c.up && (c.latches == t || Grown(lg, maxSize, check, t, c)) {
      assert c.latches[..m + 1] == t && c.latches[..m] == t[..m];
      assert Follows(lg, maxSize, check, c, m);
    }
  }

  predicate Passed(check: (seq<nat>, bool) -> bool, c: Counter, i: nat)
    requires i < |c.latches|
  {
    check(c.latches[..i + 1], c.up)
  }

  /** `c` is a chain of at most `maxSize` + 1 latches that continues `s`, and from there on passes the checks of
      its one direction at every position. */
  ghost predicate Continues(lg: LatchGraph, maxSize: nat, check: (seq<nat>, bool) -> bool, s: seq<nat>, c: Counter)
    requires lg.Valid()
  {
    && c.down == !c.up && lg.AllIn(c.latches) && 0 < |s| < |c.latches| <= maxSize + 1 && c.latches[..|s|] == s
    && forall i :: |s| <= i < |c.latches| ==> Linked(lg, c.latches, i) && Passed(check, c, i)
  }

  lemma GrownIffContinues(lg: LatchGraph, maxSize: nat, check: (seq<nat>, bool) -> bool, s: seq<nat>, c: Counter)
    requires lg.Valid()
    ensures Grown(lg, maxSize, check, s, c) <==> Continues(lg, maxSize, check, s, c)
  {
    var t := c.latches;
    if lg.AllIn(t) && 0 < |s| < |t| {
      forall i | |s| <= i < |t|
        ensures Follows(lg, maxSize, check, c, i) <==>
                  i <= maxSize && Linked(lg, t, i) && Passed(check, c, i)
      {
        JoinsIffLinked(lg, t, i);
      }
      if Grown(lg, maxSize, check, s, c) { assert Follows(lg, maxSize, check, c, |t| - 1); }
    }
  }

  /** The search over all latches, one head after the other. */
  method FindCounters(lg: LatchGraph, maxSize: nat, check: (seq<nat>, bool) -> bool, heads: seq<nat>)
      returns (counters: seq<Counter>)
    requires lg.Valid() && lg.AllIn(heads)
    ensures forall c :: c in counters <==>
              exists i :: 0 <= i < |heads| && Grown(lg, maxSize, check, [heads[i]], c)
    ensures Distinct(heads) ==> Distinct(counters)
    ensures forall c :: c in counters <==>
              && |c.latches| > 0 && c.latches[0] in heads && c.down == !c.up && 2 <= |c.latches| <= maxSize + 1
              && Chain(lg, c.latches) && forall i :: 1 <= i < |c.latches| ==> Passed(check, c, i)
    ensures forall c, i :: c in counters && 0 <= i < |c.latches| ==>
              lg.AllIn(c.latches) && lg.clock[c.latches[i]] == lg.clock[c.latches[0]]
  {
    var search := new Search(lg, maxSize, check);
    var i := 0;
    while i < |heads|
      invariant 0 <= i <= |heads| && search.lg == lg && search.maxSize == maxSize && search.check == check
      invariant forall c :: c in search.counters <==>
                  exists j :: 0 <= j < i && Grown(lg, maxSize, check, [heads[j]], c)
      invariant Distinct(heads) ==> Distinct(search.counters)
    {
      var state := new CounterState.Head(lg, heads[i]);
      ghost var before := search.counters;
      ghost var added := search.Lengthen(state);
      if Distinct(heads) {
        forall c | c in before ensures c !in added {
          var j :| 0 <= j < i && Grown(lg, maxSize, check, [heads[j]], c);
          assert c.latches[..1] == [heads[j]] && [heads[j]][0] != [heads[i]][0];
        }
        AppendKeepsDistinct(before, added);
      }
      forall c ensures c in added <==> Grown(lg, maxSize, check, [heads[i]], c) {}
      i := i + 1;
    }
    counters := search.counters;
    CountersMean(lg, maxSize, check, heads, counters);
  }

  lemma CountersMean(lg: LatchGraph, maxSize: nat, check: (seq<nat>, bool) -> bool, heads: seq<nat>,
      counters: seq<Counter>)
    requires lg.Valid()
    requires forall c :: c in counters <==>
               exists i :: 0 <= i < |heads| && Grown(lg, maxSize, check, [heads[i]], c)
    ensures forall c :: c in counters <==>
              && |c.latches| > 0 && c.latches[0] in heads && c.down == !c.up && 2 <= |c.latches| <= maxSize + 1
              && Chain(lg, c.latches) && forall i :: 1 <= i < |c.latches| ==> Passed(check, c, i)
    ensures forall c, i :: c in counters && 0 <= i < |c.latches| ==>
              lg.AllIn(c.latches) && lg.clock[c.latches[i]] == lg.clock[c.latches[0]]
  {
    forall c: Counter
      ensures c in counters <==>
                && |c.latches| > 0 && c.latches[0] in heads && c.down == !c.up && 2 <= |c.latches| <= maxSize + 1
                && Chain(lg, c.latches) && forall i :: 1 <= i < |c.latches| ==> Passed(check, c, i)
    {
      StartsAtHead(lg, maxSize, check, heads, c);
      if |c.latches| > 0 { RecordedIff(lg, maxSize, check, c); }
    }
    forall c, i | c in counters && 0 <= i < |c.latches|
      ensures lg.AllIn(c.latches) && lg.clock[c.latches[i]] == lg.clock[c.latches[0]]
    {
      OneClock(lg, c.latches, i);
    }
  }

  lemma StartsAtHead(lg: LatchGraph, maxSize: nat, check: (seq<nat>, bool) -> bool, heads: seq<nat>, c: Counter)
    requires lg.Valid()
    ensures (exists i :: 0 <= i < |heads| && Grown(lg, maxSize, check, [heads[i]], c)) <==>
            |c.latches| > 0 && c.latches[0] in heads && Grown(lg, maxSize, check, [c.latches[0]], c)
  {
    if i :| 0 <= i < |heads| && Grown(lg, maxSize, check, [heads[i]], c) {
      assert c.latches[..1] == [heads[i]] && c.latches[..1][0] == c.latches[0];
    }
  }

  // ---- what is recorded, without the search ----

  /** Recorded are exactly the chains of 2 to `maxSize` + 1 latches that pass the checks of one
      direction at every position from 1 up. */
  lemma RecordedIff(lg: LatchGraph, maxSize: nat, check: (seq<nat>, bool) -> bool, c: Counter)
    requires lg.Valid() && |c.latches| > 0
    ensures Grown(lg, maxSize, check, [c.latches[0]], c) <==>
              && c.down == !c.up && 2 <= |c.latches| <= maxSize + 1 && Chain(lg, c.latches)
              && forall i :: 1 <= i < |c.latches| ==> Passed(check, c, i)
  {
    assert c.latches[..1] == [c.latches[0]];
    GrownIffContinues(lg, maxSize, check, [c.latches[0]], c);
  }

  // ---- the checks as posed, on the latches of a netlist ----

  /** The design made of the latches `s`, given the gate at the input of every latch. */
  function DesignOf(g: Graph, rank: seq<nat>, inputOf: seq<nat>, s: seq<nat>): Design
    requires forall i :: 0 <= i < |s| ==> s[i] < |inputOf|
  {
    Design(g, rank, s, seq(|s|, i requires 0 <= i < |s| => inputOf[s[i]]))
  }

  /** Some node that `m` reads is `n` or has `n` behind it, scan inputs of latch gates not being followed:
      `scan` gives for every node the node at its scan input, or -1. */
  ghost predicate Drives(g: Graph, rank: seq<nat>, scan: seq<int>, n: nat, m: nat)
    requires g.Valid() && g.RankedBy(rank) && |scan| == |g.nodes| && m < |g.nodes|
  {
    exists i :: 0 <= i < |g.inputs[m]| && LeadsTo(g, rank, scan, n, g.inputs[m][i])
  }

  ghost predicate LeadsTo(g: Graph, rank: seq<nat>, scan: seq<int>, n: nat, top: nat)
    requires g.Valid() && g.RankedBy(rank) && |scan| == |g.nodes| && top < |g.nodes|
    decreases rank[top]
  {
    n == top ||
    (g.IsGate(top) && exists i :: 0 <= i < |g.inputs[top]| && Followed(g, scan, top, g.inputs[top][i]) &&
                                  LeadsTo(g, rank, scan, n, g.inputs[top][i]))
  }

  predicate Followed(g: Graph, scan: seq<int>, x: nat, y: nat)
    requires |scan| == |g.nodes| && x < |g.nodes|
  {
    !(g.nodes[x].latchGate && scan[x] == y)
  }

  /** The latch graph is that of the netlist: `inputOf` gives the node at the input of every latch, gates
      there being read by that latch alone, and latches drive what they lead to. */
  ghost predicate LatchesOf(lg: LatchGraph, g: Graph, rank: seq<nat>, scan: seq<int>, inputOf: seq<nat>) {
    && lg.Valid() && g.Valid() && g.RankedBy(rank)
    && |lg.driven| == |inputOf| == |scan| == |g.nodes|
    && (forall n {:trigger inputOf[n]} :: 0 <= n < |inputOf| ==> inputOf[n] < |g.nodes|)
    && (forall n {:trigger g.IsGate(inputOf[n])} ::
          0 <= n < |inputOf| && g.nodes[n].kind.LatchNode? && g.IsGate(inputOf[n]) ==>
            IsOnlyReader(g, n, inputOf[n]))
    && (forall m: nat, i: nat :: m < |g.nodes| && g.IsGate(m) && i < |g.inputs[m]| ==>
          !g.nodes[g.inputs[m][i]].latchGate)
    && (forall n: nat, m: nat {:trigger m in lg.driven[n]} :: n < |lg.driven| ==>
          (m in lg.driven[n] <==> m < |g.nodes| && g.nodes[m].kind.LatchNode? && Drives(g, rank, scan, n, m)))
  }

  /** The answers used by the search are those of the queries for the last latch of a list. */
  ghost predicate AnswersQueries(check: (seq<nat>, bool) -> bool, g: Graph, rank: seq<nat>, inputOf: seq<nat>) {
    forall s: seq<nat>, up: bool {:trigger check(s, up)} ::
      2 <= |s| && (forall i :: 0 <= i < |s| ==> s[i] < |inputOf|) && DesignOf(g, rank, inputOf, s).Valid() ==>
        check(s, up) == Accepted(DesignOf(g, rank, inputOf, s), up, |s| - 1)
  }

  lemma ChainIsDesign(lg: LatchGraph, g: Graph, rank: seq<nat>, scan: seq<int>, inputOf: seq<nat>, s: seq<nat>)
    requires LatchesOf(lg, g, rank, scan, inputOf) && Chain(lg, s) && |s| > 0 && g.nodes[s[0]].kind.LatchNode?
    ensures DesignOf(g, rank, inputOf, s).Valid()
  {
    forall i | 0 <= i < |s| ensures g.nodes[s[i]].kind.LatchNode? {
      if i > 0 { assert Linked(lg, s, i); assert s[i] in lg.driven[s[0]]; }
    }
    forall i, j | 0 <= i < j < |s| ensures s[i] != s[j] { assert Linked(lg, s, j); }
  }

  /** Two designs over one netlist with the same lowest `m` latches. */
  ghost predicate Alike(k: Design, p: Design, m: nat) {
    && k.Valid() && p.Valid() && k.g == p.g && k.rank == p.rank
    && m <= |k.q| && m <= |p.q| && k.q[..m] == p.q[..m] && k.d[..m] == p.d[..m]
  }

  lemma AlikeAt(k: Design, p: Design, m: nat, i: nat)
    requires Alike(k, p, m) && i < m
    ensures k.q[i] == p.q[i] && k.d[i] == p.d[i] && k.q[..i] == p.q[..i] && Alike(k, p, i)
  {
    assert k.q[..m][i] == p.q[..m][i] && k.d[..m][i] == p.d[..m][i];
    assert k.q[..i] == k.q[..m][..i] && p.q[..i] == p.q[..m][..i];
    assert k.d[..i] == k.d[..m][..i] && p.d[..i] == p.d[..m][..i];
  }

  lemma AlikeSays(k: Design, p: Design, m: nat, one: bool, v: Bits, w: Bits)
    requires Alike(k, p, m) && |v| == |w| == |k.g.nodes|
    ensures k.AgreeOutside(v, w, m) <==> p.AgreeOutside(v, w, m)
    ensures k.LowerAre(v, m, one) <==> p.LowerAre(v, m, one)
  {
    assert forall j :: 0 <= j < m ==> k.q[j] == k.q[..m][j] && p.q[j] == p.q[..m][j];
  }

  lemma AlikeShares(k: Design, p: Design, m: nat, top: nat, v: Bits, w: Bits)
    requires Alike(k, p, m) && |v| == |w| == |k.g.nodes| && Share(p, v, w, m, top)
    ensures Share(k, v, w, m, top)
  {
  }

  lemma AlikeSolves(k: Design, p: Design, top: nat, v: Bits)
    requires Alike(k, p, 0) && |v| == |k.g.nodes| && top < |v| && SolvesCone(k, top, v)
    ensures SolvesCone(p, top, v)
  {
  }

  lemma AlikeHolds(k: Design, p: Design, one: bool, v: Bits, i: nat)
    requires Alike(k, p, i + 1) && |v| == |k.g.nodes|
    ensures k.Held(v, i, one) <==> p.Held(v, i, one)
  {
    AlikeAt(k, p, i + 1, i);
    AlikeSays(k, p, i, one, v, v);
  }

  lemma SameByLowest(k: Design, p: Design, one: bool, value: bool, i: nat)
    requires 1 <= i && Alike(k, p, i + 1) && QuerySame(k, one, value, i)
    ensures QuerySame(p, one, value, i)
  {
    AlikeAt(k, p, i + 1, i);
    AlikeAt(k, p, i + 1, 0);
    forall v: Bits, w: Bits | SameCopies(p, one, value, i, v, w) ensures v[p.d[0]] == w[p.d[i]] {
      AlikeSolves(p, k, p.d[0], v);
      AlikeSolves(p, k, p.d[i], w);
      AlikeSays(k, p, i + 1, one, v, w);
      AlikeSays(k, p, i, one, w, v);
      assert SameCopies(k, one, value, i, v, w);
    }
  }

  lemma HoldByLowest(k: Design, p: Design, one: bool, i: nat)
    requires 1 <= i && Alike(k, p, i + 1) && QueryHold(k, one, i)
    ensures QueryHold(p, one, i)
  {
    AlikeAt(k, p, i + 1, i);
    AlikeAt(k, p, i + 1, 0);
    forall v: Bits, w: Bits | HoldCopies(p, one, i, v, w) ensures v[p.d[i]] == w[p.d[i]] {
      AlikeSolves(p, k, p.d[i], v);
      AlikeSolves(p, k, p.d[i], w);
      AlikeShares(k, p, i, p.d[i], v, w);
      AlikeHolds(k, p, one, v, i);
      AlikeHolds(k, p, one, w, i);
      assert HoldCopies(k, one, i, v, w);
    }
  }

  lemma AlikeByLowest(k: Design, p: Design, one: bool, i: nat)
    requires 2 <= i && Alike(k, p, i + 1) && QueryAlike(k, one, i)
    ensures QueryAlike(p, one, i)
  {
    var j := i - 1;
    AlikeAt(k, p, i + 1, i);
    AlikeAt(k, p, i + 1, j);
    assert p.HasCone(i) && p.HasCone(j);
    forall v: Bits, w: Bits | AlikeCopies(p, one, i, v, w) ensures v[p.d[i]] == w[p.d[j]] {
      CopiesOfBoth(k, p, one, i, v, w);
    }
  }

  lemma CopiesOfBoth(k: Design, p: Design, one: bool, i: nat, v: Bits, w: Bits)
    requires 2 <= i && Alike(k, p, i + 1) && AlikeCopies(p, one, i, v, w)
    ensures AlikeCopies(k, one, i, v, w)
  {
    AlikeAt(k, p, i + 1, i);
    AlikeAt(k, p, i + 1, i - 1);
    AlikeSolves(p, k, p.d[i], v);
    AlikeSolves(p, k, p.d[i - 1], w);
    AlikeShares(k, p, i + 1, |k.g.nodes|, v, w);
    AlikeHolds(k, p, one, v, i);
    AlikeHolds(k, p, one, w, i - 1);
  }

  lemma AcceptedByLowest(k: Design, p: Design, one: bool, i: nat)
    requires 1 <= i && Alike(k, p, i + 1) && Accepted(k, one, i)
    ensures Accepted(p, one, i)
  {
    SameByLowest(k, p, one, false, i);
    SameByLowest(k, p, one, true, i);
    HoldByLowest(k, p, one, i);
    if i >= 2 { AlikeByLowest(k, p, one, i); }
  }

  lemma AcceptedIffByLowest(k: Design, p: Design, one: bool, i: nat)
    requires 1 <= i && Alike(k, p, i + 1)
    ensures Accepted(k, one, i) <==> Accepted(p, one, i)
  {
    if Accepted(k, one, i) { AcceptedByLowest(k, p, one, i); }
    if Accepted(p, one, i) { AcceptedByLowest(p, k, one, i); }
  }

  lemma PrefixIsAlike(g: Graph, rank: seq<nat>, inputOf: seq<nat>, s: seq<nat>, m: nat)
    requires m <= |s| && forall i :: 0 <= i < |s| ==> s[i] < |inputOf|
    requires DesignOf(g, rank, inputOf, s).Valid()
    ensures Alike(DesignOf(g, rank, inputOf, s), DesignOf(g, rank, inputOf, s[..m]), m)
  {
    var k, p := DesignOf(g, rank, inputOf, s), DesignOf(g, rank, inputOf, s[..m]);
    assert k.q[..m] == p.q[..m] && k.d[..m] == p.d[..m];
    forall i | 0 <= i < m ensures p.q[i] == k.q[i] && p.d[i] == k.d[i] {}
  }

  /** Position `i` is judged by the latches up to it alone, so the answers given along the search are
      those for the whole list. */
  lemma PassedIffAccepted(lg: LatchGraph, check: (seq<nat>, bool) -> bool, g: Graph, rank: seq<nat>,
      scan: seq<int>, inputOf: seq<nat>, c: Counter, i: nat)
    requires LatchesOf(lg, g, rank, scan, inputOf) && AnswersQueries(check, g, rank, inputOf)
    requires Chain(lg, c.latches) && 1 <= i < |c.latches|
    requires g.nodes[c.latches[0]].kind.LatchNode?
    ensures DesignOf(g, rank, inputOf, c.latches).Valid()
    ensures Passed(check, c, i) <==> Accepted(DesignOf(g, rank, inputOf, c.latches), c.up, i)
  {
    ChainIsDesign(lg, g, rank, scan, inputOf, c.latches);
    AnsweredIffAccepted(check, g, rank, inputOf, c.latches, c.up, i);
  }

  lemma AnsweredIffAccepted(check: (seq<nat>, bool) -> bool, g: Graph, rank: seq<nat>, inputOf: seq<nat>,
      s: seq<nat>, up: bool, i: nat)
    requires AnswersQueries(check, g, rank, inputOf) && 1 <= i < |s| && forall j :: 0 <= j < |s| ==> s[j] < |inputOf|
    requires DesignOf(g, rank, inputOf, s).Valid()
    ensures check(s[..i + 1], up) <==> Accepted(DesignOf(g, rank, inputOf, s), up, i)
  {
    PrefixIsJudgedAlike(g, rank, inputOf, s, s[..i + 1], up, i);
    AnswerGiven(check, g, rank, inputOf, s[..i + 1], up);
  }

  lemma PrefixIsJudgedAlike(g: Graph, rank: seq<nat>, inputOf: seq<nat>, s: seq<nat>, t: seq<nat>, up: bool,
      i: nat)
    requires 1 <= i < |s| && (forall j :: 0 <= j < |s| ==> s[j] < |inputOf|) && DesignOf(g, rank, inputOf, s).Valid()
    requires t == s[..i + 1]
    ensures forall j :: 0 <= j < |t| ==> t[j] < |inputOf|
    ensures DesignOf(g, rank, inputOf, t).Valid()
    ensures Accepted(DesignOf(g, rank, inputOf, s), up, i) <==> Accepted(DesignOf(g, rank, inputOf, t), up, i)
  {
    PrefixIsAlike(g, rank, inputOf, s, i + 1);
    AcceptedIffByLowest(DesignOf(g, rank, inputOf, s), DesignOf(g, rank, inputOf, t), up, i);
  }

  lemma AnswerGiven(check: (seq<nat>, bool) -> bool, g: Graph, rank: seq<nat>, inputOf: seq<nat>, t: seq<nat>,
      up: bool)
    requires AnswersQueries(check, g, rank, inputOf) && 2 <= |t| && forall j :: 0 <= j < |t| ==> t[j] < |inputOf|
    requires DesignOf(g, rank, inputOf, t).Valid()
    ensures check(t, up) <==> Accepted(DesignOf(g, rank, inputOf, t), up, |t| - 1)
  {
  }

  /** Of lists that start at a given latch, the search records exactly the chains of 2 to `maxSize` + 1
      latches whose design the queries accept, in one direction, at every position. */
  lemma RecordedIffAccepted(lg: LatchGraph, maxSize: nat, check: (seq<nat>, bool) -> bool, g: Graph,
      rank: seq<nat>, scan: seq<int>, inputOf: seq<nat>, c: Counter)
    requires LatchesOf(lg, g, rank, scan, inputOf) && AnswersQueries(check, g, rank, inputOf)
    requires |c.latches| > 0 && c.latches[0] < |g.nodes| && g.nodes[c.latches[0]].kind.LatchNode?
    ensures Chain(lg, c.latches) ==> DesignOf(g, rank, inputOf, c.latches).Valid()
    ensures Grown(lg, maxSize, check, [c.latches[0]], c) <==>
              && c.down == !c.up && 2 <= |c.latches| <= maxSize + 1 && Chain(lg, c.latches)
              && forall i :: 1 <= i < |c.latches| ==> Accepted(DesignOf(g, rank, inputOf, c.latches), c.up, i)
  {
    RecordedIff(lg, maxSize, check, c);
    if Chain(lg, c.latches) {
      ChainIsDesign(lg, g, rank, scan, inputOf, c.latches);
      forall i | 1 <= i < |c.latches|
        ensures Passed(check, c, i) <==> Accepted(DesignOf(g, rank, inputOf, c.latches), c.up, i)
      {
        PassedIffAccepted(lg, check, g, rank, scan, inputOf, c, i);
      }
    }
  }

  // ---- what counts is linked ----

  /** If a node outside the gates is all that distinguishes `a` from `b`, and what gate or node `top` gives
      differs, then the node leads to `top`. */
  lemma {:induction false} DependsThenLeads(g: Graph, rank: seq<nat>, scan: seq<int>, n: nat, top: nat, a: Bits,
      b: Bits)
    requires g.Valid() && g.RankedBy(rank) && |scan| == |a| == |b| == |g.nodes| && top < |g.nodes|
    requires forall x :: 0 <= x < |a| && x != n ==> a[x] == b[x]
    requires forall x: nat :: x < |g.nodes| && g.IsGate(x) && Feeds(g, rank, x, top) ==> !g.nodes[x].latchGate
    requires Eval(g, rank, a, top) != Eval(g, rank, b, top)
    ensures LeadsTo(g, rank, scan, n, top)
    decreases rank[top]
  {
    if g.IsGate(top) {
      var i := SomeInputDiffers(g, rank, top, a, b);
      var y := g.inputs[top][i];
      assert Feeds(g, rank, top, top);
      forall x: nat | x < |g.nodes| && g.IsGate(x) && Feeds(g, rank, x, y) ensures !g.nodes[x].latchGate {
        assert Feeds(g, rank, x, top);
      }
      DependsThenLeads(g, rank, scan, n, y, a, b);
    }
  }

  lemma SomeInputDiffers(g: Graph, rank: seq<nat>, top: nat, a: Bits, b: Bits) returns (i: nat)
    requires g.Valid() && g.RankedBy(rank) && |a| == |b| == |g.nodes| && top < |g.nodes| && g.IsGate(top)
    requires Eval(g, rank, a, top) != Eval(g, rank, b, top)
    ensures i < |g.inputs[top]| && Eval(g, rank, a, g.inputs[top][i]) != Eval(g, rank, b, g.inputs[top][i])
  {
    var xs := seq(|g.inputs[top]|, j requires 0 <= j < |g.inputs[top]| => Eval(g, rank, a, g.inputs[top][j]));
    var ys := seq(|g.inputs[top]|, j requires 0 <= j < |g.inputs[top]| => Eval(g, rank, b, g.inputs[top][j]));
    assert xs != ys;
    i :| i < |xs| && xs[i] != ys[i];
  }

  lemma {:induction false} LeadsIsFeeds(g: Graph, rank: seq<nat>, scan: seq<int>, n: nat, top: nat)
    requires g.Valid() && g.RankedBy(rank) && |scan| == |g.nodes| && top < |g.nodes| && LeadsTo(g, rank, scan, n, top)
    ensures Feeds(g, rank, n, top)
    decreases rank[top]
  {
    if n != top {
      var i :| 0 <= i < |g.inputs[top]| && LeadsTo(g, rank, scan, n, g.inputs[top][i]);
      LeadsIsFeeds(g, rank, scan, n, g.inputs[top][i]);
    }
  }

  /** What a gate reads has no latch gate in its cone. */
  lemma {:induction false} NoLatchGateBelow(g: Graph, rank: seq<nat>, m: nat, i: nat, x: nat)
    requires g.Valid() && g.RankedBy(rank) && m < |g.nodes| && g.IsGate(m) && i < |g.inputs[m]|
    requires forall m: nat, i: nat :: m < |g.nodes| && g.IsGate(m) && i < |g.inputs[m]| ==>
               !g.nodes[g.inputs[m][i]].latchGate
    requires x < |g.nodes| && Feeds(g, rank, x, g.inputs[m][i])
    ensures !g.nodes[x].latchGate
    decreases rank[m]
  {
    var y := g.inputs[m][i];
    if x != y {
      var j: nat :| j < |g.inputs[y]| && Feeds(g, rank, x, g.inputs[y][j]);
      NoLatchGateBelow(g, rank, y, j, x);
    }
  }

  /** The scan input of the gate of latch `i` has none of the latches up to `i` behind it. */
  ghost predicate ScanApart(k: Design, scan: seq<int>, i: nat)
    requires k.Valid() && i < |k.q| && |scan| == |k.g.nodes|
  {
    forall j :: 0 <= j <= i && 0 <= scan[k.d[i]] < |k.g.nodes| ==> !Feeds(k.g, k.rank, k.q[j], scan[k.d[i]])
  }

  /** A latch on which the next value of latch `i` depends drives latch `i`. */
  lemma DependsThenDrives(lg: LatchGraph, k: Design, scan: seq<int>, inputOf: seq<nat>, i: nat, j: nat, a: Bits,
      b: Bits)
    requires k.Valid() && LatchesOf(lg, k.g, k.rank, scan, inputOf) && j <= i < |k.q| && k.HasCone(i)
    requires ScanApart(k, scan, i) && |a| == |b| == |k.g.nodes| && k.Next(a, i) != k.Next(b, i)
    requires forall x :: 0 <= x < |a| && x != k.q[j] ==> a[x] == b[x]
    ensures k.q[i] in lg.driven[k.q[j]]
  {
    var top := k.d[i];
    var p := SomeInputDiffers(k.g, k.rank, top, a, b);
    var y := k.g.inputs[top][p];
    forall x: nat | x < |k.g.nodes| && k.g.IsGate(x) && Feeds(k.g, k.rank, x, y) ensures !k.g.nodes[x].latchGate {
      NoLatchGateBelow(k.g, k.rank, top, p, x);
    }
    DependsThenLeads(k.g, k.rank, scan, k.q[j], y, a, b);
    LeadsIsFeeds(k.g, k.rank, scan, k.q[j], y);
    assert Followed(k.g, scan, top, y);
    assert LeadsTo(k.g, k.rank, scan, k.q[j], top);
    assert IsOnlyReader(k.g, k.q[i], top);
  }

  /** A counter that some assignment outside it lets count. */
  ghost predicate CanCount(k: Design, reset: Bits -> bool, enable: Bits -> bool, a: Bits)
    requires k.Valid()
  {
    |a| == |k.g.nodes| && enable(k.Rest(a)) && !reset(k.Rest(a))
  }

  /** Like `a` outside the counter, all latches at `v`. */
  ghost function AllAt(k: Design, a: Bits, v: bool): (b: Bits)
    requires k.Valid() && |a| == |k.g.nodes|
    ensures |b| == |a| && k.Rest(b) == k.Rest(a) && forall i :: 0 <= i < |k.q| ==> b[k.q[i]] == v
  {
    var b := seq(|a|, x requires 0 <= x < |a| => if x in k.q then v else a[x]);
    assert k.Rest(b) == k.Rest(a);
    b
  }

  /** In a counter every latch depends on itself and on all lower ones. */
  lemma CounterDepends(k: Design, up: bool, reset: Bits -> bool, enable: Bits -> bool, c: Bits, i: nat, j: nat)
    requires k.Valid() && IsCounter(k, up, reset, enable) && CanCount(k, reset, enable, c) && j <= i < |k.q|
    ensures k.Next(AllAt(k, c, up), i) != k.Next(AllAt(k, c, up)[k.q[j] := !up], i)
  {
    var a := AllAt(k, c, up);
    var b := a[k.q[j] := !up];
    RestIgnoresLatches(k, a, j, !up);
    CountingBit(k, up, reset, enable, a, i);
    CountingBit(k, up, reset, enable, b, i);
    assert k.LowerAre(a, i, up);
    if j == i {
      assert k.LowerAre(b, i, up);
    } else {
      assert b[k.q[j]] != up && b[k.q[i]] == a[k.q[i]];
    }
  }

  lemma CountingBit(k: Design, up: bool, reset: Bits -> bool, enable: Bits -> bool, a: Bits, i: nat)
    requires k.Valid() && IsCounter(k, up, reset, enable) && CanCount(k, reset, enable, a) && i < |k.q|
    ensures k.Next(a, i) == if k.LowerAre(a, i, up) then !a[k.q[i]] else a[k.q[i]]
  {
    assert CountsAt(k, up, reset, enable, a);
    CounterNextBit(k, up, reset, enable, a, i);
  }

  /** The links the search asks for are there among latches that count. */
  lemma CountersAreLinked(lg: LatchGraph, k: Design, scan: seq<int>, inputOf: seq<nat>, up: bool,
      reset: Bits -> bool, enable: Bits -> bool, i: nat, j: nat)
    requires k.Valid() && LatchesOf(lg, k.g, k.rank, scan, inputOf) && j <= i < |k.q| && k.HasCone(i)
    requires ScanApart(k, scan, i) && IsCounter(k, up, reset, enable)
    requires exists c :: CanCount(k, reset, enable, c)
    ensures k.q[i] in lg.driven[k.q[j]]
  {
    var c :| CanCount(k, reset, enable, c);
    CounterDepends(k, up, reset, enable, c, i, j);
    DependsThenDrives(lg, k, scan, inputOf, i, j, AllAt(k, c, up), AllAt(k, c, up)[k.q[j] := !up]);
  }

  /** Latch `i` is on the same clock and reset as the one before, has nearly the same drivers, and is not to
      be ignored. */
  ghost predicate Akin(lg: LatchGraph, s: seq<nat>, i: nat)
    requires lg.Valid() && lg.AllIn(s) && 0 < i < |s|
  {
    && s[i] !in lg.ignored && lg.clock[s[i]] == lg.clock[s[i - 1]] && -1 <= lg.reset[s[i]] - lg.reset[s[i - 1]] <= 1
    && |(lg.driving[s[i]] + lg.driving[s[i - 1]]) - lg.driving[s[i]] * lg.driving[s[i - 1]]| < 16
  }

  /** No counter is missed: akin latches that count modulo 2^n, up or down, are recorded. */
  lemma CountersAreRecorded(lg: LatchGraph, maxSize: nat, check: (seq<nat>, bool) -> bool, g: Graph, rank: seq<nat>,
      scan: seq<int>, inputOf: seq<nat>, s: seq<nat>, up: bool, reset: Bits -> bool, enable: Bits -> bool)
    requires LatchesOf(lg, g, rank, scan, inputOf) && AnswersQueries(check, g, rank, inputOf)
    requires lg.AllIn(s) && 2 <= |s| <= maxSize + 1 && forall i :: 1 <= i < |s| ==> Akin(lg, s, i)
    requires DesignOf(g, rank, inputOf, s).Valid() && IsCounter(DesignOf(g, rank, inputOf, s), up, reset, enable)
    requires exists c :: CanCount(DesignOf(g, rank, inputOf, s), reset, enable, c)
    requires forall i :: 0 <= i < |s| ==>
               DesignOf(g, rank, inputOf, s).HasCone(i) && ScanApart(DesignOf(g, rank, inputOf, s), scan, i)
    ensures Grown(lg, maxSize, check, [s[0]], Counter(s, up, !up))
  {
    var k := DesignOf(g, rank, inputOf, s);
    forall i | 1 <= i < |s| ensures Linked(lg, s, i) {
      forall j | 0 <= j <= i ensures s[i] in lg.driven[s[j]] {
        CountersAreLinked(lg, k, scan, inputOf, up, reset, enable, i, j);
      }
      assert Akin(lg, s, i);
    }
    CountersAreAccepted(k, up, reset, enable);
    assert g.nodes[k.q[0]].kind.LatchNode?;
    RecordedIffAccepted(lg, maxSize, check, g, rank, scan, inputOf, Counter(s, up, !up));
  }
}
