/** Eliminating overlaps among the modules found in a netlist: the constraints are built from the modules,
    a solver chooses, and the choice is carried out. */
module OverlapElimination {
  import opened Cones
  import opened Sequences
  import opened Slices
  import opened Encodings
  import opened Overlaps

  /** What the solver answers to a number of 0/1 variables and the constraints on them. */
  datatype Solution = Unsolved | Solved(values: seq<int>)

  /** Whatever the solver says is a solution is one. */
  ghost predicate IsSolver(solver: (nat, seq<Range>) -> Solution) {
    forall n: nat, cs: seq<Range> :: SolvesOrSaysNo(solver, n, cs)
  }

  ghost predicate SolvesOrSaysNo(solver: (nat, seq<Range>) -> Solution, n: nat, cs: seq<Range>) {
    match solver(n, cs)
    case Unsolved => true
    case Solved(x) => |x| == n && ZeroOne(x) && AllHold(cs, x)
  }

  /** Module `i` of `ps` shares a node with another one. */
  ghost predicate Overlapping(ps: seq<Part>, i: nat)
    requires i < |ps|
  {
    exists n: nat :: SharedNode(ps, i, n)
  }

  ghost predicate SharedNode(ps: seq<Part>, i: nat, n: nat)
    requires i < |ps|
  {
    n in ps[i].internals && exists j :: 0 <= j < |ps| && j != i && n in ps[j].internals
  }

  /** Nothing but the slicing has been decided. */
  predicate SameModule(p: Part, q: Part) {
    p.w == q.w && p.inputs == q.inputs && p.outputs == q.outputs && p.internals == q.internals
  }

  /** What asking a module for its number of slices may have made of it. */
  ghost predicate Asked(p: Part, q: Part, rank: seq<nat>) {
    && SameModule(p, q) && !q.sliceable.NEEDS_SLICE_CHECK? && (!p.sliceable.NEEDS_SLICE_CHECK? ==> p == q)
    && (p.sliceable.NEEDS_SLICE_CHECK? && RankedBehind(p.w, p.inputs, rank) ==>
          (q.sliceable.SLICEABLE? <==> |p.outputs| > 1 && p.SameSupports()))
  }

  class FlatModule {
    const w: Wires
    const modules: seq<IdModule>
    var achievedCoverage: int

    ghost predicate Valid()
      reads modules
    {
      && Wired(w)
      && (forall i, j :: 0 <= i < j < |modules| ==> modules[i] != modules[j])
      && (forall i {:trigger modules[i].Valid()} :: 0 <= i < |modules| ==> modules[i].w == w && modules[i].Valid())
    }

    ghost function Parts(): (ps: seq<Part>)
      reads modules
      ensures |ps| == |modules| && forall i :: 0 <= i < |modules| ==> ps[i] == modules[i].State()
    {
      seq(|modules|, i requires 0 <= i < |modules| reads modules => modules[i].State())
    }

    constructor (w: Wires, modules: seq<IdModule>)
      requires Wired(w) && (forall i :: 0 <= i < |modules| ==> modules[i].w == w && modules[i].Valid())
      requires forall i, j :: 0 <= i < j < |modules| ==> modules[i] != modules[j]
      ensures Valid() && this.w == w && this.modules == modules
    {
      this.w, this.modules, achievedCoverage := w, modules, 0;
    }

    /** The modules that own a node. */
    method Owners(n: nat) returns (owners: set<nat>)
      ensures forall i: nat :: i in owners <==> i < |modules| && n in modules[i].internals
    {
      owners := {};
      var i := 0;
      while i < |modules|
        invariant 0 <= i <= |modules|
        invariant forall j: nat :: j in owners <==> j < i && n in modules[j].internals
      {
        if n in modules[i].internals { owners := owners + {i}; }
        i := i + 1;
      }
    }

    /** Asks every module that owns a node of another one for its number of slices; only these can stay
        sliceable. */
    method ComputeSliceability(ghost rank: seq<nat>)
      requires Valid() && forall i :: 0 <= i < |modules| ==> !modules[i].sliceable.SLICEABLE?
      modifies modules
      ensures Valid() && |Parts()| == |old(Parts())|
      ensures forall i :: 0 <= i < |modules| ==> Decided(old(Parts()), Parts(), i, rank)
      ensures forall i :: 0 <= i < |modules| ==> IsSlicedIff(old(Parts()), i, Parts()[i].sliceable, rank)
    {
      ghost var ps := Parts();
      var sliceables: set<nat> := {};
      ghost var asked: set<nat> := {};
      var n := 0;
      while n < |w|
        invariant 0 <= n <= |w| && Valid() && AskedSoFar(ps, Parts(), asked, sliceables, rank)
        invariant forall i :: i in asked <==> OverlappingBelow(ps, i, n)
      {
        asked, sliceables := AskOwners(n, asked, sliceables, ps, rank);
        n := n + 1;
      }
      forall i | 0 <= i < |modules| ensures i in asked <==> Overlapping(ps, i) {
        assert modules[i].Valid() && AskedAt(ps, Parts(), asked, i, rank);
        assert forall n: nat :: SharedNode(ps, i, n) ==> n < |w|;
      }
      FixUnsliceable(ps, asked, sliceables, rank);
      DecidedMeans(ps, Parts(), rank);
    }

    method AskOwners(n: nat, ghost asked: set<nat>, sliceables: set<nat>, ghost ps: seq<Part>, ghost rank: seq<nat>)
        returns (ghost asked': set<nat>, sliceables': set<nat>)
      requires Valid() && AskedSoFar(ps, Parts(), asked, sliceables, rank)
      requires forall i :: i in asked <==> OverlappingBelow(ps, i, n)
      modifies modules
      ensures Valid() && AskedSoFar(ps, Parts(), asked', sliceables', rank)
      ensures forall i :: i in asked' <==> OverlappingBelow(ps, i, n + 1)
    {
      asked', sliceables' := asked, sliceables;
      var owners := Owners(n);
      forall i: nat | i < |modules| ensures i in owners <==> n in ps[i].internals {
        assert AskedAt(ps, Parts(), asked, i, rank);
      }
      if |owners| > 1 { asked', sliceables' := AskAll(owners, asked, sliceables, ps, rank); }
      AskedAll(ps, asked, asked', owners, n);
    }

    method AskAll(owners: set<nat>, ghost asked: set<nat>, sliceables: set<nat>, ghost ps: seq<Part>,
                  ghost rank: seq<nat>)
        returns (ghost asked': set<nat>, sliceables': set<nat>)
      requires Valid() && AskedSoFar(ps, Parts(), asked, sliceables, rank)
      requires forall i :: i in owners ==> i < |modules|
      modifies modules
      ensures Valid() && AskedSoFar(ps, Parts(), asked', sliceables', rank) && asked' == asked + owners
    {
      asked', sliceables' := asked, sliceables;
      var todo := owners;
      while todo != {}
        invariant Valid() && AskedSoFar(ps, Parts(), asked', sliceables', rank)
        invariant todo <= owners && asked' == asked + (owners - todo)
      {
        var i :| i in todo;
        todo := todo - {i};
        asked', sliceables' := Ask(i, asked', sliceables', ps, rank);
      }
    }

    method Ask(i: nat, ghost asked: set<nat>, sliceables: set<nat>, ghost ps: seq<Part>, ghost rank: seq<nat>)
        returns (ghost asked': set<nat>, sliceables': set<nat>)
      requires Valid() && i < |modules| && AskedSoFar(ps, Parts(), asked, sliceables, rank)
      modifies modules[i]
      ensures Valid() && asked' == asked + {i} && AskedSoFar(ps, Parts(), asked', sliceables', rank)
    {
      var slices := SlicesOf(i, rank);
      asked' := asked + {i};
      sliceables' := if slices > 1 then sliceables + {i} else sliceables;
      AskedNext(ps, old(Parts()), Parts(), asked, sliceables, i, rank);
    }

    method SlicesOf(i: nat, ghost rank: seq<nat>) returns (slices: nat)
      requires Valid() && i < |modules|
      modifies modules[i]
      ensures Valid() && forall j :: 0 <= j < |modules| && j != i ==> Parts()[j] == old(Parts())[j]
      ensures Asked(old(Parts())[i], Parts()[i], rank) && (slices > 1 <==> Parts()[i].sliceable.SLICEABLE?)
    {
      assert modules[i].Valid();
      slices := modules[i].GetNumSlices(rank);
      forall j | 0 <= j < |modules| && j != i ensures modules[j].Valid() && Parts()[j] == old(Parts())[j] {
        assert modules[j] != modules[i] && old(modules[j].Valid());
      }
    }

    method FixUnsliceable(ghost ps: seq<Part>, ghost asked: set<nat>, sliceables: set<nat>, ghost rank: seq<nat>)
      requires Valid() && AskedSoFar(ps, Parts(), asked, sliceables, rank)
      requires forall i :: 0 <= i < |modules| ==> !ps[i].sliceable.SLICEABLE?
      requires forall i :: 0 <= i < |modules| ==> (i in asked <==> Overlapping(ps, i))
      modifies modules
      ensures Valid() && forall i :: 0 <= i < |modules| ==> Decided(ps, Parts(), i, rank)
    {
      ghost var qs := Parts();
      var i := 0;
      while i < |modules|
        invariant 0 <= i <= |modules| && Valid() && Fixed(qs, Parts(), sliceables, i)
      {
        assert AskedAt(ps, qs, asked, i, rank);
        if i !in sliceables { MakeUnsliceable(i); }
        i := i + 1;
      }
      forall j | 0 <= j < |modules| ensures Decided(ps, Parts(), j, rank) {
        assert AskedAt(ps, qs, asked, j, rank);
      }
    }

    method MakeUnsliceable(i: nat)
      requires Valid() && i < |modules| && !modules[i].sliceable.SLICEABLE?
      modifies modules[i]
      ensures Valid() && forall j :: 0 <= j < |modules| && j != i ==> Parts()[j] == old(Parts())[j]
      ensures Parts()[i] == old(Parts())[i].(sliceable := UNSLICEABLE)
    {
      assert modules[i].Valid();
      modules[i].SetUnsliceable();
      forall j | 0 <= j < |modules| && j != i ensures modules[j].Valid() && Parts()[j] == old(Parts())[j] {
        assert modules[j] != modules[i] && old(modules[j].Valid());
      }
    }

    /** Reserves the variables of all modules, one module after the other. */
    method SetVariables() returns (total: nat)
      requires Valid() && forall i :: 0 <= i < |modules| ==> !modules[i].sliceable.NEEDS_SLICE_CHECK?
      modifies modules
      ensures Valid() && Laid(Parts()) && AllReady(Parts()) && total == First(Parts(), |modules|)
      ensures forall i :: 0 <= i < |modules| ==> SameButVariables(old(Parts())[i], Parts()[i])
      ensures forall i :: 0 <= i < |modules| ==>
                && modules[i].ilpStartVar == (if i == 0 then 0 else modules[i - 1].ilpEndVar + 1)
                && modules[i].ilpEndVar == modules[i].ilpStartVar +
                     if modules[i].sliceable.SLICEABLE? then |modules[i].outputs| else 0
      ensures |modules| > 0 ==> total == modules[|modules| - 1].ilpEndVar + 1
    {
      ghost var ps := Parts();
      total := 0;
      var i := 0;
      while i < |modules|
        invariant 0 <= i <= |modules| && Valid() && total == First(Parts(), i) && VariablesSet(ps, Parts(), i)
      {
        ghost var qs := Parts();
        total := SetModuleVariables(i, total);
        VariablesStep(ps, qs, Parts(), i);
        i := i + 1;
      }
      AllVariablesSet(ps, Parts());
      forall j | 0 <= j < |modules|
        ensures modules[j].ilpStartVar == (if j == 0 then 0 else modules[j - 1].ilpEndVar + 1)
        ensures Parts()[j].Ready()
      {
        assert LaidAt(Parts(), j);
      }
    }

    method SetModuleVariables(i: nat, first: nat) returns (next: nat)
      requires Valid() && i < |modules| && !modules[i].sliceable.NEEDS_SLICE_CHECK?
      modifies modules[i]
      ensures Valid() && forall j :: 0 <= j < |modules| && j != i ==> Parts()[j] == old(Parts())[j]
      ensures SameButVariables(old(Parts())[i], Parts()[i]) && Parts()[i].Ready()
      ensures Parts()[i].start == first <= Parts()[i].end == next - 1
    {
      assert modules[i].Valid();
      var last := modules[i].SetILPVars(first);
      next := last + 1;
      forall j | 0 <= j < |modules| && j != i ensures modules[j].Valid() && Parts()[j] == old(Parts())[j] {
        assert modules[j] != modules[i] && old(modules[j].Valid());
      }
    }

    // ---- constraints ----

    ghost predicate Prepared(ps: seq<Part>)
      reads modules
    {
      Valid() && ps == Parts() && Laid(ps) && AllReady(ps)
    }

    /** All constraints: the coverage asked for, if any; the nodes owned by several modules; the slices. */
    method Constraints(target: int, ghost ps: seq<Part>) returns (cs: seq<Range>)
      requires Prepared(ps)
      ensures Encodes(cs, ps, target)
    {
      var coverage := CoverageRange(target, ps);
      var conflicts := ConflictRanges(ps);
      var slices := AllSliceRanges(ps);
      cs := coverage + conflicts + slices;
      forall i | 0 <= i < |ps| ensures |ps[i].w| == |w| { assert modules[i].Valid(); }
      forall x | Answers(ps, x) ensures AllHold(cs, x) <==> Wanted(ps, x, target) {
        AllHoldMore(coverage + conflicts, slices, x);
        AllHoldMore(coverage, conflicts, x);
        NoClashAnywhere(ps, x, |w|);
      }
    }

    method CoverageRange(target: int, ghost ps: seq<Part>) returns (cs: seq<Range>)
      requires Prepared(ps)
      ensures forall x :: Answers(ps, x) ==> (AllHold(cs, x) <==> (target > 0 ==> TotalWeight(ps, x, |ps|) >= target))
    {
      if target <= 0 { return []; }
      var coef: map<nat, int> := map[];
      var i := 0;
      while i < |modules|
        invariant 0 <= i <= |modules| && WeightCoefs(ps, i, coef)
      {
        coef := AddWeights(i, coef, ps);
        i := i + 1;
      }
      cs := [AtLeast(target, coef)];
      forall x | Answers(ps, x) ensures AllHold(cs, x) <==> TotalWeight(ps, x, |ps|) >= target {
        CoverageMeans(ps, x, coef, |ps|);
        AllHoldOne(AtLeast(target, coef), x);
      }
    }

    method AddWeights(i: nat, coef: map<nat, int>, ghost ps: seq<Part>) returns (more: map<nat, int>)
      requires Prepared(ps) && i < |modules| && WeightCoefs(ps, i, coef)
      ensures WeightCoefs(ps, i + 1, more)
    {
      LaidSized(ps, i);
      more := coef;
      var v := modules[i].ilpStartVar;
      while v <= modules[i].ilpEndVar
        invariant ps[i].start <= v <= ps[i].end + 1 && AddedWeights(ps[i], coef, more, v)
      {
        assert ps[i].Ready();
        AddedWeightsStep(ps[i], coef, more, v);
        more := more[v := modules[i].GetSliceSize(v - modules[i].ilpStartVar)];
        v := v + 1;
      }
      WeightsAdded(ps, i, coef, more);
    }

    method ConflictRanges(ghost ps: seq<Part>) returns (cs: seq<Range>)
      requires Prepared(ps)
      ensures ForbidClashes(ps, cs, |w|)
    {
      cs := [];
      var n := 0;
      while n < |w|
        invariant 0 <= n <= |w| && ForbidClashes(ps, cs, n)
      {
        var owners := Owners(n);
        if |owners| > 1 {
          var coef := ConflictRange(n, owners, ps);
          ForbidNext(ps, cs, n, coef);
          cs := cs + [AtMost(1, coef)];
        } else {
          SharedByTwo(ps, owners, n);
          NotShared(ps, n);
          ForbidLonely(ps, cs, n);
        }
        n := n + 1;
      }
    }

    method ConflictRange(n: nat, owners: set<nat>, ghost ps: seq<Part>) returns (coef: map<nat, int>)
      requires Prepared(ps) && forall i: nat :: i in owners <==> i < |modules| && n in modules[i].internals
      ensures ConflictCoefs(ps, n, coef)
    {
      coef := map[];
      var todo := owners;
      while todo != {}
        invariant todo <= owners && PartialCoefs(ps, n, owners - todo, coef)
      {
        var i :| i in todo;
        assert ps[i].Ready();
        ps[i].VarInRange(n);
        PartialCoefsStep(ps, n, owners - todo, i, ps[i].VarOf(n), coef);
        assert owners - (todo - {i}) == (owners - todo) + {i};
        todo := todo - {i};
        coef := coef[modules[i].GetILPVar(n) := 1];
      }
    }

    method AllSliceRanges(ghost ps: seq<Part>) returns (cs: seq<Range>)
      requires Prepared(ps)
      ensures ImposeRules(ps, cs, |ps|)
    {
      cs := [];
      var i := 0;
      while i < |modules|
        invariant 0 <= i <= |modules| && ImposeRules(ps, cs, i)
      {
        var ds := SliceRangesOf(i, ps);
        ImposeNext(ps, cs, i, ds);
        cs := cs + ds;
        i := i + 1;
      }
    }

    method SliceRangesOf(i: nat, ghost ps: seq<Part>) returns (cs: seq<Range>)
      requires Prepared(ps) && i < |modules|
      ensures SliceRanges(ps[i], cs)
    {
      assert ps[i].Ready();
      cs := [];
      if modules[i].KnownSlices() > 1 {
        var start, end := modules[i].ilpStartVar, modules[i].ilpEndVar;
        var v := start + 1;
        while v <= end
          invariant start < v <= end + 1 && |cs| == v - start - 1
          invariant forall k :: 0 <= k < |cs| ==> cs[k] == SliceRange(start, start + 1 + k)
        {
          cs := cs + [SliceRange(start, v)];
          v := v + 1;
        }
        var coef := SizeRange(start, end);
        cs := cs + [AtLeast(0, coef)];
      }
    }

    static method SizeRange(start: nat, end: nat) returns (coef: map<nat, int>)
      requires start < end
      ensures SizeCoefs(start, end, coef)
    {
      coef := map[];
      var v := start + 1;
      while v <= end
        invariant start < v <= end + 1 && forall u: nat :: u in coef <==> start < u < v
        invariant forall u :: u in coef ==> coef[u] == 1
      {
        coef := coef[v := 1];
        v := v + 1;
      }
      coef := coef[start := -2];
    }

    // ---- carrying out a solution ----

    /** Adds up the sizes of the modules and slices chosen. */
    method Measure(x: seq<int>, ghost ps: seq<Part>)
      requires Prepared(ps) && Answers(ps, x) && Consistent(ps, x)
      modifies this`achievedCoverage
      ensures achievedCoverage == TotalWeight(ps, x, |ps|)
    {
      achievedCoverage := 0;
      var i := 0;
      while i < |modules|
        invariant 0 <= i <= |modules| && achievedCoverage == TotalWeight(ps, x, i)
      {
        LaidSized(ps, i);
        var gain := MeasureModule(i, x, ps);
        achievedCoverage := achievedCoverage + gain;
        i := i + 1;
      }
    }

    method MeasureModule(i: nat, x: seq<int>, ghost ps: seq<Part>) returns (gain: int)
      requires Prepared(ps) && i < |modules| && Answers(ps, x) && Consistent(ps, x)
      ensures ps[i].Sized() && ps[i].end < |x| && gain == WeightOf(ps[i], x)
    {
      LaidSized(ps, i);
      assert ps[i].Ready() && SliceRulesAt(ps, x, i);
      gain := 0;
      if x[modules[i].ilpStartVar] != 0 {
        gain := WeighChosen(modules[i], x, ps[i]);
      } else {
        DroppedHasNoWeight(ps[i], x);
      }
    }

    /** The size of the module's own part and of the slices chosen. */
    static method WeighChosen(m: IdModule, x: seq<int>, ghost p: Part) returns (gain: int)
      requires m.State() == p && p.Sized() && !p.sliceable.NEEDS_SLICE_CHECK? && p.end < |x| && x[p.start] == 1
      ensures gain == WeightOf(p, x)
    {
      var start, end := m.ilpStartVar, m.ilpEndVar;
      gain := m.GetSliceSize(0);
      if end != start {
        var j := start + 1;
        while j <= end
          invariant start < j <= end + 1 && gain == WeightTo(p, x, j - 1 - start)
        {
          if x[j] == 1 { gain := gain + m.GetSliceSize(j - start); }
          j := j + 1;
        }
      }
    }

    /** Kills the module, keeps it, or prunes it to its chosen slices. */
    method CarryOutAt(i: nat, x: seq<int>, ghost ps: seq<Part>)
      requires i < |modules| && Answers(ps, x) && |ps| == |modules|
      requires modules[i].Valid() && modules[i].State() == ps[i]
      modifies modules[i]
      ensures Final(ps, i, modules[i].State(), modules[i].isBad, x)
      ensures SliceRulesAt(ps, x, i) && !modules[i].isBad ==> KeepsChosen(ps[i], modules[i].State(), x)
    {
      LaidSized(ps, i);
      assert ps[i].Ready();
      if x[modules[i].ilpStartVar] == 0 {
        modules[i].SetBad();
      } else {
        Keep(modules[i], x, ps[i]);
        if SliceRulesAt(ps, x, i) { LeftIsChosen(ps[i], modules[i].State(), x); }
      }
    }

    static method Keep(m: IdModule, x: seq<int>, ghost p: Part)
      requires m.Valid() && m.State() == p && p.Ready() && p.end < |x| && ZeroOne(x)
      modifies m
      ensures Left(p, m.State(), x) && m.State().sliceable == p.sliceable && !m.isBad
    {
      var start, end := m.ilpStartVar, m.ilpEndVar;
      if end != start {
        var good := Chosen(start, end, x, p);
        GoodSlicesCount(p, x, end - start);
        if |good| > 0 && |good| != m.numSlices {
          Prune(m, good, x, p);
        } else {
          UntouchedIsLeft(p, x);
        }
      } else {
        UntouchedIsLeft(p, x);
      }
    }

    static method Prune(m: IdModule, good: seq<nat>, x: seq<int>, ghost p: Part)
      requires m.Valid() && m.State() == p && p.Ready() && p.start < p.end < |x|
      requires Pruned(p, x) && good == GoodSlices(p, x, p.end - p.start)
      modifies m`outputs, m`inputs, m`internals, m`inputmap
      ensures Left(p, m.State(), x)
    {
      m.PruneSlices(good);
      PrunedIsLeft(p, m.State(), x);
    }

    static method Chosen(start: nat, end: nat, x: seq<int>, ghost p: Part) returns (good: seq<nat>)
      requires start < end < |x| && p.start == start
      ensures good == GoodSlices(p, x, end - start)
    {
      good := [];
      var j := start + 1;
      while j <= end
        invariant start < j <= end + 1 && good == GoodSlices(p, x, j - 1 - start)
      {
        if x[j] == 1 { good := good + [j - start]; }
        j := j + 1;
      }
    }

    method CarryOut(x: seq<int>, ghost ps: seq<Part>)
      requires Prepared(ps) && Answers(ps, x)
      modifies modules
      ensures forall i :: 0 <= i < |modules| ==> Final(ps, i, modules[i].State(), modules[i].isBad, x)
    {
      var i := 0;
      while i < |modules|
        invariant 0 <= i <= |modules|
        invariant forall j :: i <= j < |modules| ==> Pending(modules[j], ps[j])
        invariant forall j :: 0 <= j < i ==> Final(ps, j, modules[j].State(), modules[j].isBad, x)
      {
        assert Pending(modules[i], ps[i]);
        CarryOutAt(i, x, ps);
        forall j | 0 <= j < |modules| && j != i ensures modules[j] != modules[i] {}
        i := i + 1;
      }
    }

    /** The nodes that belong to a module that is not bad. */
    ghost function CoveredNodes(): (nodes: set<nat>)
      reads modules
    {
      set n: nat | n < |w| && InSomeModule(n)
    }

    ghost predicate InSomeModule(n: nat)
      reads modules
    {
      exists i :: 0 <= i < |modules| && !modules[i].isBad && n in modules[i].internals
    }

    /** After the elimination no two remaining modules share a node, every one of them is built from
        outputs it had before, with unchanged cones, and keeps at least two slices if it has slices; the
        coverage reported is that asked for and not less than what the modules cover. Without a
        solution nothing is carried out. `ps` are the modules as they were when the constraints `cs`
        were made, and `x` is the solution, which decides what becomes of each module. */
    method EliminateOverlaps(target: int, solver: (nat, seq<Range>) -> Solution, ghost rank: seq<nat>)
        returns (solved: bool, ghost ps: seq<Part>, ghost cs: seq<Range>, ghost x: seq<int>)
      requires Valid() && IsSolver(solver) && forall i :: 0 <= i < |modules| ==> !modules[i].sliceable.SLICEABLE?
      modifies this, modules
      ensures |ps| == |modules| && Laid(ps) && AllReady(ps) && Encodes(cs, ps, target)
      ensures forall i :: 0 <= i < |ps| ==> Decided(old(Parts()), ps, i, rank)
      ensures solver(First(ps, |ps|), cs) == if solved then Solved(x) else Unsolved
      ensures solved ==> Answers(ps, x) && Wanted(ps, x, target) && achievedCoverage == TotalWeight(ps, x, |ps|)
      ensures solved ==> forall i :: 0 <= i < |modules| ==> Final(ps, i, Parts()[i], modules[i].isBad, x)
      ensures !solved ==> Valid() && Parts() == ps
      ensures solved ==> forall i, j :: 0 <= i < j < |modules| && !modules[i].isBad && !modules[j].isBad ==>
                modules[i].internals !! modules[j].internals
      ensures solved ==> forall i :: 0 <= i < |modules| && !modules[i].isBad ==> KeptWell(old(Parts())[i], Parts()[i])
      ensures solved ==> forall i :: 0 <= i < |modules| ==>
                ps[i].start < |x| && (modules[i].isBad <==> x[ps[i].start] == 0)
      ensures solved ==> forall i :: 0 <= i < |modules| && !modules[i].isBad ==> KeepsChosen(ps[i], Parts()[i], x)
      ensures solved ==> achievedCoverage == |TakenPairs(ps, x, |ps|)|
      ensures solved ==> |CoveredNodes()| <= achievedCoverage && (target > 0 ==> target <= achievedCoverage)
    {
      var total := Prepare(rank);
      ps := Parts();
      var constraints := Constraints(target, ps);
      cs, x := constraints, [];
      assert SolvesOrSaysNo(solver, total, cs);
      match solver(total, constraints)
      case Unsolved =>
        solved := false;
      case Solved(values) =>
        x := values;
        assert Answers(ps, x) && Wanted(ps, x, target);
        CarryOutSolution(values, ps, old(Parts()));
        solved := true;
    }

    method CarryOutSolution(x: seq<int>, ghost ps: seq<Part>, ghost before: seq<Part>)
      requires Prepared(ps) && Answers(ps, x) && Consistent(ps, x)
      requires |before| == |ps| && forall i :: 0 <= i < |ps| ==> SameModule(before[i], ps[i]) && ps[i].w == w
      modifies this, modules
      ensures forall i :: 0 <= i < |modules| ==> Final(ps, i, Parts()[i], modules[i].isBad, x)
      ensures forall i, j :: 0 <= i < j < |modules| && !modules[i].isBad && !modules[j].isBad ==>
                modules[i].internals !! modules[j].internals
      ensures forall i :: 0 <= i < |modules| && !modules[i].isBad ==> KeptWell(before[i], Parts()[i])
      ensures forall i :: 0 <= i < |modules| ==> ps[i].start < |x| && (modules[i].isBad <==> x[ps[i].start] == 0)
      ensures forall i :: 0 <= i < |modules| && !modules[i].isBad ==> KeepsChosen(ps[i], Parts()[i], x)
      ensures |CoveredNodes()| <= achievedCoverage == TotalWeight(ps, x, |ps|) == |TakenPairs(ps, x, |ps|)|
    {
      Measure(x, ps);
      CarryOut(x, ps);
      Outcome(x, before, ps);
      TotalCounts(ps, x, |ps|);
    }

    /** Decides which modules have slices and reserves the variables. */
    method Prepare(ghost rank: seq<nat>) returns (total: nat)
      requires Valid() && forall i :: 0 <= i < |modules| ==> !modules[i].sliceable.SLICEABLE?
      modifies modules
      ensures Prepared(Parts()) && total == First(Parts(), |modules|)
      ensures forall i :: 0 <= i < |modules| ==> Decided(old(Parts()), Parts(), i, rank) && Parts()[i].w == w
    {
      ghost var before := Parts();
      ComputeSliceability(rank);
      ghost var between := Parts();
      forall i | 0 <= i < |modules| ensures !modules[i].sliceable.NEEDS_SLICE_CHECK? {
        assert Decided(before, between, i, rank);
      }
      total := SetVariables();
      forall i | 0 <= i < |modules| ensures Decided(before, Parts(), i, rank) && Parts()[i].w == w {
        assert Decided(before, between, i, rank) && SameButVariables(between[i], Parts()[i]) && modules[i].Valid();
      }
    }

    lemma Outcome(x: seq<int>, before: seq<Part>, ps: seq<Part>)
      requires |before| == |ps| == |modules| && forall i :: 0 <= i < |ps| ==> SameModule(before[i], ps[i])
      requires Answers(ps, x) && Consistent(ps, x) && forall i :: 0 <= i < |ps| ==> ps[i].w == w
      requires forall i :: 0 <= i < |modules| ==> Final(ps, i, modules[i].State(), modules[i].isBad, x)
      ensures forall i, j :: 0 <= i < j < |modules| && !modules[i].isBad && !modules[j].isBad ==>
                modules[i].internals !! modules[j].internals
      ensures forall i :: 0 <= i < |modules| && !modules[i].isBad ==> KeptWell(before[i], Parts()[i])
      ensures forall i :: 0 <= i < |modules| ==> ps[i].start < |x| && (modules[i].isBad <==> x[ps[i].start] == 0)
      ensures forall i :: 0 <= i < |modules| && !modules[i].isBad ==> KeepsChosen(ps[i], Parts()[i], x)
      ensures |CoveredNodes()| <= TotalWeight(ps, x, |ps|)
    {
      forall i | 0 <= i < |modules|
        ensures ps[i].start < |x| && (modules[i].isBad <==> x[ps[i].start] == 0)
        ensures !modules[i].isBad ==> KeepsChosen(ps[i], modules[i].State(), x)
        ensures !modules[i].isBad <==> Kept(ps, x, i)
        ensures !modules[i].isBad ==> modules[i].internals == LeftAt(ps, x, i)
        ensures !modules[i].isBad ==> KeptWell(before[i], modules[i].State())
      {
        FinalIsKept(ps, i, modules[i].State(), modules[i].isBad, x);
      }
      forall i, j | 0 <= i < j < |modules| && !modules[i].isBad && !modules[j].isBad
        ensures modules[i].internals !! modules[j].internals
      {
        LeftDisjoint(ps, x, i, j);
      }
      forall n | n in CoveredNodes() ensures n in LeftNodes(ps, x, |ps|) {
        var i :| 0 <= i < |modules| && !modules[i].isBad && n in modules[i].internals;
        LeftNodesHas(ps, x, |ps|, i, n);
      }
      SubsetIsSmaller(CoveredNodes(), LeftNodes(ps, x, |ps|));
      WeightCoversLeft(ps, x, |ps|);
    }
  }

  ghost predicate Pending(m: IdModule, p: Part)
    reads m
  {
    m.Valid() && m.State() == p
  }

  /** What becomes of module `i`: it is bad when its variable is 0, and otherwise it is left with the
      chosen slices, whose cones are what they were. */
  ghost predicate Final(ps: seq<Part>, i: nat, q: Part, bad: bool, x: seq<int>)
    requires Answers(ps, x) && i < |ps|
  {
    LaidSized(ps, i);
    assert ps[i].Ready();
    (bad <==> x[ps[i].start] == 0) && ps[i].w == q.w && ps[i].sliceable == q.sliceable && (!bad ==> Left(ps[i], q, x))
  }

  /** `q` is what is left of `p`. */
  ghost predicate Left(p: Part, q: Part, x: seq<int>)
    requires p.Ready() && p.end < |x|
  {
    && q.w == p.w && q.outputs == LeftOutputs(p, x) && q.internals == LeftInternals(p, x)
    && q.internals == ConesOf(q.w, q.inputs, q.outputs)
    && (forall k :: 0 <= k < |q.outputs| ==> Cone(q.w, q.inputs, q.outputs[k]) == Cone(p.w, p.inputs, q.outputs[k]))
  }

  lemma UntouchedIsLeft(p: Part, x: seq<int>)
    requires p.Ready() && p.end < |x| && !Pruned(p, x)
    ensures Left(p, p, x)
  {
  }

  lemma PrunedIsLeft(p: Part, q: Part, x: seq<int>)
    requires p.Ready() && p.end < |x| && Pruned(p, x) && q.w == p.w
    requires q.outputs == Picked(p.outputs, GoodSlices(p, x, p.end - p.start))
    requires q.internals == ConesOf(q.w, q.inputs, q.outputs) == ConesOf(q.w, p.inputs, q.outputs)
    requires forall k :: 0 <= k < |q.outputs| ==> Cone(q.w, q.inputs, q.outputs[k]) == Cone(q.w, p.inputs, q.outputs[k])
    ensures Left(p, q, x)
  {
  }

  ghost predicate VariablesSet(ps: seq<Part>, qs: seq<Part>, i: nat) {
    && i <= |ps| == |qs|
    && (forall j :: i <= j < |qs| ==> qs[j] == ps[j])
    && (forall j :: 0 <= j < i ==> VariablesSetAt(ps, qs, j))
  }

  ghost predicate VariablesSetAt(ps: seq<Part>, qs: seq<Part>, j: nat)
    requires j < |ps| == |qs|
  {
    SameButVariables(ps[j], qs[j]) && qs[j].Ready() && LaidAt(qs, j)
  }

  lemma VariablesStep(ps: seq<Part>, qs: seq<Part>, rs: seq<Part>, i: nat)
    requires i < |ps| && VariablesSet(ps, qs, i) && |rs| == |qs|
    requires forall j :: 0 <= j < |qs| && j != i ==> rs[j] == qs[j]
    requires SameButVariables(ps[i], rs[i]) && rs[i].Ready() && rs[i].start == First(qs, i) <= rs[i].end
    ensures VariablesSet(ps, rs, i + 1)
  {
    assert VariablesSetAt(ps, rs, i);
    forall j | 0 <= j < i ensures VariablesSetAt(ps, rs, j) {
      assert VariablesSetAt(ps, qs, j);
    }
  }

  lemma AllVariablesSet(ps: seq<Part>, qs: seq<Part>)
    requires VariablesSet(ps, qs, |ps|)
    ensures Laid(qs) && AllReady(qs) && forall i :: 0 <= i < |qs| ==> SameButVariables(ps[i], qs[i])
  {
    forall i | 0 <= i < |qs| ensures LaidAt(qs, i) && qs[i].Ready() && SameButVariables(ps[i], qs[i]) {
      assert VariablesSetAt(ps, qs, i);
    }
  }

  predicate SameButVariables(p: Part, q: Part) {
    q == p.(start := q.start, end := q.end)
  }

  /** Module `i` shares one of the nodes below `n`. */
  ghost predicate OverlappingBelow(ps: seq<Part>, i: nat, n: nat) {
    i < |ps| && exists m: nat :: m < n && SharedNode(ps, i, m)
  }

  lemma BelowStep(ps: seq<Part>, i: nat, n: nat)
    ensures OverlappingBelow(ps, i, n + 1) <==> OverlappingBelow(ps, i, n) || (i < |ps| && SharedNode(ps, i, n))
  {
  }

  lemma SharedByTwo(ps: seq<Part>, owners: set<nat>, n: nat)
    requires forall i: nat :: i in owners <==> i < |ps| && n in ps[i].internals
    ensures forall i: nat :: i < |ps| ==> (SharedNode(ps, i, n) <==> i in owners && |owners| > 1)
  {
    forall i: nat | i < |ps| ensures SharedNode(ps, i, n) <==> i in owners && |owners| > 1 {
      if i in owners {
        var others := owners - {i};
        assert |owners| == |others| + 1;
        assert SharedNode(ps, i, n) <==> exists j :: j in others;
        assert others != {} <==> exists j :: j in others;
      }
    }
  }

  lemma AskedAll(ps: seq<Part>, asked: set<nat>, asked': set<nat>, owners: set<nat>, n: nat)
    requires forall i: nat :: i in owners <==> i < |ps| && n in ps[i].internals
    requires forall i :: i in asked <==> OverlappingBelow(ps, i, n)
    requires asked' == if |owners| > 1 then asked + owners else asked
    ensures forall i :: i in asked' <==> OverlappingBelow(ps, i, n + 1)
  {
    SharedByTwo(ps, owners, n);
    forall i ensures i in asked' <==> OverlappingBelow(ps, i, n + 1) {
      BelowStep(ps, i, n);
    }
  }

  lemma AskedNext(ps: seq<Part>, qs: seq<Part>, rs: seq<Part>, asked: set<nat>, sliceables: set<nat>, i: nat,
      rank: seq<nat>)
    requires AskedSoFar(ps, qs, asked, sliceables, rank) && i < |ps| == |rs|
    requires forall j :: 0 <= j < |ps| && j != i ==> rs[j] == qs[j]
    requires Asked(qs[i], rs[i], rank)
    ensures AskedSoFar(ps, rs, asked + {i}, if rs[i].sliceable.SLICEABLE? then sliceables + {i} else sliceables, rank)
  {
    assert AskedAt(ps, qs, asked, i, rank);
    forall j | 0 <= j < |ps| ensures AskedAt(ps, rs, asked + {i}, j, rank) {
      assert AskedAt(ps, qs, asked, j, rank);
    }
  }

  /** The first `i` modules are unsliceable unless they are listed; the others are as they were. */
  ghost predicate Fixed(qs: seq<Part>, rs: seq<Part>, sliceables: set<nat>, i: nat) {
    && i <= |qs| == |rs|
    && (forall j :: i <= j < |qs| ==> rs[j] == qs[j])
    && (forall j :: 0 <= j < i ==> rs[j] == if j in sliceables then qs[j] else qs[j].(sliceable := UNSLICEABLE))
  }

  ghost predicate AskedSoFar(ps: seq<Part>, qs: seq<Part>, asked: set<nat>, sliceables: set<nat>, rank: seq<nat>) {
    && |ps| == |qs|
    && (forall i :: i in asked ==> i < |ps|)
    && (forall i :: i in sliceables <==> i in asked && i < |qs| && qs[i].sliceable.SLICEABLE?)
    && (forall i :: 0 <= i < |ps| ==> AskedAt(ps, qs, asked, i, rank))
  }

  ghost predicate AskedAt(ps: seq<Part>, qs: seq<Part>, asked: set<nat>, i: nat, rank: seq<nat>)
    requires i < |ps| == |qs|
  {
    if i in asked then Asked(ps[i], qs[i], rank) else ps[i] == qs[i]
  }

  ghost predicate Decided(ps: seq<Part>, qs: seq<Part>, i: nat, rank: seq<nat>)
    requires i < |ps| == |qs|
  {
    && SameModule(ps[i], qs[i]) && !qs[i].sliceable.NEEDS_SLICE_CHECK?
    && (RankedBehind(ps[i].w, ps[i].inputs, rank) ==>
          (qs[i].sliceable.SLICEABLE? <==>
             ps[i].sliceable.NEEDS_SLICE_CHECK? && Overlapping(ps, i) && |ps[i].outputs| > 1 && ps[i].SameSupports()))
  }

  /** The constraints hold of exactly the vectors that are wanted. */
  ghost predicate Encodes(cs: seq<Range>, ps: seq<Part>, target: int) {
    forall x :: Answers(ps, x) ==> (AllHold(cs, x) <==> Wanted(ps, x, target))
  }

  /** What is asked of a solution. */
  ghost predicate Wanted(ps: seq<Part>, x: seq<int>, target: int)
    requires Answers(ps, x)
  {
    Consistent(ps, x) && (target > 0 ==> TotalWeight(ps, x, |ps|) >= target)
  }

  /** Wanted are the vectors by which no node is taken twice, slices are chosen with their module only and
      modules with two slices, and as many nodes are taken as asked for. */
  lemma WantedMeans(ps: seq<Part>, x: seq<int>, target: int)
    requires Answers(ps, x)
    ensures Wanted(ps, x, target) <==>
              && (forall i, j, n: nat :: 0 <= i < j < |ps| ==> !(Takes(ps[i], x, n) && Takes(ps[j], x, n)))
              && (forall i :: 0 <= i < |ps| && ps[i].sliceable.SLICEABLE? ==> ChosenWell(ps[i], x))
              && (target > 0 ==> |TakenPairs(ps, x, |ps|)| >= target)
  {
    TotalCounts(ps, x, |ps|);
    forall i | 0 <= i < |ps|
      ensures SliceRulesAt(ps, x, i) <==> (ps[i].sliceable.SLICEABLE? ==> ChosenWell(ps[i], x))
    {
      LaidSized(ps, i);
      assert ps[i].Ready();
      SliceRulesMean(ps[i], x);
    }
    assert Consistent(ps, x) <==>
             (forall n: nat :: NoClash(ps, x, n)) && forall i :: 0 <= i < |ps| ==> SliceRulesAt(ps, x, i);
    if forall n: nat :: NoClash(ps, x, n) {
      forall i, j, n: nat | 0 <= i < j < |ps| ensures !(Takes(ps[i], x, n) && Takes(ps[j], x, n)) {
        assert NoClash(ps, x, n);
      }
    }
  }

  /** With a slice its module, and with the module two slices. */
  ghost predicate ChosenWell(p: Part, x: seq<int>) {
    && p.start + |p.outputs| < |x|
    && (forall v :: p.start < v <= p.start + |p.outputs| && x[v] == 1 ==> x[p.start] == 1)
    && (x[p.start] == 1 ==> exists u, v :: p.start < u < v <= p.start + |p.outputs| && x[u] == 1 && x[v] == 1)
  }

  lemma NoClashAnywhere(ps: seq<Part>, x: seq<int>, size: nat)
    requires AllReady(ps) && forall i :: 0 <= i < |ps| ==> |ps[i].w| == size
    ensures NoClashBelow(ps, x, size) <==> forall n: nat :: NoClash(ps, x, n)
  {
    forall n: nat | n >= size ensures NoClash(ps, x, n) {
      forall i | 0 <= i < |ps| ensures n !in ps[i].internals { assert ps[i].Ready(); }
    }
  }

  lemma NotShared(ps: seq<Part>, n: nat)
    requires forall i: nat :: i < |ps| ==> !SharedNode(ps, i, n)
    ensures forall i, j :: 0 <= i < j < |ps| ==> !(n in ps[i].internals && n in ps[j].internals)
  {
    forall i, j | 0 <= i < j < |ps| ensures !(n in ps[i].internals && n in ps[j].internals) {
      assert !SharedNode(ps, i, n);
    }
  }

  /** `more` adds to `coef` the weights of the variables of `p` below `v`. */
  ghost predicate AddedWeights(p: Part, coef: map<nat, int>, more: map<nat, int>, v: nat)
    requires p.Sized() && v <= p.end + 1
  {
    && (forall u: nat :: u in more <==> u in coef || p.start <= u < v)
    && (forall u :: u in coef && u < p.start ==> more[u] == coef[u])
    && (forall s: nat :: p.start + s < v ==> WeightCoef(p, s, more))
  }

  lemma AddedWeightsStep(p: Part, coef: map<nat, int>, more: map<nat, int>, v: nat)
    requires p.Sized() && p.start <= v <= p.end && AddedWeights(p, coef, more, v)
    ensures AddedWeights(p, coef, more[v := p.Weight(v - p.start)], v + 1)
  {
    var after := more[v := p.Weight(v - p.start)];
    forall s: nat | p.start + s < v + 1 ensures WeightCoef(p, s, after) {
      if p.start + s < v { assert WeightCoef(p, s, more); }
    }
  }

  lemma WeightsAdded(ps: seq<Part>, i: nat, coef: map<nat, int>, more: map<nat, int>)
    requires Laid(ps) && AllReady(ps) && i < |ps| && WeightCoefs(ps, i, coef)
    requires ps[i].Sized() && AddedWeights(ps[i], coef, more, ps[i].end + 1)
    ensures WeightCoefs(ps, i + 1, more)
  {
    LaidSized(ps, i);
    forall j | 0 <= j < i ensures WeightCoefsOf(ps, j, more) {
      assert WeightCoefsOf(ps, j, coef);
      LaidSized(ps, j);
      LaidApart(ps, j, i);
      forall s: nat | ps[j].start + s <= ps[j].end ensures WeightCoef(ps[j], s, more) {
        assert WeightCoef(ps[j], s, coef);
      }
    }
  }

  /** A kept module has some of its former outputs and exactly the nodes behind them. */
  ghost predicate KeptWell(p: Part, q: Part) {
    && q.w == p.w && q.internals == ConesOf(q.w, q.inputs, q.outputs)
    && (forall k :: 0 <= k < |q.outputs| ==>
          q.outputs[k] in p.outputs && Cone(q.w, q.inputs, q.outputs[k]) == Cone(p.w, p.inputs, q.outputs[k]))
    && if q.sliceable.SLICEABLE? then |q.outputs| >= 2 else q.outputs == p.outputs && q.internals == p.internals
  }

  lemma FinalIsKept(ps: seq<Part>, i: nat, q: Part, bad: bool, x: seq<int>)
    requires Answers(ps, x) && Consistent(ps, x) && i < |ps| && Final(ps, i, q, bad, x)
    ensures !bad <==> Kept(ps, x, i)
    ensures !bad ==> q.internals == LeftAt(ps, x, i)
    ensures !bad ==> forall p :: SameModule(p, ps[i]) ==> KeptWell(p, q)
    ensures ps[i].start < |x| && (bad <==> x[ps[i].start] == 0) && (!bad ==> KeepsChosen(ps[i], q, x))
  {
    LaidSized(ps, i);
    assert ps[i].Ready() && SliceRulesAt(ps, x, i);
    if !bad {
      LeftIsKeptWell(ps[i], q, x);
      LeftIsChosen(ps[i], q, x);
    }
  }

  /** What a kept module ends up with, read off the solution: of a sliced module exactly the outputs whose
      variables are 1, two at least, in order, and exactly the nodes behind them; of another everything. */
  ghost predicate KeepsChosen(p: Part, q: Part, x: seq<int>) {
    if p.sliceable.SLICEABLE? then
      && (exists idx: seq<nat> :: |idx| >= 2 && Selects(p.outputs, idx, q.outputs) && ChosenAt(p, x, idx))
      && (forall n: nat :: n in q.internals <==> BehindChosen(p, x, n))
    else q.outputs == p.outputs && q.internals == p.internals
  }

  ghost predicate ChosenAt(p: Part, x: seq<int>, idx: seq<nat>) {
    forall k: nat :: k < |p.outputs| ==> p.start + k + 1 < |x| && (k in idx <==> x[p.start + k + 1] == 1)
  }

  lemma LeftIsChosen(p: Part, q: Part, x: seq<int>)
    requires p.Ready() && p.end < |x| && ZeroOne(x) && SliceRules(p, x) && x[p.start] == 1 && Left(p, q, x)
    ensures KeepsChosen(p, q, x)
  {
    if p.sliceable.SLICEABLE? {
      var idx := SlicedOutputs(p, x);
      assert Selects(p.outputs, idx, q.outputs) && ChosenAt(p, x, idx);
      LeftIsBehindChosen(p, q, x);
    }
  }

  lemma LeftIsBehindChosen(p: Part, q: Part, x: seq<int>)
    requires p.Ready() && p.sliceable.SLICEABLE? && p.end < |x| && ZeroOne(x) && SliceRules(p, x) && x[p.start] == 1
    requires q.internals == LeftInternals(p, x)
    ensures forall n: nat :: n in q.internals <==> BehindChosen(p, x, n)
  {
    forall n: nat ensures n in q.internals <==> BehindChosen(p, x, n) {
      SlicedInternals(p, x, n);
    }
  }

  /** A module is sliced exactly if that was still to be decided, it shares a node with another module, and
      it has several outputs, all with equally many inputs behind them. */
  ghost predicate IsSlicedIff(ps: seq<Part>, i: nat, sliceable: Sliceable, rank: seq<nat>)
    requires i < |ps|
  {
    var p := ps[i];
    RankedBehind(p.w, p.inputs, rank) ==>
      (sliceable.SLICEABLE? <==>
         && p.sliceable.NEEDS_SLICE_CHECK? && |p.outputs| > 1
         && (exists j, n: nat :: 0 <= j < |ps| && j != i && n in p.internals && n in ps[j].internals)
         && (forall a, b :: 0 <= a < |p.outputs| && 0 <= b < |p.outputs| ==>
               |Support(p.w, p.inputs, p.outputs[a])| == |Support(p.w, p.inputs, p.outputs[b])|))
  }

  lemma DecidedMeans(ps: seq<Part>, qs: seq<Part>, rank: seq<nat>)
    requires |ps| == |qs| && forall i :: 0 <= i < |ps| ==> Decided(ps, qs, i, rank)
    ensures forall i :: 0 <= i < |ps| ==> IsSlicedIff(ps, i, qs[i].sliceable, rank)
  {
    forall i | 0 <= i < |ps| ensures IsSlicedIff(ps, i, qs[i].sliceable, rank) {
      assert Decided(ps, qs, i, rank);
      if j, n: nat :| 0 <= j < |ps| && j != i && n in ps[i].internals && n in ps[j].internals {
        assert SharedNode(ps, i, n);
      }
    }
  }

  lemma LeftIsKeptWell(p: Part, q: Part, x: seq<int>)
    requires p.Ready() && p.end < |x| && ZeroOne(x) && SliceRules(p, x) && x[p.start] == 1
    requires Left(p, q, x) && p.sliceable == q.sliceable
    ensures KeptWell(p, q)
  {
    KeepsTwoSlices(p, x);
    if Pruned(p, x) { PickedAreOld(p.outputs, GoodSlices(p, x, p.end - p.start)); }
  }

  lemma PickedAreOld(outs: seq<nat>, good: seq<nat>)
    requires forall i :: 0 <= i < |good| ==> 1 <= good[i] <= |outs|
    ensures forall k :: 0 <= k < |good| ==> Picked(outs, good)[k] in outs
  {
  }

  lemma {:induction false} LeftNodesHas(ps: seq<Part>, x: seq<int>, m: nat, i: nat, n: nat)
    requires Answers(ps, x) && i < m <= |ps| && Kept(ps, x, i) && n in LeftAt(ps, x, i)
    ensures n in LeftNodes(ps, x, m)
  {
    if i < m - 1 { LeftNodesHas(ps, x, m - 1, i, n); }
  }
}
