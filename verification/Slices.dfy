/** Modules that can be cut into slices, one for each output bit. */
module Slices {
  import opened Cones
  import opened Sequences

  datatype Sliceable = UNSLICEABLE | SLICEABLE | NEEDS_SLICE_CHECK

  // ---- inputs reached ----

  /** What is recorded about a node are inputs at the border of its cone. */
  ghost predicate Sound(w: Wires, cut: seq<nat>, m: map<nat, set<nat>>) {
    forall k :: k in m ==> k < |w| && m[k] <= Support(w, cut, k)
  }

  ghost predicate Exact(w: Wires, cut: seq<nat>, m: map<nat, set<nat>>, k: nat)
    requires k in m
  {
    m[k] == Support(w, cut, k)
  }

  /** The wiring has no loops behind the inputs `cut`. */
  ghost predicate RankedBehind(w: Wires, cut: seq<nat>, rank: seq<nat>) {
    && Wired(w) && |rank| == |w|
    && forall x, i :: 0 <= x < |w| && x !in cut && 0 <= i < |w[x]| ==> rank[w[x][i]] < rank[x]
  }

  /** All entries up to the rank of `n` are exact. */
  ghost predicate ExactUpTo(w: Wires, cut: seq<nat>, m: map<nat, set<nat>>, rank: seq<nat>, n: nat) {
    && RankedBehind(w, cut, rank) && n < |w|
    && forall k :: k in m && k < |w| && rank[k] <= rank[n] ==> Exact(w, cut, m, k)
  }

  /** `r` extends `m`; its new entries other than `n` know all they read, and the new inputs among them
      are recorded for `n`. */
  ghost predicate Walked(w: Wires, cut: seq<nat>, m: map<nat, set<nat>>, r: map<nat, set<nat>>, n: nat) {
    && m.Keys <= r.Keys && n in r
    && (forall k :: k in m ==> r[k] == m[k])
    && (forall k :: k in r && k !in m && k != n && k !in cut ==> Covered(w, [], k, r.Keys))
    && (forall k :: k in r && k !in m && k in cut ==> k in r[n])
  }

  lemma SupportThrough(w: Wires, cut: seq<nat>, o: nat, y: nat)
    requires o < |w| && o !in cut && y in w[o]
    ensures Support(w, cut, y) <= Support(w, cut, o)
  {
    ConeThrough(w, cut, o, y);
    ConeSelf(w, cut, o);
    forall i | i in Support(w, cut, y) ensures i in Support(w, cut, o) {
      if i == y {
        assert Touches(w, cut, o, i);
      } else {
        var x :| x in Cone(w, cut, y) && i in w[x];
        assert x in Cone(w, cut, o);
      }
    }
  }

  lemma SupportSplit(w: Wires, cut: seq<nat>, o: nat, i: nat)
    requires o < |w| && o !in cut && i in Support(w, cut, o)
    ensures exists j :: 0 <= j < |w[o]| && i in Support(w, cut, w[o][j])
  {
    var x :| x in Cone(w, cut, o) && i in w[x];
    var p :| IsPath(w, cut, p) && p[0] == o && p[|p| - 1] == x;
    if |p| == 1 {
      var j :| 0 <= j < |w[o]| && w[o][j] == i;
    } else {
      var q := p[1..];
      assert IsPath(w, cut, q) by {
        assert forall k :: 0 <= k < |q| ==> q[k] == p[k + 1];
        forall k | 0 <= k < |q| - 1 ensures q[k + 1] in w[q[k]] { assert p[k + 1 + 1] in w[p[k + 1]]; }
      }
      assert p[0 + 1] in w[p[0]];
      var j :| 0 <= j < |w[o]| && w[o][j] == q[0];
      assert Touches(w, cut, q[0], i);
    }
  }

  /** `r` is the record after the first `i` inputs of the node `n`, which `m` does not know yet. */
  ghost predicate Reading(w: Wires, cut: seq<nat>, m: map<nat, set<nat>>, r: map<nat, set<nat>>, n: nat, i: nat,
                          rank: seq<nat>)
    requires n < |w| && i <= |w[n]|
  {
    && Wired(w) && n !in m && n !in cut && Sound(w, cut, r) && Walked(w, cut, m, r, n)
    && (forall j :: 0 <= j < i ==> w[n][j] in r && r[w[n][j]] <= r[n])
    && (ExactUpTo(w, cut, m, rank, n) ==> forall k :: k in r && k !in m && k != n ==> Exact(w, cut, r, k))
  }

  /** What a call for the node `n` promises. */
  ghost predicate Recorded(w: Wires, cut: seq<nat>, m: map<nat, set<nat>>, r: map<nat, set<nat>>, n: nat,
                           rank: seq<nat>) {
    && Sound(w, cut, r) && Walked(w, cut, m, r, n)
    && (n !in cut && n !in m ==> Covered(w, [], n, r.Keys))
    && (ExactUpTo(w, cut, m, rank, n) ==> forall k :: k in r && k !in m ==> Exact(w, cut, r, k))
  }

  lemma ReadingStep(w: Wires, cut: seq<nat>, m: map<nat, set<nat>>, r: map<nat, set<nat>>, s: map<nat, set<nat>>,
      n: nat, i: nat, rank: seq<nat>)
    requires n < |w| && i < |w[n]| && Reading(w, cut, m, r, n, i, rank) && Recorded(w, cut, r, s, w[n][i], rank)
    ensures n in s && w[n][i] in s
    ensures Reading(w, cut, m, s[n := s[n] + s[w[n][i]]], n, i + 1, rank)
  {
    var c := w[n][i];
    var t := s[n := s[n] + s[c]];
    SupportThrough(w, cut, n, c);
    forall k | k in t && k !in m && k != n && k !in cut ensures Covered(w, [], k, t.Keys) {
      if k in r { assert Covered(w, [], k, r.Keys); } else { assert Covered(w, [], k, s.Keys); }
    }
    if ExactUpTo(w, cut, m, rank, n) {
      assert rank[c] < rank[n];
      assert ExactUpTo(w, cut, r, rank, c) by {
        forall k | k in r && k < |w| && rank[k] <= rank[c] ensures Exact(w, cut, r, k) {
          if k in m { assert Exact(w, cut, m, k); }
        }
      }
      forall k | k in t && k !in m && k != n ensures Exact(w, cut, t, k) {
        if k in r { assert Exact(w, cut, r, k); } else { assert Exact(w, cut, s, k); }
      }
    }
  }

  lemma ReadingDone(w: Wires, cut: seq<nat>, m: map<nat, set<nat>>, r: map<nat, set<nat>>, n: nat, rank: seq<nat>)
    requires n < |w| && Reading(w, cut, m, r, n, |w[n]|, rank)
    ensures Recorded(w, cut, m, r, n, rank)
  {
    if ExactUpTo(w, cut, m, rank, n) {
      forall i | i in Support(w, cut, n) ensures i in r[n] {
        SupportSplit(w, cut, n, i);
        var j :| 0 <= j < |w[n]| && i in Support(w, cut, w[n][j]);
        var c := w[n][j];
        assert rank[c] < rank[n];
        if c in m { assert Exact(w, cut, m, c); } else { assert Exact(w, cut, r, c); }
      }
    }
  }

  lemma InputRecorded(w: Wires, cut: seq<nat>, m: map<nat, set<nat>>, n: nat, rank: seq<nat>)
    requires n < |w| && n in cut && n !in m && Sound(w, cut, m)
    ensures Recorded(w, cut, m, m[n := {n}], n, rank)
  {
    assert Cone(w, cut, n) == {} by {
      forall x ensures x !in Cone(w, cut, n) {}
    }
  }

  /** `m` knows all the nodes it knows read, and the inputs among them are in `good`. */
  ghost predicate Gathered(w: Wires, cut: seq<nat>, m: map<nat, set<nat>>, good: set<nat>) {
    && Sound(w, cut, m)
    && (forall k :: k in m && k !in cut ==> Covered(w, [], k, m.Keys))
    && (forall k :: k in m && k in cut ==> k in good)
  }

  /** The inputs that some cone of `outs` touches. */
  ghost function SupportsOf(w: Wires, cut: seq<nat>, outs: seq<nat>): (s: set<nat>)
    ensures forall i: nat {:trigger i in s} :: i in s <==> InSomeSupport(w, cut, outs, i)
  {
    set i: nat | i in cut && InSomeSupport(w, cut, outs, i)
  }

  ghost predicate InSomeSupport(w: Wires, cut: seq<nat>, outs: seq<nat>, i: nat) {
    exists k :: 0 <= k < |outs| && i in Support(w, cut, outs[k])
  }

  lemma GatheredStep(w: Wires, cut: seq<nat>, m: map<nat, set<nat>>, r: map<nat, set<nat>>, o: nat, good: set<nat>)
    requires o !in cut && Gathered(w, cut, m, good) && Recorded(w, cut, m, r, o, [])
    ensures Gathered(w, cut, r, good + r[o])
  {
    forall k | k in r && k !in cut ensures Covered(w, [], k, r.Keys) {
      if k in m { assert Covered(w, [], k, m.Keys); }
    }
  }

  /** Whatever the loops in the wiring, the inputs recorded for the outputs are all that are touched. */
  lemma GatheredAll(w: Wires, cut: seq<nat>, m: map<nat, set<nat>>, good: set<nat>, o: nat)
    requires Gathered(w, cut, m, good) && o in m && o !in cut
    ensures Support(w, cut, o) <= good
  {
    var s := set k | k in m && k !in cut;
    forall x | x in s ensures Covered(w, cut, x, s) {
      assert Covered(w, [], x, m.Keys);
    }
    ConeLeast(w, cut, o, s);
    forall i | i in Support(w, cut, o) ensures i in good {
      var x :| x in Cone(w, cut, o) && i in w[x];
      assert Covered(w, [], x, m.Keys);
      var j :| 0 <= j < |w[x]| && w[x][j] == i;
    }
  }

  // ---- slice indices ----

  /** `n` lies in the cones of two different outputs. */
  ghost predicate Shared(w: Wires, cut: seq<nat>, outs: seq<nat>, n: nat) {
    exists i, j :: 0 <= i < j < |outs| && n in Cone(w, cut, outs[i]) && n in Cone(w, cut, outs[j])
  }

  ghost predicate OnlyIn(w: Wires, cut: seq<nat>, outs: seq<nat>, n: nat, k: nat) {
    && k < |outs| && n in Cone(w, cut, outs[k])
    && forall j :: 0 <= j < |outs| && j != k ==> n !in Cone(w, cut, outs[j])
  }

  /** Every node behind the outputs has an index: 0 when several slices share it, and otherwise the
      number, from 1 up, of the one slice it lies in. */
  ghost predicate IndexOk(w: Wires, cut: seq<nat>, outs: seq<nat>, index: map<nat, nat>) {
    && index.Keys == ConesOf(w, cut, outs)
    && forall n {:trigger NodeIndexOk(w, cut, outs, index, n)} :: n in index ==> NodeIndexOk(w, cut, outs, index, n)
  }

  ghost predicate NodeIndexOk(w: Wires, cut: seq<nat>, outs: seq<nat>, index: map<nat, nat>, n: nat)
    requires n in index
  {
    if index[n] == 0 then Shared(w, cut, outs, n) else OnlyIn(w, cut, outs, n, index[n] - 1)
  }

  lemma IndicesInRange(w: Wires, cut: seq<nat>, outs: seq<nat>, index: map<nat, nat>)
    requires IndexOk(w, cut, outs, index)
    ensures forall n :: n in index ==> index[n] <= |outs|
  {
    forall n | n in index ensures index[n] <= |outs| {
      assert NodeIndexOk(w, cut, outs, index, n);
    }
  }

  /** The index after the nodes `c` of slice `k` have been entered. */
  function Marked(index: map<nat, nat>, c: set<nat>, k: nat): (r: map<nat, nat>)
    ensures r.Keys == index.Keys + c
    ensures forall n :: n in r ==> r[n] == if n !in c then index[n] else if n in index then 0 else k
  {
    map n | n in index.Keys + c :: if n !in c then index[n] else if n in index then 0 else k
  }

  lemma ConesOfNext(w: Wires, cut: seq<nat>, outs: seq<nat>, o: nat)
    ensures ConesOf(w, cut, outs + [o]) == ConesOf(w, cut, outs) + Cone(w, cut, o)
  {
    var after := outs + [o];
    forall n ensures n in ConesOf(w, cut, after) <==> n in ConesOf(w, cut, outs) || n in Cone(w, cut, o) {
      if InSomeCone(w, cut, outs, n) {
        var k :| 0 <= k < |outs| && n in Cone(w, cut, outs[k]);
        assert n in Cone(w, cut, after[k]);
      }
      if n in Cone(w, cut, o) { assert n in Cone(w, cut, after[|outs|]); }
    }
  }

  /** A node outside the next cone keeps its index. */
  lemma IndexStays(w: Wires, cut: seq<nat>, outs: seq<nat>, o: nat, n: nat, k: nat)
    requires n !in Cone(w, cut, o)
    ensures Shared(w, cut, outs, n) ==> Shared(w, cut, outs + [o], n)
    ensures OnlyIn(w, cut, outs, n, k) ==> OnlyIn(w, cut, outs + [o], n, k)
  {
    var after := outs + [o];
    if Shared(w, cut, outs, n) {
      var i, j :| 0 <= i < j < |outs| && n in Cone(w, cut, outs[i]) && n in Cone(w, cut, outs[j]);
      assert n in Cone(w, cut, after[i]) && n in Cone(w, cut, after[j]);
    }
  }

  /** A node of the next cone is shared if it was in an earlier one, and its own otherwise. */
  lemma IndexEnters(w: Wires, cut: seq<nat>, outs: seq<nat>, o: nat, n: nat)
    requires n in Cone(w, cut, o)
    ensures if InSomeCone(w, cut, outs, n) then Shared(w, cut, outs + [o], n)
            else OnlyIn(w, cut, outs + [o], n, |outs|)
  {
    var after := outs + [o];
    assert n in Cone(w, cut, after[|outs|]);
    if InSomeCone(w, cut, outs, n) {
      var k :| 0 <= k < |outs| && n in Cone(w, cut, outs[k]);
      assert n in Cone(w, cut, after[k]);
    }
  }

  lemma MarkedNodeOk(w: Wires, cut: seq<nat>, outs: seq<nat>, o: nat, index: map<nat, nat>, r: map<nat, nat>, n: nat)
    requires n in index ==> NodeIndexOk(w, cut, outs, index, n)
    requires n in index <==> InSomeCone(w, cut, outs, n)
    requires n in r && (n in index || n in Cone(w, cut, o))
    requires r[n] == if n !in Cone(w, cut, o) then index[n] else if n in index then 0 else |outs| + 1
    ensures NodeIndexOk(w, cut, outs + [o], r, n)
  {
    if n in Cone(w, cut, o) {
      IndexEnters(w, cut, outs, o, n);
    } else {
      IndexStays(w, cut, outs, o, n, if index[n] == 0 then 0 else index[n] - 1);
    }
  }

  lemma MarkedIndexOk(w: Wires, cut: seq<nat>, outs: seq<nat>, o: nat, index: map<nat, nat>)
    requires IndexOk(w, cut, outs, index)
    ensures IndexOk(w, cut, outs + [o], Marked(index, Cone(w, cut, o), |outs| + 1))
    ensures forall n :: n in index ==> index[n] != |outs| + 1
  {
    var r := Marked(index, Cone(w, cut, o), |outs| + 1);
    ConesOfNext(w, cut, outs, o);
    forall n | n in r ensures NodeIndexOk(w, cut, outs + [o], r, n) {
      MarkedNodeOk(w, cut, outs, o, index, r, n);
    }
    forall n | n in index ensures index[n] != |outs| + 1 { assert NodeIndexOk(w, cut, outs, index, n); }
  }

  /** The nodes of index `k`. */
  function Members(index: map<nat, nat>, k: nat): (s: set<nat>)
    ensures forall n: nat :: n in s <==> n in index && index[n] == k
  {
    set n | n in index && index[n] == k
  }

  ghost function SumSizes(index: map<nat, nat>, m: nat): nat {
    |Members(index, m)| + if m == 0 then 0 else SumSizes(index, m - 1)
  }

  function MembersUpTo(index: map<nat, nat>, m: nat): (s: set<nat>) {
    set n | n in index && index[n] <= m
  }

  /** Slice sizes count every node exactly once. */
  lemma {:induction false} SizesSumUp(index: map<nat, nat>, m: nat)
    ensures SumSizes(index, m) == |MembersUpTo(index, m)|
  {
    if m == 0 {
      assert MembersUpTo(index, 0) == Members(index, 0);
    } else {
      SizesSumUp(index, m - 1);
      assert MembersUpTo(index, m) == MembersUpTo(index, m - 1) + Members(index, m);
      assert MembersUpTo(index, m - 1) !! Members(index, m);
    }
  }

  lemma AllSizesSumUp(index: map<nat, nat>, m: nat)
    requires forall n :: n in index ==> index[n] <= m
    ensures SumSizes(index, m) == |index.Keys|
  {
    SizesSumUp(index, m);
    assert MembersUpTo(index, m) == index.Keys;
  }

  lemma MarkedStep(index: map<nat, nat>, done: set<nat>, g: nat, k: nat)
    requires g !in done
    ensures var r := Marked(index, done, k);
            Marked(index, done + {g}, k) == r[g := if g in r then 0 else k]
  {
  }

  /** `sizes` counts the nodes that are no longer to do. */
  predicate Counted(index: map<nat, nat>, todo: set<nat>, sizes: seq<nat>) {
    forall k :: 0 <= k < |sizes| ==> sizes[k] == |Members(index, k) - todo|
  }

  lemma CountedStep(index: map<nat, nat>, todo: set<nat>, g: nat, sizes: seq<nat>)
    requires g in todo && g in index && index[g] < |sizes| && Counted(index, todo, sizes)
    ensures Counted(index, todo - {g}, sizes[index[g] := sizes[index[g]] + 1])
  {
    forall k | 0 <= k < |sizes|
      ensures sizes[index[g] := sizes[index[g]] + 1][k] == |Members(index, k) - (todo - {g})|
    {
      if index[g] == k {
        assert Members(index, k) - (todo - {g}) == (Members(index, k) - todo) + {g};
      } else {
        assert Members(index, k) - (todo - {g}) == Members(index, k) - todo;
      }
    }
  }

  lemma CountedEnds(index: map<nat, nat>, sizes: seq<nat>)
    ensures (forall k :: 0 <= k < |sizes| ==> sizes[k] == 0) ==> Counted(index, index.Keys, sizes)
    ensures Counted(index, {}, sizes) ==> forall k :: 0 <= k < |sizes| ==> sizes[k] == |Members(index, k)|
  {
    forall k: nat ensures Members(index, k) - index.Keys == {} && Members(index, k) - {} == Members(index, k) {}
  }

  // ---- pruning ----

  /** The outputs of the slices `good`, which are numbered from 1 up. */
  function Picked(outs: seq<nat>, good: seq<nat>): (r: seq<nat>)
    requires forall i :: 0 <= i < |good| ==> 1 <= good[i] <= |outs|
    ensures |r| == |good| && forall i :: 0 <= i < |good| ==> r[i] == outs[good[i] - 1]
  {
    seq(|good|, i requires 0 <= i < |good| => outs[good[i] - 1])
  }

  /** The members of `s` that are in `keep`, in order. */
  function Filtered(s: seq<nat>, keep: set<nat>): (r: seq<nat>)
    ensures forall x :: x in r <==> x in s && x in keep
  {
    if s == [] then [] else Filtered(s[..|s| - 1], keep) + if s[|s| - 1] in keep then [s[|s| - 1]] else []
  }

  /** They are selected by position: nothing is repeated that was not, and the order stays. */
  lemma {:induction false} FilterSelects(s: seq<nat>, keep: set<nat>) returns (idx: seq<nat>)
    ensures Selects(s, idx, Filtered(s, keep))
    ensures forall k: nat :: k < |s| ==> (k in idx <==> s[k] in keep)
    decreases |s|
  {
    idx := [];
    if s != [] {
      var init, last := s[..|s| - 1], s[|s| - 1];
      assert s == init + [last];
      idx := FilterSelects(init, keep);
      SelectsMore(init, idx, Filtered(init, keep), last);
      if last in keep { idx := idx + [|init|]; }
    }
  }

  /** Dropping the inputs that `outs` do not need changes neither a cone nor the inputs it touches. */
  lemma PruningKeepsCones(w: Wires, cut: seq<nat>, outs: seq<nat>, kept: seq<nat>)
    requires Wired(w) && forall k :: 0 <= k < |outs| ==> outs[k] < |w| && outs[k] !in cut
    requires forall i :: i in kept <==> i in cut && i in SupportsOf(w, cut, outs)
    ensures forall k :: 0 <= k < |outs| ==> Cone(w, kept, outs[k]) == Cone(w, cut, outs[k])
    ensures forall k :: 0 <= k < |outs| ==> Support(w, kept, outs[k]) == Support(w, cut, outs[k])
    ensures ConesOf(w, kept, outs) == ConesOf(w, cut, outs)
  {
    forall k | 0 <= k < |outs|
      ensures Cone(w, kept, outs[k]) == Cone(w, cut, outs[k]) && Support(w, kept, outs[k]) == Support(w, cut, outs[k])
    {
      forall i | i in Support(w, cut, outs[k]) ensures i in kept {
        assert InSomeSupport(w, cut, outs, i);
      }
      DroppedInputsKeepCone(w, cut, kept, outs[k]);
      SameConeSameSupport(w, cut, kept, outs[k]);
    }
    SameConesSameUnion(w, cut, kept, outs);
  }

  /** Kept are, in order, the inputs that some node behind the outputs reads. */
  lemma NeededInputs(w: Wires, cut: seq<nat>, outs: seq<nat>)
    requires forall k :: 0 <= k < |outs| ==> outs[k] !in cut
    ensures exists idx ::
              && Selects(cut, idx, Filtered(cut, SupportsOf(w, cut, outs)))
              && forall k: nat :: k < |cut| ==>
                   (k in idx <==> exists j, x :: 0 <= j < |outs| && x in Cone(w, cut, outs[j]) && cut[k] in w[x])
  {
    var idx := FilterSelects(cut, SupportsOf(w, cut, outs));
    forall k: nat | k < |cut|
      ensures k in idx <==> exists j, x :: 0 <= j < |outs| && x in Cone(w, cut, outs[j]) && cut[k] in w[x]
    {
      if j, x :| 0 <= j < |outs| && x in Cone(w, cut, outs[j]) && cut[k] in w[x] {
        assert cut[k] in Support(w, cut, outs[j]);
        assert InSomeSupport(w, cut, outs, cut[k]);
      }
    }
  }

  lemma SameConeSameSupport(w: Wires, cut: seq<nat>, kept: seq<nat>, o: nat)
    requires Cone(w, kept, o) == Cone(w, cut, o) && o !in cut && o !in kept
    requires forall i :: i in kept ==> i in cut
    requires forall i :: i in Support(w, cut, o) ==> i in kept
    ensures Support(w, kept, o) == Support(w, cut, o)
  {
    forall i ensures Touches(w, kept, o, i) <==> Touches(w, cut, o, i) {}
  }

  lemma SameConesSameUnion(w: Wires, cut: seq<nat>, kept: seq<nat>, outs: seq<nat>)
    requires forall k :: 0 <= k < |outs| ==> Cone(w, kept, outs[k]) == Cone(w, cut, outs[k])
    ensures ConesOf(w, kept, outs) == ConesOf(w, cut, outs)
  {
    forall n ensures InSomeCone(w, kept, outs, n) <==> InSomeCone(w, cut, outs, n) {}
  }

  // ---- modules ----

  /** Sizes by slice index: position 0 counts the shared nodes. */
  predicate SizesOk(index: map<nat, nat>, sizes: seq<nat>) {
    forall k :: 0 <= k < |sizes| ==> sizes[k] == |Members(index, k)|
  }

  /** The state of a module, as a value. `start` and `end` delimit its solver variables. */
  datatype Part = Part(w: Wires, inputs: seq<nat>, outputs: seq<nat>, internals: set<nat>, sliceable: Sliceable,
                       numSlices: nat, index: map<nat, nat>, sizes: seq<nat>, start: nat, end: nat)
  {
    ghost predicate Valid() {
      && Wired(w)
      && (forall k :: 0 <= k < |outputs| ==> outputs[k] < |w| && outputs[k] !in inputs)
      && internals == ConesOf(w, inputs, outputs)
      && (sliceable.SLICEABLE? ==>
            && numSlices == |outputs| >= 2 && IndexOk(w, inputs, outputs, index)
            && |sizes| == numSlices + 1 && SizesOk(index, sizes))
      && (sliceable.NEEDS_SLICE_CHECK? ==> index == map[] && sizes == [])
    }

    /** Ready for the solver: sliceability decided and variables reserved. */
    ghost predicate Ready()
      ensures Ready() ==> Sized()
    {
      Valid() && !sliceable.NEEDS_SLICE_CHECK? && end == start + if sliceable.SLICEABLE? then numSlices else 0
    }

    predicate Sized() {
      start <= end && (sliceable.SLICEABLE? ==> |sizes| == end - start + 1)
    }

    /** The variable that stands for the node: that of its slice, or of the whole module if the node is
        shared by slices or the module has none. */
    function VarOf(n: nat): (v: nat)
      requires sliceable.SLICEABLE? ==> n in index
    {
      if sliceable.SLICEABLE? then start + index[n] else start
    }

    /** How many nodes variable `start + s` stands for. */
    function Weight(s: nat): nat
      requires sliceable.SLICEABLE? ==> s < |sizes|
    {
      if sliceable.SLICEABLE? then sizes[s] else |internals|
    }

    lemma VarInRange(n: nat)
      requires Ready() && n in internals
      ensures (sliceable.SLICEABLE? ==> n in index) && start <= VarOf(n) <= end
    {
      if sliceable.SLICEABLE? { assert NodeIndexOk(w, inputs, outputs, index, n); }
    }

    ghost predicate SameSupports() {
      forall i, j :: 0 <= i < |outputs| && 0 <= j < |outputs| ==>
        |Support(w, inputs, outputs[i])| == |Support(w, inputs, outputs[j])|
    }
  }

  /** In a sliced module a node has index `k` > 0 exactly when it lies behind output `k` alone, and index
      0 exactly when it lies behind several outputs. */
  lemma IndexMeans(p: Part, n: nat, k: nat)
    requires p.Valid() && p.sliceable.SLICEABLE? && n in p.internals && k < |p.outputs|
    ensures n in p.index
    ensures p.index[n] == k + 1 <==>
              n in Cone(p.w, p.inputs, p.outputs[k]) &&
              forall j :: 0 <= j < |p.outputs| && j != k ==> n !in Cone(p.w, p.inputs, p.outputs[j])
    ensures p.index[n] == 0 <==>
              exists i, j :: 0 <= i < j < |p.outputs| &&
                n in Cone(p.w, p.inputs, p.outputs[i]) && n in Cone(p.w, p.inputs, p.outputs[j])
  {
    assert NodeIndexOk(p.w, p.inputs, p.outputs, p.index, n);
  }

  ghost function SumOf(s: seq<nat>): nat {
    if s == [] then 0 else SumOf(s[..|s| - 1]) + s[|s| - 1]
  }

  /** The slice sizes add up to the number of internal nodes. */
  lemma SliceSizesAddUp(p: Part)
    requires p.Valid() && p.sliceable.SLICEABLE?
    ensures SumOf(p.sizes) == |p.internals|
  {
    forall n | n in p.index ensures p.index[n] <= p.numSlices {
      assert NodeIndexOk(p.w, p.inputs, p.outputs, p.index, n);
    }
    AllSizesSumUp(p.index, p.numSlices);
    SumOfSizes(p.index, p.sizes, p.numSlices);
    assert p.sizes[..p.numSlices + 1] == p.sizes;
  }

  lemma {:induction false} SumOfSizes(index: map<nat, nat>, sizes: seq<nat>, m: nat)
    requires m < |sizes| && SizesOk(index, sizes)
    ensures SumOf(sizes[..m + 1]) == SumSizes(index, m)
  {
    assert sizes[..m + 1][..m] == sizes[..m];
    if m == 0 {
      assert sizes[..0] == [];
    } else {
      SumOfSizes(index, sizes, m - 1);
    }
  }

  lemma ConeIsPart(w: Wires, cut: seq<nat>, outs: seq<nat>, k: nat)
    requires k < |outs|
    ensures Cone(w, cut, outs[k]) <= ConesOf(w, cut, outs)
  {
    forall n | n in Cone(w, cut, outs[k]) ensures n in ConesOf(w, cut, outs) {
      assert InSomeCone(w, cut, outs, n);
    }
  }

  lemma ConesAreLeast(w: Wires, cut: seq<nat>, outs: seq<nat>, s: set<nat>)
    requires forall k :: 0 <= k < |outs| ==> outs[k] in s
    requires forall x :: x in s ==> Covered(w, cut, x, s)
    ensures ConesOf(w, cut, outs) <= s
  {
    forall n | n in ConesOf(w, cut, outs) ensures n in s {
      assert InSomeCone(w, cut, outs, n);
      var k :| 0 <= k < |outs| && n in Cone(w, cut, outs[k]);
      ConeLeast(w, cut, outs[k], s);
    }
  }

  /** A module found in a netlist with wiring `w`. Its inputs and outputs may come in words; only their
      bits matter here. */
  class IdModule {
    const w: Wires
    var inputs: seq<nat>
    var outputs: seq<nat>
    var internals: set<nat>
    var inputmap: map<nat, set<nat>>
    var sliceable: Sliceable
    var numSlices: nat
    var sliceIndexMap: map<nat, nat>
    var sliceSizes: seq<nat>
    var ilpStartVar: nat
    var ilpEndVar: nat
    var isBad: bool

    ghost function State(): Part
      reads this
    {
      Part(w, inputs, outputs, internals, sliceable, numSlices, sliceIndexMap, sliceSizes, ilpStartVar, ilpEndVar)
    }

    ghost predicate Valid()
      reads this
    {
      State().Valid() && inputmap == map[] && !isBad
    }

    /** A module as the analyses leave it; its internals are still to be computed. */
    constructor (w: Wires, inputs: seq<nat>, outputs: seq<nat>, sliceable: bool)
      requires Wired(w) && forall k :: 0 <= k < |outputs| ==> outputs[k] < |w| && outputs[k] !in inputs
      ensures Valid() && this.w == w && this.inputs == inputs && this.outputs == outputs
      ensures this.sliceable == if sliceable then NEEDS_SLICE_CHECK else UNSLICEABLE
    {
      this.w, this.inputs, this.outputs := w, inputs, outputs;
      internals, inputmap, sliceIndexMap, sliceSizes := {}, map[], map[], [];
      this.sliceable := if sliceable then NEEDS_SLICE_CHECK else UNSLICEABLE;
      numSlices, ilpStartVar, ilpEndVar, isBad := 1, 0, 0, false;
      new;
      ComputeInternals();
    }

    /** Every output is added, and then what lies behind the nodes it reads. */
    method ComputeInternals()
      requires Wired(w) && internals == {}
      requires forall k :: 0 <= k < |outputs| ==> outputs[k] < |w| && outputs[k] !in inputs
      modifies this`internals
      ensures internals == ConesOf(w, inputs, outputs)
    {
      var k := 0;
      while k < |outputs|
        invariant 0 <= k <= |outputs| && internals <= ConesOf(w, inputs, outputs)
        invariant forall j :: 0 <= j < k ==> outputs[j] in internals
        invariant forall x :: x in internals ==> Covered(w, inputs, x, internals)
      {
        ConeIsPart(w, inputs, outputs, k);
        AddOutput(outputs[k]);
        k := k + 1;
      }
      ConesAreLeast(w, inputs, outputs, internals);
    }

    method AddOutput(o: nat)
      requires Wired(w) && o < |w| && o !in inputs
      requires forall x :: x in internals ==> Covered(w, inputs, x, internals)
      modifies this`internals
      ensures old(internals) + {o} <= internals <= old(internals) + Cone(w, inputs, o)
      ensures forall x :: x in internals ==> Covered(w, inputs, x, internals)
    {
      forall x | x in internals ensures x < |w| { assert Covered(w, inputs, x, internals); }
      ConeSelf(w, inputs, o);
      internals := internals + {o};
      var i := 0;
      while i < |w[o]|
        invariant 0 <= i <= |w[o]|
        invariant old(internals) + {o} <= internals <= old(internals) + Cone(w, inputs, o)
        invariant forall j :: 0 <= j < i ==> w[o][j] in internals || w[o][j] in inputs
        invariant forall x :: x in internals && x != o ==> Covered(w, inputs, x, internals)
      {
        ghost var before := internals;
        ConeThrough(w, inputs, o, w[o][i]);
        internals := Cones.ComputeInternals(w, inputs, w[o][i], internals);
        forall x | x in internals && x != o ensures Covered(w, inputs, x, internals) {
          if x in before { assert Covered(w, inputs, x, before); }
        }
        i := i + 1;
      }
    }

    method ComputeInputmap(n: nat, ghost rank: seq<nat>)
      requires Wired(w) && n < |w| && Sound(w, inputs, inputmap)
      modifies this`inputmap
      ensures Recorded(w, inputs, old(inputmap), inputmap, n, rank)
      decreases AllNodes(w) - inputmap.Keys
    {
      if n in inputmap {
      } else if n in inputs {
        InputRecorded(w, inputs, inputmap, n, rank);
        inputmap := inputmap[n := {n}];
      } else {
        inputmap := inputmap[n := {}];
        var i := 0;
        while i < |w[n]|
          invariant 0 <= i <= |w[n]| && Reading(w, inputs, old(inputmap), inputmap, n, i, rank)
        {
          ghost var r := inputmap;
          ComputeInputmap(w[n][i], rank);
          ReadingStep(w, inputs, old(inputmap), r, inputmap, n, i, rank);
          inputmap := inputmap[n := inputmap[n] + inputmap[w[n][i]]];
          i := i + 1;
        }
        ReadingDone(w, inputs, old(inputmap), inputmap, n, rank);
      }
    }

    /** Compares the number of inputs behind output `n` with that of the outputs before, if any. */
    method CheckOutputBit(n: nat, lastSz: int, ghost rank: seq<nat>) returns (good: bool, sz: int)
      requires Wired(w) && n < |w| && n !in inputs && Sound(w, inputs, inputmap)
      requires RankedBehind(w, inputs, rank) ==> forall k :: k in inputmap ==> Exact(w, inputs, inputmap, k)
      modifies this`inputmap
      ensures Sound(w, inputs, inputmap) && sz >= 0
      ensures RankedBehind(w, inputs, rank) ==>
                && (forall k :: k in inputmap ==> Exact(w, inputs, inputmap, k))
                && sz == |Support(w, inputs, n)|
      ensures good <==> lastSz == -1 || sz == lastSz
    {
      ComputeInputmap(n, rank);
      if RankedBehind(w, inputs, rank) {
        forall k | k in inputmap ensures Exact(w, inputs, inputmap, k) {
          if k in old(inputmap) { assert Exact(w, inputs, old(inputmap), k); }
        }
        assert Exact(w, inputs, inputmap, n);
      }
      sz := |inputmap[n]|;
      good := lastSz == -1 || sz == lastSz;
    }

    method UpdateSliceIndex(o: nat, index: nat)
      requires Wired(w) && o < |w| && forall g :: g in sliceIndexMap ==> sliceIndexMap[g] != index
      modifies this`sliceIndexMap
      ensures sliceIndexMap == Marked(old(sliceIndexMap), Cone(w, inputs, o), index)
      ensures sliceIndexMap.Keys == old(sliceIndexMap).Keys + Cone(w, inputs, o)
      ensures forall n :: n in sliceIndexMap ==>
                sliceIndexMap[n] == if n !in Cone(w, inputs, o) then old(sliceIndexMap)[n]
                                    else if n in old(sliceIndexMap) then 0 else index
    {
      var c := Cones.ComputeInternals(w, inputs, o, {});
      var todo := c;
      while todo != {}
        invariant todo <= c && sliceIndexMap == Marked(old(sliceIndexMap), c - todo, index)
      {
        var g :| g in todo;
        MarkedStep(old(sliceIndexMap), c - todo, g, index);
        assert c - (todo - {g}) == (c - todo) + {g};
        todo := todo - {g};
        if g !in sliceIndexMap {
          sliceIndexMap := sliceIndexMap[g := index];
        } else {
          assert sliceIndexMap[g] != index;
          sliceIndexMap := sliceIndexMap[g := 0];
        }
      }
      assert c - todo == c;
    }

    method UpdateSliceSizes()
      requires sliceSizes == [] && forall g :: g in sliceIndexMap ==> sliceIndexMap[g] <= numSlices
      modifies this`sliceSizes
      ensures |sliceSizes| == numSlices + 1 && SizesOk(sliceIndexMap, sliceSizes)
    {
      sliceSizes := seq(numSlices + 1, k => 0);
      var todo := sliceIndexMap.Keys;
      CountedEnds(sliceIndexMap, sliceSizes);
      while todo != {}
        invariant todo <= sliceIndexMap.Keys && |sliceSizes| == numSlices + 1
        invariant Counted(sliceIndexMap, todo, sliceSizes)
      {
        var g :| g in todo;
        CountedStep(sliceIndexMap, todo, g, sliceSizes);
        todo := todo - {g};
        sliceSizes := sliceSizes[sliceIndexMap[g] := sliceSizes[sliceIndexMap[g]] + 1];
      }
      CountedEnds(sliceIndexMap, sliceSizes);
    }

    /** Whether all outputs depend on equally many inputs. */
    method OutputsAlike(ghost rank: seq<nat>) returns (good: bool)
      requires Valid()
      modifies this`inputmap
      ensures Valid()
      ensures RankedBehind(w, inputs, rank) ==> (good <==> State().SameSupports())
    {
      good := true;
      var lastSz := -1;
      var k := 0;
      while k < |outputs| && good
        invariant 0 <= k <= |outputs| && Sound(w, inputs, inputmap) && State() == old(State())
        invariant k == 0 && good ==> lastSz == -1
        invariant RankedBehind(w, inputs, rank) ==>
                    forall j :: j in inputmap ==> Exact(w, inputs, inputmap, j)
        invariant RankedBehind(w, inputs, rank) && good ==>
                    forall j :: 0 <= j < k ==> |Support(w, inputs, outputs[j])| == lastSz
        invariant RankedBehind(w, inputs, rank) && !good ==> !State().SameSupports()
        decreases |outputs| - k, good
      {
        var alike, sz := CheckOutputBit(outputs[k], lastSz, rank);
        if !alike {
          good := false;
          assert k > 0 && (RankedBehind(w, inputs, rank) ==> |Support(w, inputs, outputs[0])| == lastSz);
        } else {
          lastSz := sz;
          k := k + 1;
        }
      }
      inputmap := map[];
    }

    method ComputeNumSlices(ghost rank: seq<nat>) returns (slices: nat)
      requires Valid() && sliceable.NEEDS_SLICE_CHECK?
      modifies this`sliceable, this`numSlices, this`sliceIndexMap, this`sliceSizes, this`inputmap
      ensures Valid() && !sliceable.NEEDS_SLICE_CHECK?
      ensures slices == numSlices == if sliceable.SLICEABLE? then |outputs| else 1
      ensures RankedBehind(w, inputs, rank) ==>
                (sliceable.SLICEABLE? <==>
                   |outputs| > 1 && forall i, j :: 0 <= i < |outputs| && 0 <= j < |outputs| ==>
                     |Support(w, inputs, outputs[i])| == |Support(w, inputs, outputs[j])|)
    {
      numSlices := |outputs|;
      var good := OutputsAlike(rank);
      if good && numSlices > 1 {
        sliceable := SLICEABLE;
        IndexOutputs();
        IndicesInRange(w, inputs, outputs, sliceIndexMap);
        UpdateSliceSizes();
      } else {
        sliceable := UNSLICEABLE;
        numSlices := 1;
      }
      slices := numSlices;
    }

    method IndexOutputs()
      requires Wired(w) && sliceIndexMap == map[] && forall k :: 0 <= k < |outputs| ==> outputs[k] < |w|
      modifies this`sliceIndexMap
      ensures IndexOk(w, inputs, outputs, sliceIndexMap)
    {
      var k := 0;
      while k < |outputs|
        invariant 0 <= k <= |outputs| && IndexOk(w, inputs, outputs[..k], sliceIndexMap)
      {
        MarkedIndexOk(w, inputs, outputs[..k], outputs[k], sliceIndexMap);
        assert outputs[..k + 1] == outputs[..k] + [outputs[k]];
        UpdateSliceIndex(outputs[k], k + 1);
        k := k + 1;
      }
      assert outputs[..k] == outputs;
    }

    method GetNumSlices(ghost rank: seq<nat>) returns (slices: nat)
      requires Valid()
      modifies this`sliceable, this`numSlices, this`sliceIndexMap, this`sliceSizes, this`inputmap
      ensures Valid() && !sliceable.NEEDS_SLICE_CHECK?
      ensures slices == if sliceable.SLICEABLE? then numSlices else 1
      ensures !old(sliceable).NEEDS_SLICE_CHECK? ==> State() == old(State())
      ensures old(sliceable).NEEDS_SLICE_CHECK? && RankedBehind(w, inputs, rank) ==>
                (sliceable.SLICEABLE? <==> |outputs| > 1 && old(State()).SameSupports())
    {
      if sliceable.UNSLICEABLE? {
        return 1;
      } else if sliceable.SLICEABLE? {
        return numSlices;
      } else {
        slices := ComputeNumSlices(rank);
      }
    }

    /** The number of slices once it has been decided. */
    function KnownSlices(): (slices: nat)
      requires !sliceable.NEEDS_SLICE_CHECK?
      reads this
      ensures Valid() ==> (slices > 1 <==> sliceable.SLICEABLE?)
    {
      if sliceable.UNSLICEABLE? then 1 else numSlices
    }

    function GetILPVar(n: nat): (v: nat)
      requires !sliceable.NEEDS_SLICE_CHECK? && (sliceable.SLICEABLE? ==> n in sliceIndexMap)
      reads this
      ensures v == State().VarOf(n)
    {
      if sliceable.SLICEABLE? then sliceIndexMap[n] + ilpStartVar else ilpStartVar
    }

    function GetSliceSize(i: nat): (size: nat)
      requires !sliceable.NEEDS_SLICE_CHECK? && (sliceable.SLICEABLE? ==> i < |sliceSizes|)
      reads this
      ensures size == State().Weight(i)
    {
      if sliceable.UNSLICEABLE? then |internals| else sliceSizes[i]
    }

    method SetUnsliceable()
      requires Valid() && !sliceable.SLICEABLE?
      modifies this`sliceable
      ensures Valid() && sliceable.UNSLICEABLE?
    {
      sliceable := UNSLICEABLE;
    }

    /** Reserves solver variables from `first` on: one for the whole module, and one for every slice. */
    method SetILPVars(first: nat) returns (last: nat)
      requires Valid() && !sliceable.NEEDS_SLICE_CHECK?
      modifies this`ilpStartVar, this`ilpEndVar
      ensures State() == old(State()).(start := first, end := last) && Valid()
      ensures last == first + if sliceable.SLICEABLE? then numSlices else 0
    {
      ilpStartVar := first;
      var slices := KnownSlices();
      ilpEndVar := first + if slices == 1 then 0 else slices;
      last := ilpEndVar;
    }

    method SetBad()
      modifies this`isBad
      ensures isBad
    {
      isBad := true;
    }

    /** Keeps the slices `good` and drops the inputs that no kept slice needs. */
    method PruneSlices(good: seq<nat>)
      requires Valid() && 0 < |good| && |good| != |outputs|
      requires forall i :: 0 <= i < |good| ==> 1 <= good[i] <= |outputs|
      modifies this`outputs, this`inputs, this`internals, this`inputmap
      ensures outputs == Picked(old(outputs), good)
      ensures inputs == Filtered(old(inputs), SupportsOf(w, old(inputs), outputs))
      ensures |outputs| == |good| && forall k :: 0 <= k < |good| ==> outputs[k] == old(outputs)[good[k] - 1]
      ensures forall k :: 0 <= k < |outputs| ==> Cone(w, inputs, outputs[k]) == Cone(w, old(inputs), outputs[k])
      ensures forall k :: 0 <= k < |outputs| ==> Support(w, inputs, outputs[k]) == Support(w, old(inputs), outputs[k])
      ensures internals == ConesOf(w, inputs, outputs) == ConesOf(w, old(inputs), outputs)
    {
      PruneOutputs(good);
      assert forall k :: 0 <= k < |outputs| ==> outputs[k] < |w| && outputs[k] !in inputs;
      var goodInputs := ComputeGoodInputs();
      PruneInputs(goodInputs);
      PruningKeepsCones(w, old(inputs), outputs, inputs);
      internals := {};
      ComputeInternals();
    }

    method PruneOutputs(good: seq<nat>)
      requires forall i :: 0 <= i < |good| ==> 1 <= good[i] <= |outputs|
      modifies this`outputs
      ensures outputs == Picked(old(outputs), good)
    {
      var newOutputs := [];
      var i := 0;
      while i < |good|
        invariant 0 <= i <= |good| && newOutputs == Picked(outputs, good[..i])
      {
        assert good[..i + 1][..i] == good[..i];
        newOutputs := newOutputs + [outputs[good[i] - 1]];
        i := i + 1;
      }
      assert good[..i] == good;
      outputs := newOutputs;
    }

    /** The inputs the outputs depend on, whatever loops the wiring has. */
    method ComputeGoodInputs() returns (good: set<nat>)
      requires Wired(w) && inputmap == map[]
      requires forall k :: 0 <= k < |outputs| ==> outputs[k] < |w| && outputs[k] !in inputs
      modifies this`inputmap
      ensures inputmap == map[] && good == SupportsOf(w, inputs, outputs)
    {
      good := {};
      var k := 0;
      while k < |outputs|
        invariant 0 <= k <= |outputs| && Gathered(w, inputs, inputmap, good) && good <= SupportsOf(w, inputs, outputs)
        invariant forall j :: 0 <= j < k ==> outputs[j] in inputmap
      {
        ghost var m := inputmap;
        ComputeInputmap(outputs[k], []);
        GatheredStep(w, inputs, m, inputmap, outputs[k], good);
        good := good + inputmap[outputs[k]];
        assert forall i :: i in Support(w, inputs, outputs[k]) ==> InSomeSupport(w, inputs, outputs, i);
        k := k + 1;
      }
      forall i | i in SupportsOf(w, inputs, outputs) ensures i in good {
        var j :| 0 <= j < |outputs| && i in Support(w, inputs, outputs[j]);
        GatheredAll(w, inputs, inputmap, good, outputs[j]);
      }
      inputmap := map[];
    }

    method PruneInputs(good: set<nat>)
      modifies this`inputs
      ensures inputs == Filtered(old(inputs), good)
    {
      var newInputs := [];
      var i := 0;
      while i < |inputs|
        invariant 0 <= i <= |inputs| && newInputs == Filtered(inputs[..i], good)
      {
        assert inputs[..i + 1][..i] == inputs[..i];
        if inputs[i] in good {
          newInputs := newInputs + [inputs[i]];
        }
        i := i + 1;
      }
      assert inputs[..i] == inputs;
      inputs := newInputs;
    }
  }
}
