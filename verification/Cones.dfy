/** What lies behind a node of a module, up to the module's inputs: the cone of nodes that the module
    owns and the inputs that the cone touches. The wiring may have loops (through latches). */
module Cones {

  /** For every node, the nodes it reads. */
  type Wires = seq<seq<nat>>

  predicate Wired(w: Wires) {
    forall x, i :: 0 <= x < |w| && 0 <= i < |w[x]| ==> w[x][i] < |w|
  }

  function AllNodes(w: Wires): (s: set<nat>)
    ensures forall x: nat :: x in s <==> x < |w|
  {
    set x: nat | x < |w| && IsNode(w, x)
  }

  predicate IsNode(w: Wires, x: nat) {
    x < |w|
  }

  /** Each node of `p` reads the next one, and none is in `cut`. */
  ghost predicate IsPath(w: Wires, cut: seq<nat>, p: seq<nat>) {
    && |p| > 0
    && (forall k :: 0 <= k < |p| ==> p[k] < |w| && p[k] !in cut)
    && (forall k :: 0 <= k < |p| - 1 ==> p[k + 1] in w[p[k]])
  }

  ghost predicate Reaches(w: Wires, cut: seq<nat>, o: nat, n: nat) {
    exists p :: IsPath(w, cut, p) && p[0] == o && p[|p| - 1] == n
  }

  /** The nodes `o` depends on without passing through `cut`, itself included. */
  ghost function Cone(w: Wires, cut: seq<nat>, o: nat): (c: set<nat>)
    ensures forall n: nat {:trigger n in c} :: n in c <==> n < |w| && Reaches(w, cut, o, n)
  {
    set n: nat | n < |w| && Reaches(w, cut, o, n)
  }

  /** The nodes of `cut` at the border of the cone of `o`. */
  ghost function Support(w: Wires, cut: seq<nat>, o: nat): (s: set<nat>) {
    set i: nat | i in cut && (i == o || Touches(w, cut, o, i))
  }

  ghost predicate Touches(w: Wires, cut: seq<nat>, o: nat, i: nat) {
    exists x :: x in Cone(w, cut, o) && i in w[x]
  }

  /** These are the inputs that some node of the cone reads, and `o` itself if it is one. */
  lemma SupportMeans(w: Wires, cut: seq<nat>, o: nat, i: nat)
    ensures i in Support(w, cut, o) <==> i in cut && (i == o || exists x :: x in Cone(w, cut, o) && i in w[x])
  {
  }

  /** The union of the cones of `outs`. */
  ghost function ConesOf(w: Wires, cut: seq<nat>, outs: seq<nat>): (c: set<nat>)
    ensures forall n: nat {:trigger n in c} :: n in c <==> InSomeCone(w, cut, outs, n)
  {
    set n: nat | n < |w| && InSomeCone(w, cut, outs, n)
  }

  ghost predicate InSomeCone(w: Wires, cut: seq<nat>, outs: seq<nat>, n: nat) {
    exists k :: 0 <= k < |outs| && n in Cone(w, cut, outs[k])
  }

  /** Everything `x` reads is in `s` or in `cut`. */
  predicate Covered(w: Wires, cut: seq<nat>, x: nat, s: set<nat>) {
    x < |w| && forall i :: 0 <= i < |w[x]| ==> w[x][i] in s || w[x][i] in cut
  }

  lemma ConeSelf(w: Wires, cut: seq<nat>, o: nat)
    requires o < |w| && o !in cut
    ensures o in Cone(w, cut, o)
  {
    assert IsPath(w, cut, [o]);
  }

  lemma ConeStep(w: Wires, cut: seq<nat>, o: nat, x: nat, y: nat)
    requires Wired(w) && x in Cone(w, cut, o) && y in w[x] && y !in cut
    ensures y in Cone(w, cut, o)
  {
    var p :| IsPath(w, cut, p) && p[0] == o && p[|p| - 1] == x;
    assert IsPath(w, cut, p + [y]);
  }

  lemma ConeThrough(w: Wires, cut: seq<nat>, o: nat, y: nat)
    requires o < |w| && o !in cut && y in w[o]
    ensures Cone(w, cut, y) <= Cone(w, cut, o)
  {
    forall n | n in Cone(w, cut, y) ensures n in Cone(w, cut, o) {
      var p :| IsPath(w, cut, p) && p[0] == y && p[|p| - 1] == n;
      var q := [o] + p;
      assert forall k :: 1 <= k < |q| ==> q[k] == p[k - 1];
      assert IsPath(w, cut, q);
    }
  }

  /** The cone is the least set with `o` that covers all its members. */
  lemma ConeLeast(w: Wires, cut: seq<nat>, o: nat, s: set<nat>)
    requires o in s || o in cut
    requires forall x :: x in s ==> Covered(w, cut, x, s)
    ensures Cone(w, cut, o) <= s
  {
    forall n | n in Cone(w, cut, o) ensures n in s {
      var p :| IsPath(w, cut, p) && p[0] == o && p[|p| - 1] == n;
      PathStays(w, cut, p, s, |p| - 1);
    }
  }

  lemma {:induction false} PathStays(w: Wires, cut: seq<nat>, p: seq<nat>, s: set<nat>, k: nat)
    requires IsPath(w, cut, p) && p[0] in s && k < |p|
    requires forall x :: x in s ==> Covered(w, cut, x, s)
    ensures p[k] in s
  {
    if k > 0 {
      PathStays(w, cut, p, s, k - 1);
      assert Covered(w, cut, p[k - 1], s) && p[k] in w[p[k - 1]];
    }
  }

  /** A depth-first walk that adds the cone of `o` to the nodes already collected. */
  method ComputeInternals(w: Wires, cut: seq<nat>, o: nat, s: set<nat>) returns (r: set<nat>)
    requires Wired(w) && o < |w| && s <= AllNodes(w)
    ensures s <= r <= s + Cone(w, cut, o) && (o in r || o in cut)
    ensures forall x :: x in r - s ==> Covered(w, cut, x, r)
    ensures (forall x :: x in s ==> Covered(w, cut, x, s)) ==> r == s + Cone(w, cut, o)
    decreases AllNodes(w) - s
  {
    if o in cut || o in s {
      if forall x :: x in s ==> Covered(w, cut, x, s) { ConeLeast(w, cut, o, s); }
      return s;
    }
    ConeSelf(w, cut, o);
    r := s + {o};
    var i := 0;
    while i < |w[o]|
      invariant 0 <= i <= |w[o]|
      invariant s + {o} <= r <= s + Cone(w, cut, o)
      invariant forall j :: 0 <= j < i ==> w[o][j] in r || w[o][j] in cut
      invariant forall x :: x in r - s && x != o ==> Covered(w, cut, x, r)
    {
      ConeThrough(w, cut, o, w[o][i]);
      ghost var before := r;
      r := ComputeInternals(w, cut, w[o][i], r);
      forall x | x in r - s && x != o ensures Covered(w, cut, x, r) {
        if x in before { assert Covered(w, cut, x, before); }
      }
      i := i + 1;
    }
    if forall x :: x in s ==> Covered(w, cut, x, s) {
      forall x | x in r ensures Covered(w, cut, x, r) {
        if x in s { assert Covered(w, cut, x, s); }
      }
      ConeLeast(w, cut, o, r);
    }
  }

  /** Inputs that no cone of `o` touches can be dropped without changing the cone. */
  lemma DroppedInputsKeepCone(w: Wires, cut: seq<nat>, kept: seq<nat>, o: nat)
    requires Wired(w) && o < |w| && o !in cut
    requires forall i :: i in kept ==> i in cut
    requires forall i :: i in Support(w, cut, o) ==> i in kept
    ensures Cone(w, kept, o) == Cone(w, cut, o)
  {
    forall n | n in Cone(w, cut, o) ensures n in Cone(w, kept, o) {
      var p :| IsPath(w, cut, p) && p[0] == o && p[|p| - 1] == n;
      assert IsPath(w, kept, p);
    }
    ConeSelf(w, cut, o);
    forall x | x in Cone(w, cut, o) ensures Covered(w, kept, x, Cone(w, cut, o)) {
      forall i | 0 <= i < |w[x]| ensures w[x][i] in Cone(w, cut, o) || w[x][i] in kept {
        if w[x][i] in cut {
          assert Touches(w, cut, o, w[x][i]);
        } else {
          ConeStep(w, cut, o, x, w[x][i]);
        }
      }
    }
    ConeLeast(w, kept, o, Cone(w, cut, o));
  }
}
