/** Two groupings by union-find: modules with the same ungrouped inputs, and nodes with the same
    support. Both link elements that are not roots, so the order of their loops matters. */
module Groupings {

  /** Elements with the same key, for the elements of a list. */
  ghost predicate SameKey(keys: seq<set<nat>>, a: nat, b: nat)
    requires a < |keys| && b < |keys|
  {
    keys[a] == keys[b]
  }

  // ---- modules: links go from earlier to later list positions ----

  /** Every element is its own representative or points to a later one. */
  ghost predicate PointsUp(repr: seq<nat>) {
    forall x :: 0 <= x < |repr| ==> x <= repr[x] < |repr|
  }

  ghost function Top(repr: seq<nat>, x: nat): (r: nat)
    requires PointsUp(repr) && x < |repr|
    ensures r < |repr| && repr[r] == r
    decreases |repr| - x
  {
    if repr[x] == x then x else Top(repr, repr[x])
  }

  /** The last list position with the key of `x`, looking no further than position `n`. */
  ghost function LastMate(keys: seq<set<nat>>, x: nat, n: nat): (m: nat)
    requires x < |keys| && n <= |keys|
    ensures m < |keys| && SameKey(keys, x, m)
    ensures m == x || x < m < n
    ensures forall y :: m < y < n && x < y ==> !SameKey(keys, x, y)
  {
    if n <= x + 1 then x
    else if SameKey(keys, x, n - 1) then n - 1
    else LastMate(keys, x, n - 1)
  }

  /** The number of positions below `n` with the key of `x`. */
  ghost function Mates(keys: seq<set<nat>>, x: nat, n: nat): nat
    requires x < |keys| && n <= |keys|
  {
    if n == 0 then 0 else Mates(keys, x, n - 1) + if SameKey(keys, x, n - 1) then 1 else 0
  }

  lemma {:induction false} SameMates(keys: seq<set<nat>>, x: nat, y: nat, n: nat)
    requires x < |keys| && y < |keys| && n <= |keys| && SameKey(keys, x, y)
    ensures Mates(keys, x, n) == Mates(keys, y, n)
  {
    if n > 0 { SameMates(keys, x, y, n - 1); }
  }

  class ModuleSets {
    var repr: seq<nat>
    var level: seq<nat>

    constructor (n: nat)
      ensures repr == seq(n, i requires 0 <= i < n => i) && level == seq(n, i => 0)
    {
      repr := seq(n, i requires 0 <= i < n => i);
      level := seq(n, i => 0);
    }

    method Link(a: nat, b: nat)
      requires a < |repr| == |level| && b < |repr|
      modifies this
      ensures old(level[a] > level[b]) ==> repr == old(repr)[b := a] && level == old(level)
      ensures old(level[a] <= level[b]) ==> repr == old(repr)[a := b]
      ensures old(level[a] < level[b]) ==> level == old(level)
      ensures old(level[a] == level[b]) ==> level == old(level[b := level[b] + 1])
    {
      if level[a] > level[b] {
        repr := repr[b := a];
      } else {
        repr := repr[a := b];
        if level[a] == level[b] {
          level := level[b := level[b] + 1];
        }
      }
    }

    /** The representative of `x`. Paths are compressed, which changes no representative. */
    method GetRep(x: nat) returns (r: nat)
      requires PointsUp(repr) && x < |repr|
      modifies this`repr
      ensures |repr| == |old(repr)| && PointsUp(repr) && r == Top(old(repr), x)
      ensures forall y :: 0 <= y < |repr| ==> repr[y] == old(repr)[y] || repr[y] == Top(old(repr), y)
      ensures forall y :: 0 <= y < |repr| ==> Top(repr, y) == Top(old(repr), y)
      ensures repr[x] == r
      decreases |repr| - x
    {
      if repr[x] != x {
        r := GetRep(repr[x]);
        ghost var before := repr;
        repr := repr[x := r];
        CompressionKeepsTops(before, x);
      } else {
        r := x;
      }
    }
  }

  /** The way from `y` to its representative passes `a`. */
  ghost predicate Passes(repr: seq<nat>, y: nat, a: nat)
    requires PointsUp(repr) && y < |repr|
    decreases |repr| - y
  {
    y == a || (repr[y] != y && Passes(repr, repr[y], a))
  }

  /** What a link from `a` to a later `b` does, whether or not they are representatives: exactly the elements
      whose way passes `a` go over to the representative of `b`. For a representative `a` that is its whole
      group; otherwise the rest of the group is left behind. */
  lemma {:induction false} LinkMoves(repr: seq<nat>, a: nat, b: nat, y: nat)
    requires PointsUp(repr) && a < b < |repr| && y < |repr|
    ensures PointsUp(repr[a := b])
    ensures Top(repr[a := b], y) == if Passes(repr, y, a) then Top(repr, b) else Top(repr, y)
    ensures repr[a] == a ==> (Passes(repr, y, a) <==> Top(repr, y) == a)
    decreases |repr| - y
  {
    if y == a {
      AboveStays(repr, a, b, b);
    } else if repr[y] != y {
      LinkMoves(repr, a, b, repr[y]);
    }
  }

  lemma {:induction false} AboveStays(repr: seq<nat>, a: nat, b: nat, y: nat)
    requires PointsUp(repr) && a < b < |repr| && a < y < |repr| && PointsUp(repr[a := b])
    ensures Top(repr[a := b], y) == Top(repr, y) && !Passes(repr, y, a)
    decreases |repr| - y
  {
    if repr[y] != y { AboveStays(repr, a, b, repr[y]); }
  }

  lemma CompressionKeepsTops(repr: seq<nat>, x: nat)
    requires PointsUp(repr) && x < |repr|
    ensures PointsUp(repr[x := Top(repr, x)])
    ensures forall y :: 0 <= y < |repr| ==> Top(repr[x := Top(repr, x)], y) == Top(repr, y)
  {
    TopIsAbove(repr, x);
    forall y | 0 <= y < |repr| ensures Top(repr[x := Top(repr, x)], y) == Top(repr, y) {
      CompressionKeepsTop(repr, x, y);
    }
  }

  lemma {:induction false} TopIsAbove(repr: seq<nat>, x: nat)
    requires PointsUp(repr) && x < |repr|
    ensures x <= Top(repr, x)
    decreases |repr| - x
  {
    if repr[x] != x { TopIsAbove(repr, repr[x]); }
  }

  lemma {:induction false} CompressionKeepsTop(repr: seq<nat>, x: nat, y: nat)
    requires PointsUp(repr) && x < |repr| && y < |repr| && PointsUp(repr[x := Top(repr, x)])
    ensures Top(repr[x := Top(repr, x)], y) == Top(repr, y)
    decreases |repr| - y
  {
    if y != x && repr[y] != y { CompressionKeepsTop(repr, x, repr[y]); }
  }

  /** The state while position `i` is compared with the positions after it, `j` being next. */
  ghost predicate Comparing(keys: seq<set<nat>>, repr: seq<nat>, level: seq<nat>, i: nat, j: nat)
    requires i < j <= |keys|
  {
    && |repr| == |level| == |keys|
    && (forall x :: 0 <= x < i ==> repr[x] == LastMate(keys, x, |keys|))
    && repr[i] == LastMate(keys, i, j)
    && (forall x :: i < x < |keys| ==> repr[x] == x)
    && (forall x :: i <= x < |keys| ==>
          level[x] == Mates(keys, x, if i < x < j && SameKey(keys, i, x) then i + 1 else i))
  }

  /** Paths are at most one link long, so looking up a representative changes nothing. */
  lemma ComparingIsFlat(keys: seq<set<nat>>, repr: seq<nat>, level: seq<nat>, i: nat, j: nat)
    requires i < j <= |keys| && Comparing(keys, repr, level, i, j)
    ensures PointsUp(repr) && forall x :: 0 <= x < |repr| ==> repr[repr[x]] == repr[x] == Top(repr, x)
  {
    forall x | 0 <= x < |repr| ensures repr[repr[x]] == repr[x] {
      var m := repr[x];
      if x < i {
        assert SameKey(keys, x, LastMate(keys, m, |keys|)) && SameKey(keys, x, LastMate(keys, m, j));
      }
    }
  }

  lemma CompareStep(keys: seq<set<nat>>, repr: seq<nat>, level: seq<nat>, i: nat, j: nat)
    requires i < j < |keys| && Comparing(keys, repr, level, i, j)
    ensures SameKey(keys, i, j) ==>
              level[i] == level[j] && Comparing(keys, repr[i := j], level[j := level[j] + 1], i, j + 1)
    ensures !SameKey(keys, i, j) ==> Comparing(keys, repr, level, i, j + 1)
  {
    SameMatesIf(keys, i, j);
  }

  lemma SameMatesIf(keys: seq<set<nat>>, i: nat, j: nat)
    requires i < |keys| && j < |keys|
    ensures SameKey(keys, i, j) ==> Mates(keys, i, i) == Mates(keys, j, i)
  {
    if SameKey(keys, i, j) { SameMates(keys, i, j, i); }
  }

  lemma NextPosition(keys: seq<set<nat>>, repr: seq<nat>, level: seq<nat>, i: nat)
    requires i + 1 < |keys| && Comparing(keys, repr, level, i, |keys|)
    ensures Comparing(keys, repr, level, i + 1, i + 2)
  {
  }

  lemma LastMateIff(keys: seq<set<nat>>, a: nat, b: nat)
    requires a < |keys| && b < |keys|
    ensures LastMate(keys, a, |keys|) == LastMate(keys, b, |keys|) <==> SameKey(keys, a, b)
  {
    if SameKey(keys, a, b) {
      assert SameKey(keys, a, LastMate(keys, b, |keys|)) && SameKey(keys, b, LastMate(keys, a, |keys|));
      assert SameKey(keys, a, a) && SameKey(keys, b, b);
    }
  }

  /** The last mate is the last position with the same key. */
  lemma LastMateMeans(keys: seq<set<nat>>, a: nat)
    requires a < |keys|
    ensures a <= LastMate(keys, a, |keys|) < |keys| && keys[LastMate(keys, a, |keys|)] == keys[a]
    ensures forall b :: LastMate(keys, a, |keys|) < b < |keys| ==> keys[b] != keys[a]
  {
    var m := LastMate(keys, a, |keys|);
    assert SameKey(keys, a, m);
    forall b | m < b < |keys| ensures keys[b] != keys[a] {
      assert !SameKey(keys, a, b);
    }
  }

  /** Compares position `i` with every later one and links it to those with the same key. */
  method CompareWithLater(keys: seq<set<nat>>, sets: ModuleSets, i: nat)
    requires i < |keys| && Comparing(keys, sets.repr, sets.level, i, i + 1)
    modifies sets
    ensures Comparing(keys, sets.repr, sets.level, i, |keys|)
  {
    for j := i + 1 to |keys|
      invariant Comparing(keys, sets.repr, sets.level, i, j)
    {
      ComparingIsFlat(keys, sets.repr, sets.level, i, j);
      ghost var repr := sets.repr;
      var ri := sets.GetRep(i);
      var rj := sets.GetRep(j);
      assert sets.repr == repr;
      CompareStep(keys, repr, sets.level, i, j);
      if ri != rj {
        if keys[i] == keys[j] {
          sets.Link(i, j);
        }
      }
    }
  }

  /** The representatives when all pairs have been compared. */
  method ReadGroups(keys: seq<set<nat>>, sets: ModuleSets) returns (reps: seq<nat>)
    requires |keys| > 0 ==> Comparing(keys, sets.repr, sets.level, |keys| - 1, |keys|)
    modifies sets
    ensures |reps| == |keys|
    ensures forall a :: 0 <= a < |keys| ==> reps[a] == LastMate(keys, a, |keys|)
  {
    reps := [];
    for i := 0 to |keys|
      invariant |reps| == i
      invariant |keys| > 0 ==> Comparing(keys, sets.repr, sets.level, |keys| - 1, |keys|)
      invariant forall x :: 0 <= x < i ==> reps[x] == LastMate(keys, x, |keys|)
    {
      ComparingIsFlat(keys, sets.repr, sets.level, |keys| - 1, |keys|);
      ghost var repr := sets.repr;
      var r := sets.GetRep(i);
      assert sets.repr == repr;
      reps := reps + [r];
    }
  }

  /** The groups of the modules: two modules get the same representative exactly when their
      ungrouped inputs are the same, although links detach members on the way. The representative
      is the last module of the group. */
  method GroupModules(keys: seq<set<nat>>) returns (reps: seq<nat>)
    ensures |reps| == |keys|
    ensures forall a, b :: 0 <= a < |keys| && 0 <= b < |keys| ==>
              (reps[a] == reps[b] <==> keys[a] == keys[b])
    ensures forall a :: 0 <= a < |keys| ==> a <= reps[a] < |keys| && keys[reps[a]] == keys[a]
    ensures forall a, b :: 0 <= a < |keys| && reps[a] < b < |keys| ==> keys[b] != keys[a]
  {
    var sets := new ModuleSets(|keys|);
    for i := 0 to |keys|
      invariant i < |keys| ==> Comparing(keys, sets.repr, sets.level, i, i + 1)
      invariant i == |keys| > 0 ==> Comparing(keys, sets.repr, sets.level, i - 1, i)
      invariant |sets.repr| == |keys|
    {
      CompareWithLater(keys, sets, i);
      if i + 1 < |keys| { NextPosition(keys, sets.repr, sets.level, i); }
    }
    reps := ReadGroups(keys, sets);
    forall a, b | 0 <= a < |keys| && 0 <= b < |keys|
      ensures reps[a] == reps[b] <==> keys[a] == keys[b]
    {
      LastMateIff(keys, a, b);
    }
    forall a | 0 <= a < |keys|
      ensures a <= reps[a] && keys[reps[a]] == keys[a]
      ensures forall b :: reps[a] < b < |keys| ==> keys[b] != keys[a]
    {
      LastMateMeans(keys, a);
    }
  }

  // ---- nodes: links go from later to earlier list positions ----

  ghost predicate PointsDown(root: seq<nat>) {
    forall x :: 0 <= x < |root| ==> root[x] <= x
  }

  ghost function Bottom(root: seq<nat>, x: nat): (r: nat)
    requires PointsDown(root) && x < |root|
    ensures r <= x && root[r] == r
  {
    if root[x] == x then x else Bottom(root, root[x])
  }

  /** The first list position with the key of `x`. */
  ghost function FirstMate(keys: seq<set<nat>>, x: nat): (m: nat)
    requires x < |keys|
    ensures m <= x && SameKey(keys, x, m)
    ensures forall y :: 0 <= y < m ==> !SameKey(keys, x, y)
  {
    FirstMateFrom(keys, x, 0)
  }

  ghost function FirstMateFrom(keys: seq<set<nat>>, x: nat, n: nat): (m: nat)
    requires n <= x < |keys|
    ensures n <= m <= x && SameKey(keys, x, m)
    ensures forall y :: n <= y < m ==> !SameKey(keys, x, y)
    decreases x - n
  {
    if SameKey(keys, x, n) then n else FirstMateFrom(keys, x, n + 1)
  }

  class NodeSets {
    var root: seq<nat>
    var rank: seq<nat>

    constructor (n: nat)
      ensures root == seq(n, i requires 0 <= i < n => i) && rank == seq(n, i => 0)
    {
      root := seq(n, i requires 0 <= i < n => i);
      rank := seq(n, i => 0);
    }

    method Link(a: nat, b: nat)
      requires a < |root| == |rank| && b < |root|
      modifies this
      ensures old(rank[a] > rank[b]) ==> root == old(root)[b := a] && rank == old(rank)
      ensures old(rank[b] >= rank[a]) ==> root == old(root)[a := b]
      ensures old(rank[b] > rank[a]) ==> rank == old(rank)
      ensures old(rank[a] == rank[b]) ==> rank == old(rank[b := rank[b] + 1])
    {
      if rank[a] > rank[b] {
        root := root[b := a];
      } else if rank[b] > rank[a] {
        root := root[a := b];
      } else {
        root := root[a := b];
        rank := rank[b := rank[b] + 1];
      }
    }

    /** The root of `x`. Paths are compressed, which changes no root. */
    method FindSet(x: nat) returns (r: nat)
      requires PointsDown(root) && x < |root|
      modifies this`root
      ensures |root| == |old(root)| && PointsDown(root) && r == Bottom(old(root), x)
      ensures forall y :: 0 <= y < |root| ==> root[y] == old(root)[y] || root[y] == Bottom(old(root), y)
      ensures forall y :: 0 <= y < |root| ==> Bottom(root, y) == Bottom(old(root), y)
      decreases x
    {
      if x != root[x] {
        r := FindSet(root[x]);
        ghost var before := root;
        root := root[x := r];
        forall y | 0 <= y < |root| ensures Bottom(root, y) == Bottom(before, y) {
          CompressionKeepsBottom(before, x, y);
        }
      } else {
        r := x;
      }
    }
  }

  lemma {:induction false} CompressionKeepsBottom(root: seq<nat>, x: nat, y: nat)
    requires PointsDown(root) && x < |root| && y < |root|
    ensures PointsDown(root[x := Bottom(root, x)])
    ensures Bottom(root[x := Bottom(root, x)], y) == Bottom(root, y)
    decreases y
  {
    if y != x && root[y] != y { CompressionKeepsBottom(root, x, root[y]); }
  }

  /** Latch gates take no part as first element, so one that is not the first with its key stays apart. */
  ghost predicate LatchesFirst(keys: seq<set<nat>>, latch: seq<bool>)
    requires |latch| == |keys|
  {
    forall x :: 0 <= x < |keys| && latch[x] ==> FirstMate(keys, x) == x
  }

  lemma LatchesFirstMeans(keys: seq<set<nat>>, latch: seq<bool>)
    requires |latch| == |keys|
    ensures LatchesFirst(keys, latch) <==>
            forall x, y :: 0 <= y < x < |keys| && latch[x] ==> keys[y] != keys[x]
  {
    forall x: nat | x < |keys|
      ensures FirstMate(keys, x) == x <==> forall y :: 0 <= y < x ==> keys[y] != keys[x]
    {
      FirstMateMeans(keys, x);
    }
  }

  /** The first mate is the first position with the same key. */
  lemma FirstMateMeans(keys: seq<set<nat>>, a: nat)
    requires a < |keys|
    ensures FirstMate(keys, a) <= a && keys[FirstMate(keys, a)] == keys[a]
    ensures forall y :: 0 <= y < FirstMate(keys, a) ==> keys[y] != keys[a]
  {
    var m := FirstMate(keys, a);
    assert SameKey(keys, a, m);
    forall y | 0 <= y < m ensures keys[y] != keys[a] {
      assert !SameKey(keys, a, y);
    }
  }

  /** What holds while position `i` is compared with earlier ones, whatever the latches. */
  ghost predicate Linking(keys: seq<set<nat>>, latch: seq<bool>, root: seq<nat>, rank: seq<nat>, i: nat)
    requires |latch| == |keys|
  {
    && |root| == |rank| == |keys| && PointsDown(root)
    && (forall x :: 0 <= x < |keys| ==> SameKey(keys, x, root[x]))
    && (forall x :: i < x < |keys| ==> root[x] == x)
    && (forall x :: i <= x < |keys| ==> rank[x] == 0)
    && (forall x :: 0 <= x < |keys| && (latch[x] || FirstMate(keys, x) == x) ==> root[x] == x)
  }

  lemma {:induction false} BottomHasKey(keys: seq<set<nat>>, root: seq<nat>, x: nat)
    requires PointsDown(root) && |root| == |keys| && x < |keys|
    requires forall y :: 0 <= y < |keys| ==> SameKey(keys, y, root[y])
    ensures SameKey(keys, x, Bottom(root, x))
    decreases x
  {
    if root[x] != x { BottomHasKey(keys, root, root[x]); }
  }

  /** If latch gates come first among their kind, the positions before `i` have found their group, and
      position `i` has as far as it was compared. */
  ghost predicate Grouped(keys: seq<set<nat>>, latch: seq<bool>, root: seq<nat>, i: nat, j: nat)
    requires |latch| == |keys| == |root| && PointsDown(root)
  {
    LatchesFirst(keys, latch) ==>
      && (forall x :: 0 <= x < i && x < |keys| ==> Bottom(root, x) == FirstMate(keys, x))
      && (i < |keys| ==> Bottom(root, i) == if FirstMate(keys, i) < j then FirstMate(keys, i) else i)
  }

  lemma {:induction false} LinkKeepsLowerBottoms(root: seq<nat>, i: nat, j: nat, x: nat)
    requires PointsDown(root) && x < i < |root| && j <= i
    ensures PointsDown(root[i := j]) && Bottom(root[i := j], x) == Bottom(root, x)
    decreases x
  {
    if root[x] != x { LinkKeepsLowerBottoms(root, i, j, root[x]); }
  }

  lemma LinkStep(keys: seq<set<nat>>, latch: seq<bool>, root: seq<nat>, rank: seq<nat>, i: nat, j: nat)
    requires |latch| == |keys| && j < i < |keys| && !latch[i]
    requires Linking(keys, latch, root, rank, i) && Grouped(keys, latch, root, i, j)
    ensures SameKey(keys, i, j) && Bottom(root, i) != Bottom(root, j) ==>
              Linking(keys, latch, root[i := j], rank, i) && Grouped(keys, latch, root[i := j], i, j + 1)
    ensures !(SameKey(keys, i, j) && Bottom(root, i) != Bottom(root, j)) ==>
              Grouped(keys, latch, root, i, j + 1)
  {
    if SameKey(keys, i, j) && Bottom(root, i) != Bottom(root, j) {
      var root' := root[i := j];
      forall x: nat | x < i ensures PointsDown(root') && Bottom(root', x) == Bottom(root, x) {
        LinkKeepsLowerBottoms(root, i, j, x);
      }
      SameFirstMate(keys, i, j);
    } else if SameKey(keys, i, j) {
      SameFirstMate(keys, i, j);
    }
  }

  lemma SameFirstMate(keys: seq<set<nat>>, x: nat, y: nat)
    requires x < |keys| && y < |keys| && SameKey(keys, x, y)
    ensures FirstMate(keys, x) == FirstMate(keys, y)
  {
    assert SameKey(keys, x, FirstMate(keys, y)) && SameKey(keys, y, FirstMate(keys, x));
    assert SameKey(keys, x, x) && SameKey(keys, y, y) && SameKey(keys, y, x);
  }

  /** Looking up roots keeps everything that is known. */
  lemma LookupKeeps(keys: seq<set<nat>>, latch: seq<bool>, root: seq<nat>, root': seq<nat>, rank: seq<nat>,
      i: nat, j: nat)
    requires |latch| == |keys|
    requires Linking(keys, latch, root, rank, i) && Grouped(keys, latch, root, i, j)
    requires |root'| == |root| && PointsDown(root')
    requires forall y :: 0 <= y < |root| ==> root'[y] == root[y] || root'[y] == Bottom(root, y)
    requires forall y :: 0 <= y < |root| ==> Bottom(root', y) == Bottom(root, y)
    ensures Linking(keys, latch, root', rank, i) && Grouped(keys, latch, root', i, j)
  {
    forall x | 0 <= x < |keys| ensures SameKey(keys, x, root'[x]) {
      BottomHasKey(keys, root, x);
    }
  }

  method Lookup(ghost keys: seq<set<nat>>, ghost latch: seq<bool>, sets: NodeSets, ghost i: nat, ghost j: nat, x: nat)
    returns (r: nat)
    requires |latch| == |keys| && x < |keys|
    requires Linking(keys, latch, sets.root, sets.rank, i) && Grouped(keys, latch, sets.root, i, j)
    modifies sets`root
    ensures Linking(keys, latch, sets.root, sets.rank, i) && Grouped(keys, latch, sets.root, i, j)
    ensures r == Bottom(old(sets.root), x)
    ensures forall y :: 0 <= y < |keys| ==> Bottom(sets.root, y) == Bottom(old(sets.root), y)
  {
    r := sets.FindSet(x);
    LookupKeeps(keys, latch, old(sets.root), sets.root, sets.rank, i, j);
  }

  /** Compares the node at position `i`, which is no latch gate, with every earlier one. */
  method CompareWithEarlier(keys: seq<set<nat>>, latch: seq<bool>, sets: NodeSets, i: nat)
    requires |latch| == |keys| && i < |keys| && !latch[i]
    requires Linking(keys, latch, sets.root, sets.rank, i) && Grouped(keys, latch, sets.root, i, 0)
    modifies sets
    ensures Linking(keys, latch, sets.root, sets.rank, i) && Grouped(keys, latch, sets.root, i, i)
  {
    for j := 0 to i
      invariant Linking(keys, latch, sets.root, sets.rank, i) && Grouped(keys, latch, sets.root, i, j)
    {
      var ri := Lookup(keys, latch, sets, i, j, i);
      var rj := Lookup(keys, latch, sets, i, j, j);
      LinkStep(keys, latch, sets.root, sets.rank, i, j);
      if ri != rj {
        if |keys[i]| == |keys[j]| {
          if keys[i] == keys[j] {
            sets.Link(i, j);
          }
        }
      }
    }
  }

  lemma NextNode(keys: seq<set<nat>>, latch: seq<bool>, root: seq<nat>, rank: seq<nat>, i: nat)
    requires |latch| == |keys| && i < |keys| && Linking(keys, latch, root, rank, i)
    requires Grouped(keys, latch, root, i, if latch[i] then 0 else i)
    ensures Linking(keys, latch, root, rank, i + 1) && Grouped(keys, latch, root, i + 1, 0)
  {
  }

  /** With every node compared, the groups are the classes of equal support exactly if latch gates
      come first in their class. */
  lemma GroupsIff(keys: seq<set<nat>>, latch: seq<bool>, root: seq<nat>, rank: seq<nat>)
    requires |latch| == |keys|
    requires Linking(keys, latch, root, rank, |keys|) && Grouped(keys, latch, root, |keys|, 0)
    ensures (forall x, y :: 0 <= y < x < |keys| && latch[x] ==> keys[y] != keys[x]) <==>
            forall a, b :: 0 <= a < |keys| && 0 <= b < |keys| ==>
              (Bottom(root, a) == Bottom(root, b) <==> keys[a] == keys[b])
  {
    LatchesFirstMeans(keys, latch);
    if LatchesFirst(keys, latch) {
      forall a, b | 0 <= a < |keys| && 0 <= b < |keys|
        ensures Bottom(root, a) == Bottom(root, b) <==> keys[a] == keys[b]
      {
        if SameKey(keys, a, b) { SameFirstMate(keys, a, b); }
        FirstMateMeans(keys, a);
        FirstMateMeans(keys, b);
      }
    } else {
      var x: nat :| x < |keys| && latch[x] && FirstMate(keys, x) != x;
      var f := FirstMate(keys, x);
      FirstMateMeans(keys, x);
      SameFirstMate(keys, x, f);
      assert Bottom(root, x) == x && Bottom(root, f) == f;
    }
  }

  method LinkNodes(keys: seq<set<nat>>, latch: seq<bool>) returns (sets: NodeSets)
    requires |latch| == |keys|
    ensures fresh(sets)
    ensures Linking(keys, latch, sets.root, sets.rank, |keys|) && Grouped(keys, latch, sets.root, |keys|, 0)
  {
    sets := new NodeSets(|keys|);
    for i := 0 to |keys|
      invariant Linking(keys, latch, sets.root, sets.rank, i) && Grouped(keys, latch, sets.root, i, 0)
    {
      if !latch[i] {
        CompareWithEarlier(keys, latch, sets, i);
      }
      NextNode(keys, latch, sets.root, sets.rank, i);
    }
  }

  method ReadRoots(keys: seq<set<nat>>, ghost latch: seq<bool>, sets: NodeSets) returns (roots: seq<nat>)
    requires |latch| == |keys|
    requires Linking(keys, latch, sets.root, sets.rank, |keys|) && Grouped(keys, latch, sets.root, |keys|, 0)
    modifies sets
    ensures Linking(keys, latch, sets.root, sets.rank, |keys|) && Grouped(keys, latch, sets.root, |keys|, 0)
    ensures |roots| == |keys| && forall x :: 0 <= x < |keys| ==> roots[x] == Bottom(sets.root, x)
  {
    roots := [];
    for i := 0 to |keys|
      invariant Linking(keys, latch, sets.root, sets.rank, |keys|) && Grouped(keys, latch, sets.root, |keys|, 0)
      invariant |roots| == i && forall x :: 0 <= x < i ==> roots[x] == Bottom(sets.root, x)
    {
      var r := Lookup(keys, latch, sets, |keys|, 0, i);
      roots := roots + [r];
    }
  }

  /** The groups of the nodes by support, each node with the root of its group. If latch gates come
      first among the nodes with their support, the root is the first such node. The groups are the
      classes of equal support exactly in that case: any latch gate further down is left alone. */
  method CommonInputs(keys: seq<set<nat>>, latch: seq<bool>) returns (roots: seq<nat>)
    requires |latch| == |keys|
    ensures |roots| == |keys|
    ensures forall a :: 0 <= a < |keys| ==> roots[a] <= a && keys[roots[a]] == keys[a]
    ensures (forall x, y :: 0 <= y < x < |keys| && latch[x] ==> keys[y] != keys[x]) ==>
              forall a, b :: 0 <= a < |keys| && 0 <= b < roots[a] ==> keys[b] != keys[a]
    ensures (forall x, y :: 0 <= y < x < |keys| && latch[x] ==> keys[y] != keys[x]) <==>
            forall a, b :: 0 <= a < |keys| && 0 <= b < |keys| ==> (roots[a] == roots[b] <==> keys[a] == keys[b])
  {
    var sets := LinkNodes(keys, latch);
    roots := ReadRoots(keys, latch, sets);
    forall a | 0 <= a < |keys| ensures keys[roots[a]] == keys[a] {
      BottomHasKey(keys, sets.root, a);
      assert SameKey(keys, a, roots[a]);
    }
    LatchesFirstMeans(keys, latch);
    if LatchesFirst(keys, latch) {
      forall a, b | 0 <= a < |keys| && 0 <= b < roots[a] ensures keys[b] != keys[a] {
        FirstMateMeans(keys, a);
      }
    }
    GroupsIff(keys, latch, sets.root, sets.rank);
  }
}
