/** The table that classifies covers by their function up to a permutation of the inputs, and the
    slices that later line up the inputs of all covers of one class. */
module FunctionTables {
  import opened BoolFunctions
  import opened Netlists
  import opened Permutations
  import opened Sequences
  import opened Covers

  /** What the table stores for a function: the canonical function of its class (the key of the entry
      the original points to), the permutation that leads to it from there, and, in the canonical
      entry, the roots and covers found so far. */
  datatype Info = Info(permutation: Perm, canonical: Fn, nodes: set<nat>, covers: set<KCover>)

  type Table = map<Fn, Info>

  /** The entry for `f` belongs to a class whose canonical entry it points to. */
  ghost predicate EntryOk(t: Table, f: Fn)
    requires f in t
  {
    var e := t[f];
    && f.Valid() && e.canonical in t && e.canonical.Valid() && e.canonical.arity == f.arity
    && IsPerm(e.permutation) && |e.permutation| == f.arity
    && f == Permute(e.canonical, e.permutation)
    && t[e.canonical].canonical == e.canonical && t[e.canonical].permutation == Iota(f.arity)
  }

  ghost predicate ClosedAt(t: Table, f: Fn, p: Perm)
    requires f in t && IsPerm(p) && |p| == f.arity
  {
    Permute(f, p) in t && t[Permute(f, p)].canonical == t[f].canonical
  }

  ghost predicate TableOk(t: Table) {
    && (forall f {:trigger EntryOk(t, f)} :: f in t ==> EntryOk(t, f))
    && (forall f, p {:trigger ClosedAt(t, f, p)} :: f in t && IsPerm(p) && |p| == f.arity ==> ClosedAt(t, f, p))
  }

  /** Two functions share their canonical entry exactly when they are equal up to a permutation. */
  lemma SameClassIff(t: Table, f: Fn, h: Fn)
    requires TableOk(t) && f in t && h in t
    ensures t[f].canonical == t[h].canonical <==> EqualUpToPermutation(f, h)
  {
    assert EntryOk(t, f) && EntryOk(t, h);
    if t[f].canonical == t[h].canonical {
      var c, p, q := t[f].canonical, t[f].permutation, t[h].permutation;
      PermuteBack(c, p);
      PermuteCompose(f, Inverse(p), q);
      assert h == Permute(f, Gather(Inverse(p), q));
    }
    if EqualUpToPermutation(f, h) {
      var p :| IsPerm(p) && |p| == f.arity && h == Permute(f, p);
      assert ClosedAt(t, f, p);
    }
  }

  lemma PermutedInTable(t: Table, f: Fn, p: Perm)
    requires TableOk(t) && f in t && IsPerm(p) && |p| == f.arity
    ensures Permute(f, p) in t
  {
    assert ClosedAt(t, f, p);
  }

  // ---- opening a class ----

  /** A function that is not in a closed table has no permuted form in it either. */
  lemma NewClassIsDisjoint(t: Table, f: Fn, p: Perm)
    requires TableOk(t) && f.Valid() && f !in t && IsPerm(p) && |p| == f.arity
    ensures Permute(f, p) !in t
  {
    PermuteBack(f, p);
    if Permute(f, p) in t {
      PermutedInTable(t, Permute(f, p), Inverse(p));
    }
  }

  /** `ps` lists the permutations of `n` positions, the identity first. */
  ghost predicate Lists(ps: seq<Perm>, n: nat) {
    && ps != [] && ps[0] == Iota(n)
    && (forall k :: 0 <= k < |ps| ==> IsPerm(ps[k]) && |ps[k]| == n)
    && (forall p {:trigger p in ps} :: IsPerm(p) && |p| == n ==> p in ps)
  }

  lemma AllPermutationsList(n: nat)
    ensures Lists(AllPermutations(n), n)
  {
    AllPermutationsInOrder(n);
    forall p: Perm ensures p in AllPermutations(n) <==> IsPerm(p) && |p| == n {
      AllPermutationsComplete(n, p);
    }
    forall k | 0 <= k < |AllPermutations(n)| ensures IsPerm(AllPermutations(n)[k]) && |AllPermutations(n)[k]| == n {
      assert AllPermutations(n)[k] in AllPermutations(n);
    }
  }

  /** `t` is `t0` and entries for the first `k` permuted forms of the new function `f`. */
  ghost predicate Opening(t0: Table, t: Table, f: Fn, ps: seq<Perm>, k: nat)
    requires k <= |ps|
  {
    && f in t && t[f].permutation == Iota(f.arity)
    && (forall h :: h in t0 ==> h in t && t[h] == t0[h])
    && (forall h {:trigger NewEntryOk(t, f, h, ps[..k])} :: h in t && h !in t0 ==> NewEntryOk(t, f, h, ps[..k]))
    && (forall j {:trigger PermutedIn(t, t0, f, ps[j])} :: 0 <= j < k ==> PermutedIn(t, t0, f, ps[j]))
  }

  ghost predicate NewEntryOk(t: Table, f: Fn, h: Fn, visited: seq<Perm>)
    requires h in t
  {
    && t[h].canonical == f && t[h].permutation in visited
    && IsPerm(t[h].permutation) && |t[h].permutation| == f.arity
    && h == Permute(f, t[h].permutation)
    && (h != f ==> t[h].nodes == {} && t[h].covers == {})
  }

  ghost predicate PermutedIn(t: Table, t0: Table, f: Fn, p: Perm) {
    IsPerm(p) && |p| == f.arity && Permute(f, p) in t && Permute(f, p) !in t0
  }

  lemma OpenedTableOk(t0: Table, t: Table, f: Fn, ps: seq<Perm>)
    requires TableOk(t0) && f.Valid() && f !in t0 && Lists(ps, f.arity)
    requires Opening(t0, t, f, ps, |ps|)
    ensures TableOk(t)
  {
    forall h | h in t ensures EntryOk(t, h) {
      if h in t0 {
        assert EntryOk(t0, h);
      } else {
        assert NewEntryOk(t, f, h, ps[..|ps|]) && NewEntryOk(t, f, f, ps[..|ps|]);
      }
    }
    forall h, p | h in t && IsPerm(p) && |p| == h.arity ensures ClosedAt(t, h, p) {
      if h in t0 {
        assert ClosedAt(t0, h, p);
      } else {
        assert NewEntryOk(t, f, h, ps[..|ps|]);
        var q := t[h].permutation;
        PermuteCompose(f, q, p);
        assert Gather(q, p) in ps;
        var j :| 0 <= j < |ps| && ps[j] == Gather(q, p);
        assert PermutedIn(t, t0, f, ps[j]);
        assert NewEntryOk(t, f, Permute(h, p), ps[..|ps|]);
      }
    }
  }

  ghost predicate SameForm(f: Fn, p: Perm, q: Perm) {
    IsPerm(p) && IsPerm(q) && |p| == |q| == f.arity && Permute(f, p) == Permute(f, q)
  }

  /** Permutation number `k` gives a form of `f` that no earlier one gave. */
  ghost predicate NewForm(f: Fn, ps: seq<Perm>, k: nat)
    requires k < |ps|
  {
    forall j :: 0 <= j < k ==> !SameForm(f, ps[j], ps[k])
  }

  /** The last of the first `k` permutations that gives a form of `f` not met before. */
  ghost function LastNew(f: Fn, ps: seq<Perm>, k: nat): (j: nat)
    requires 1 <= k <= |ps|
    ensures j < k && (j == 0 || NewForm(f, ps, j))
    ensures forall i :: j < i < k ==> !NewForm(f, ps, i)
  {
    if k == 1 || NewForm(f, ps, k - 1) then k - 1 else LastNew(f, ps, k - 1)
  }

  /** The permutation the cover that opens a class is left with. */
  ghost function OpeningPerm(f: Fn): Perm {
    AllPermutationsList(f.arity);
    var ps := AllPermutations(f.arity);
    ps[LastNew(f, ps, |ps|)]
  }

  lemma OpeningFirst(t0: Table, f: Fn, ps: seq<Perm>, e: Info)
    requires TableOk(t0) && f.Valid() && f !in t0 && Lists(ps, f.arity)
    requires e.canonical == f && e.permutation == Iota(f.arity)
    ensures Opening(t0, t0[f := e], f, ps, 1)
  {
    PermuteIdentity(f);
    assert ps[..1] == [ps[0]];
  }

  /** Visiting permutation number `k`: its form is new exactly when it is not in the table yet. */
  lemma FormIsNewIff(t0: Table, t: Table, f: Fn, ps: seq<Perm>, k: nat)
    requires TableOk(t0) && f.Valid() && f !in t0 && Lists(ps, f.arity) && 1 <= k < |ps|
    requires Opening(t0, t, f, ps, k)
    ensures Permute(f, ps[k]) !in t <==> NewForm(f, ps, k)
    ensures Permute(f, ps[k]) !in t0
  {
    var h := Permute(f, ps[k]);
    NewClassIsDisjoint(t0, f, ps[k]);
    if h in t {
      assert NewEntryOk(t, f, h, ps[..k]);
      var j :| 0 <= j < k && ps[j] == t[h].permutation;
      assert SameForm(f, ps[j], ps[k]);
    } else {
      forall j | 0 <= j < k ensures !SameForm(f, ps[j], ps[k]) {
        assert PermutedIn(t, t0, f, ps[j]);
      }
    }
  }

  /** A form that is in the table already needs no entry. */
  lemma OpeningSkip(t0: Table, t: Table, f: Fn, ps: seq<Perm>, k: nat)
    requires k < |ps| && Opening(t0, t, f, ps, k) && PermutedIn(t, t0, f, ps[k])
    ensures Opening(t0, t, f, ps, k + 1)
  {
    forall e | e in t && e !in t0 ensures NewEntryOk(t, f, e, ps[..k + 1]) {
      assert NewEntryOk(t, f, e, ps[..k]);
      LongerPrefix(ps, k, t[e].permutation);
    }
  }

  /** A new form gets an entry of its own. */
  lemma OpeningAdd(t0: Table, t: Table, f: Fn, ps: seq<Perm>, k: nat)
    requires k < |ps| && Opening(t0, t, f, ps, k)
    requires IsPerm(ps[k]) && |ps[k]| == f.arity && Permute(f, ps[k]) !in t
    ensures Opening(t0, t[Permute(f, ps[k]) := Info(ps[k], f, {}, {})], f, ps, k + 1)
  {
    var h := Permute(f, ps[k]);
    var t' := t[h := Info(ps[k], f, {}, {})];
    forall e | e in t' && e !in t0 ensures NewEntryOk(t', f, e, ps[..k + 1]) {
      if e == h {
        assert ps[..k + 1][k] == ps[k];
      } else {
        assert NewEntryOk(t, f, e, ps[..k]);
        LongerPrefix(ps, k, t[e].permutation);
      }
    }
    forall j | 0 <= j < k + 1 ensures PermutedIn(t', t0, f, ps[j]) {
      if j < k { assert PermutedIn(t, t0, f, ps[j]); }
    }
  }

  lemma LongerPrefix(ps: seq<Perm>, k: nat, p: Perm)
    requires k < |ps| && p in ps[..k]
    ensures p in ps[..k + 1]
  {
    assert ps[..k + 1] == ps[..k] + [ps[k]];
  }

  /** One visit: the form `b` of permutation number `k` gets an entry unless it has one. */
  lemma OpeningStep(t0: Table, t: Table, f: Fn, ps: seq<Perm>, k: nat, b: Fn)
    requires TableOk(t0) && f.Valid() && f !in t0 && Lists(ps, f.arity) && 1 <= k < |ps|
    requires Opening(t0, t, f, ps, k) && b == Permute(f, ps[k])
    ensures b in t ==> Opening(t0, t, f, ps, k + 1) && LastNew(f, ps, k + 1) == LastNew(f, ps, k)
    ensures b !in t ==> Opening(t0, t[b := Info(ps[k], f, {}, {})], f, ps, k + 1) && LastNew(f, ps, k + 1) == k
    ensures b !in t ==> b != f
  {
    FormIsNewIff(t0, t, f, ps, k);
    if b in t {
      OpeningSkip(t0, t, f, ps, k);
    } else {
      OpeningAdd(t0, t, f, ps, k);
    }
  }

  // ---- what is kept ----

  /** What is new in the table is in the class of `f`. */
  ghost predicate AddsFormsOf(t0: Table, t: Table, f: Fn) {
    f in t && forall h :: h in t && h !in t0 ==> t[h].canonical == t[f].canonical
  }

  ghost predicate Keeps(t0: Table, t: Table) {
    forall f :: f in t0 ==> f in t && KeepsEntry(t0[f], t[f])
  }

  ghost predicate KeepsEntry(e0: Info, e: Info) {
    e.permutation == e0.permutation && e.canonical == e0.canonical && e0.nodes <= e.nodes && e0.covers <= e.covers
  }

  lemma KeepsTransitive(t0: Table, t1: Table, t2: Table)
    requires Keeps(t0, t1) && Keeps(t1, t2)
    ensures Keeps(t0, t2)
  {
  }

  lemma OpeningKeeps(t0: Table, t: Table, f: Fn, ps: seq<Perm>, k: nat)
    requires k <= |ps| && f !in t0 && Opening(t0, t, f, ps, k)
    ensures Keeps(t0, t) && t[f].canonical == f && AddsFormsOf(t0, t, f)
  {
    assert NewEntryOk(t, f, f, ps[..k]);
    forall h | h in t && h !in t0 ensures t[h].canonical == f {
      assert NewEntryOk(t, f, h, ps[..k]);
    }
  }

  /** The cover is filed in the canonical entry of its class, with its root, and nowhere else. */
  ghost predicate FilesOnly(t0: Table, t: Table, c: Fn, node: nat, cover: KCover) {
    forall h {:trigger FilesOnlyAt(t0, t, c, node, cover, h)} :: h in t ==> FilesOnlyAt(t0, t, c, node, cover, h)
  }

  ghost predicate FilesOnlyAt(t0: Table, t: Table, c: Fn, node: nat, cover: KCover, h: Fn)
    requires h in t
  {
    && t[h].nodes == (if h in t0 then t0[h].nodes else {}) + (if h == c then {node} else {})
    && t[h].covers == (if h in t0 then t0[h].covers else {}) + (if h == c then {cover} else {})
  }

  lemma FiledMeans(t0: Table, t: Table, c: Fn, node: nat, cover: KCover)
    requires FilesOnly(t0, t, c, node, cover)
    ensures forall h :: h in t ==>
              t[h].covers == (if h in t0 then t0[h].covers else {}) + (if h == c then {cover} else {})
    ensures forall h :: h in t ==>
              t[h].nodes == (if h in t0 then t0[h].nodes else {}) + (if h == c then {node} else {})
  {
    forall h | h in t
      ensures t[h].covers == (if h in t0 then t0[h].covers else {}) + (if h == c then {cover} else {})
      ensures t[h].nodes == (if h in t0 then t0[h].nodes else {}) + (if h == c then {node} else {})
    {
      assert FilesOnlyAt(t0, t, c, node, cover, h);
    }
  }

  lemma OpeningFiles(t0: Table, t: Table, f: Fn, ps: seq<Perm>, k: nat, node: nat, cover: KCover)
    requires k <= |ps| && f !in t0 && Opening(t0, t, f, ps, k) && t[f].nodes == {node} && t[f].covers == {cover}
    ensures FilesOnly(t0, t, f, node, cover)
  {
    forall h | h in t ensures FilesOnlyAt(t0, t, f, node, cover, h) {
      if h !in t0 { assert NewEntryOk(t, f, h, ps[..k]); }
    }
  }

  lemma RegisteringFiles(t0: Table, c: Fn, node: nat, cover: KCover)
    requires c in t0
    ensures FilesOnly(t0, t0[c := t0[c].(nodes := t0[c].nodes + {node}, covers := t0[c].covers + {cover})], c, node,
                      cover)
  {
    var t := t0[c := t0[c].(nodes := t0[c].nodes + {node}, covers := t0[c].covers + {cover})];
    forall h | h in t ensures FilesOnlyAt(t0, t, c, node, cover, h) {}
  }

  lemma RegisteringKeepsTable(t0: Table, c: Fn, node: nat, cover: KCover)
    requires TableOk(t0) && c in t0
    ensures var t := t0[c := t0[c].(nodes := t0[c].nodes + {node}, covers := t0[c].covers + {cover})];
            TableOk(t) && Keeps(t0, t)
  {
    var t := t0[c := t0[c].(nodes := t0[c].nodes + {node}, covers := t0[c].covers + {cover})];
    forall f | f in t ensures EntryOk(t, f) {
      assert EntryOk(t0, f);
    }
    forall f, p | f in t && IsPerm(p) && |p| == f.arity ensures ClosedAt(t, f, p) {
      assert ClosedAt(t0, f, p);
    }
  }

  // ---- covers entered one after the other ----

  /** What a cover carries: the canonical function of its class and its permutation. */
  datatype Mark = Mark(canonical: Fn, perm: Perm)

  /** Function `i` of the list was in the table `t0` or is, up to a permutation, an earlier one. */
  ghost predicate KnownBefore(t0: Table, fns: seq<Fn>, i: nat)
    requires i < |fns|
  {
    fns[i] in t0 || exists j :: 0 <= j < i && EqualUpToPermutation(fns[j], fns[i])
  }

  /** `h` is in the class of one of the first `i` functions. */
  ghost predicate InClassOfOne(t: Table, fns: seq<Fn>, i: nat, h: Fn)
    requires i <= |fns| && h in t
  {
    exists j :: 0 <= j < i && fns[j] in t && t[fns[j]].canonical == t[h].canonical
  }

  /** A cover is given the permutation stored for its function or, if it opens its class, the one visited
      last. */
  datatype Fate = Stored | Opened(perm: Perm)

  ghost function FateOf(t0: Table, fns: seq<Fn>, i: nat): Fate
    requires i < |fns|
  {
    if KnownBefore(t0, fns, i) then Stored else Opened(OpeningPerm(fns[i]))
  }

  ghost function Fates(t0: Table, fns: seq<Fn>): (fates: seq<Fate>)
    ensures |fates| == |fns|
    ensures forall i {:trigger FateOf(t0, fns, i)} :: 0 <= i < |fns| ==> fates[i] == FateOf(t0, fns, i)
  {
    seq(|fns|, i requires 0 <= i < |fns| => FateOf(t0, fns, i))
  }

  ghost predicate Carries(t: Table, f: Fn, m: Mark, fate: Fate) {
    && f in t && m.canonical == t[f].canonical
    && match fate
       case Stored => m.perm == t[f].permutation
       case Opened(perm) => m == Mark(f, perm)
  }

  /** What is new in the table is in the class of one of the first `i` functions. */
  ghost predicate OnlyFormsOf(t0: Table, t: Table, fns: seq<Fn>, i: nat)
    requires i <= |fns|
  {
    forall h {:trigger InClassOfOne(t, fns, i, h)} :: h in t && h !in t0 ==> InClassOfOne(t, fns, i, h)
  }

  ghost predicate SettledUpTo(t: Table, fns: seq<Fn>, marks: seq<Mark>, i: nat)
    requires i <= |fns| == |marks|
  {
    forall k :: 0 <= k < i ==> fns[k] in t && marks[k].canonical == t[fns[k]].canonical
  }

  /** Each of the first `i` covers carries what its last entering left it with. */
  ghost predicate CarriedUpTo(t: Table, fns: seq<Fn>, covers: seq<KCover>, marks: seq<Mark>, fates: seq<Fate>, i: nat)
    requires i <= |covers| == |fns| == |marks| == |fates|
  {
    forall k :: 0 <= k < i ==> CarriedAt(t, fns, covers, marks, fates, i, k)
  }

  /** Cover `k` does not come again before position `i`. */
  ghost predicate IsLast(covers: seq<KCover>, k: nat, i: nat)
    requires k < i <= |covers|
  {
    forall j :: k < j < i ==> covers[j] != covers[k]
  }

  ghost predicate CarriedAt(t: Table, fns: seq<Fn>, covers: seq<KCover>, marks: seq<Mark>, fates: seq<Fate>, i: nat,
      k: nat)
    requires k < i <= |covers| == |fns| == |marks| == |fates|
  {
    IsLast(covers, k, i) ==> Carries(t, fns[k], marks[k], fates[k])
  }

  /** The covers among the first `i` whose function is the canonical function `h` up to a permutation. */
  ghost function CoversOfClass(t: Table, fns: seq<Fn>, covers: seq<KCover>, i: nat, h: Fn): set<KCover>
    requires i <= |fns| == |covers| && h in t
  {
    set k | 0 <= k < i && t[h].canonical == h && EqualUpToPermutation(h, fns[k]) :: covers[k]
  }

  ghost function RootsOfClass(t: Table, fns: seq<Fn>, covers: seq<KCover>, i: nat, h: Fn): set<nat>
    requires i <= |fns| == |covers| && h in t
  {
    set k | 0 <= k < i && t[h].canonical == h && EqualUpToPermutation(h, fns[k]) :: covers[k].root
  }

  /** Besides what it had, every canonical entry has the covers of its class, and other entries have nothing. */
  ghost predicate FiledUpTo(t0: Table, t: Table, fns: seq<Fn>, covers: seq<KCover>, i: nat)
    requires i <= |fns| == |covers|
  {
    forall h {:trigger FiledAt(t0, t, fns, covers, i, h)} :: h in t ==> FiledAt(t0, t, fns, covers, i, h)
  }

  ghost predicate FiledAt(t0: Table, t: Table, fns: seq<Fn>, covers: seq<KCover>, i: nat, h: Fn)
    requires i <= |fns| == |covers| && h in t
  {
    && t[h].covers == (if h in t0 then t0[h].covers else {}) + CoversOfClass(t, fns, covers, i, h)
    && t[h].nodes == (if h in t0 then t0[h].nodes else {}) + RootsOfClass(t, fns, covers, i, h)
  }

  /** A canonical entry that was not there before is in no earlier cover's class. */
  lemma NewClassIsEmpty(t: Table, t': Table, fns: seq<Fn>, marks: seq<Mark>, i: nat, h: Fn)
    requires TableOk(t) && TableOk(t') && Keeps(t, t') && i <= |fns| == |marks|
    requires SettledUpTo(t, fns, marks, i) && h in t' && h !in t && t'[h].canonical == h
    ensures forall k :: 0 <= k < i ==> !EqualUpToPermutation(h, fns[k])
  {
    forall k | 0 <= k < i ensures !EqualUpToPermutation(h, fns[k]) {
      assert EntryOk(t, fns[k]);
      SameClassIff(t', h, fns[k]);
    }
  }

  lemma SameClassOneMore(t: Table, t': Table, fns: seq<Fn>, covers: seq<KCover>, marks: seq<Mark>, i: nat, h: Fn)
    requires TableOk(t) && TableOk(t') && Keeps(t, t') && i < |fns| == |covers| == |marks|
    requires SettledUpTo(t, fns, marks, i) && fns[i] in t' && h in t'
    ensures CoversOfClass(t', fns, covers, i + 1, h) ==
            (if h in t then CoversOfClass(t, fns, covers, i, h) else {}) +
            (if h == t'[fns[i]].canonical then {covers[i]} else {})
    ensures RootsOfClass(t', fns, covers, i + 1, h) ==
            (if h in t then RootsOfClass(t, fns, covers, i, h) else {}) +
            (if h == t'[fns[i]].canonical then {covers[i].root} else {})
  {
    assert EntryOk(t', fns[i]);
    SameClassIff(t', h, fns[i]);
    assert t'[h].canonical == h && EqualUpToPermutation(h, fns[i]) <==> h == t'[fns[i]].canonical;
    if h !in t && t'[h].canonical == h { NewClassIsEmpty(t, t', fns, marks, i, h); }
  }

  lemma FiledNext(t0: Table, t: Table, t': Table, fns: seq<Fn>, covers: seq<KCover>, marks: seq<Mark>, i: nat)
    requires TableOk(t) && TableOk(t') && Keeps(t0, t) && Keeps(t, t') && i < |fns| == |covers| == |marks|
    requires SettledUpTo(t, fns, marks, i) && FiledUpTo(t0, t, fns, covers, i) && fns[i] in t'
    requires FilesOnly(t, t', t'[fns[i]].canonical, covers[i].root, covers[i])
    ensures FiledUpTo(t0, t', fns, covers, i + 1)
  {
    forall h | h in t' ensures FiledAt(t0, t', fns, covers, i + 1, h) {
      SameClassOneMore(t, t', fns, covers, marks, i, h);
      assert FilesOnlyAt(t, t', t'[fns[i]].canonical, covers[i].root, covers[i], h);
      if h in t { assert FiledAt(t0, t, fns, covers, i, h); }
      FiledAtNext(t0, t, t', fns, covers, i, h);
    }
  }

  lemma FiledAll(t0: Table, t: Table, fns: seq<Fn>, covers: seq<KCover>)
    requires |fns| == |covers| && FiledUpTo(t0, t, fns, covers, |covers|)
    ensures forall h :: h in t ==>
              t[h].covers == (if h in t0 then t0[h].covers else {}) +
                set k | 0 <= k < |covers| && t[h].canonical == h && EqualUpToPermutation(h, fns[k]) :: covers[k]
    ensures forall h :: h in t ==>
              t[h].nodes == (if h in t0 then t0[h].nodes else {}) +
                set k | 0 <= k < |covers| && t[h].canonical == h && EqualUpToPermutation(h, fns[k]) :: covers[k].root
  {
    forall h | h in t
      ensures t[h].covers == (if h in t0 then t0[h].covers else {}) +
                set k | 0 <= k < |covers| && t[h].canonical == h && EqualUpToPermutation(h, fns[k]) :: covers[k]
      ensures t[h].nodes == (if h in t0 then t0[h].nodes else {}) +
                set k | 0 <= k < |covers| && t[h].canonical == h && EqualUpToPermutation(h, fns[k]) :: covers[k].root
    {
      assert FiledAt(t0, t, fns, covers, |covers|, h);
    }
  }

  lemma FiledAtNext(t0: Table, t: Table, t': Table, fns: seq<Fn>, covers: seq<KCover>, i: nat, h: Fn)
    requires i < |fns| == |covers| && h in t' && (h in t0 ==> h in t) && fns[i] in t'
    requires h in t ==> FiledAt(t0, t, fns, covers, i, h)
    requires FilesOnlyAt(t, t', t'[fns[i]].canonical, covers[i].root, covers[i], h)
    requires CoversOfClass(t', fns, covers, i + 1, h) ==
             (if h in t then CoversOfClass(t, fns, covers, i, h) else {}) +
             (if h == t'[fns[i]].canonical then {covers[i]} else {})
    requires RootsOfClass(t', fns, covers, i + 1, h) ==
             (if h in t then RootsOfClass(t, fns, covers, i, h) else {}) +
             (if h == t'[fns[i]].canonical then {covers[i].root} else {})
    ensures FiledAt(t0, t', fns, covers, i + 1, h)
  {
  }

  /** The first `i` covers have been entered since the table was `t0`. */
  ghost predicate Entered(t0: Table, t: Table, fns: seq<Fn>, covers: seq<KCover>, marks: seq<Mark>, fates: seq<Fate>,
      i: nat)
  {
    && i <= |covers| == |fns| == |marks| == |fates| && Keeps(t0, t) && OnlyFormsOf(t0, t, fns, i)
    && SettledUpTo(t, fns, marks, i) && CarriedUpTo(t, fns, covers, marks, fates, i)
    && FiledUpTo(t0, t, fns, covers, i)
  }

  lemma KnownIff(t0: Table, t: Table, fns: seq<Fn>, marks: seq<Mark>, i: nat)
    requires TableOk(t) && Keeps(t0, t) && i < |fns| == |marks| && OnlyFormsOf(t0, t, fns, i)
    requires SettledUpTo(t, fns, marks, i)
    ensures fns[i] in t <==> KnownBefore(t0, fns, i)
  {
    if fns[i] in t && fns[i] !in t0 {
      assert InClassOfOne(t, fns, i, fns[i]);
      var j :| 0 <= j < i && fns[j] in t && t[fns[j]].canonical == t[fns[i]].canonical;
      SameClassIff(t, fns[j], fns[i]);
    }
    if j :| 0 <= j < i && EqualUpToPermutation(fns[j], fns[i]) {
      var p :| IsPerm(p) && |p| == fns[j].arity && fns[i] == Permute(fns[j], p);
      PermutedInTable(t, fns[j], p);
    }
  }

  lemma OnlyFormsNext(t0: Table, t: Table, t': Table, fns: seq<Fn>, i: nat)
    requires i < |fns| && OnlyFormsOf(t0, t, fns, i) && AddsFormsOf(t, t', fns[i]) && Keeps(t, t')
    ensures OnlyFormsOf(t0, t', fns, i + 1)
  {
    forall h | h in t' && h !in t0 ensures InClassOfOne(t', fns, i + 1, h) {
      if h in t { assert InClassOfOne(t, fns, i, h); }
    }
  }

  lemma SettledNext(t: Table, t': Table, fns: seq<Fn>, covers: seq<KCover>, marks: seq<Mark>, marks': seq<Mark>,
      i: nat)
    requires OnlyMarks(fns, covers, marks, marks', i) && Keeps(t, t') && SettledUpTo(t, fns, marks, i)
    requires fns[i] in t' && marks'[i].canonical == t'[fns[i]].canonical
    ensures SettledUpTo(t', fns, marks', i + 1)
  {
  }

  lemma NoneEntered(t: Table, fns: seq<Fn>, covers: seq<KCover>, marks: seq<Mark>, fates: seq<Fate>)
    requires |covers| == |fns| == |marks| == |fates|
    ensures Entered(t, t, fns, covers, marks, fates, 0)
  {
    forall h | h in t ensures FiledAt(t, t, fns, covers, 0, h) {}
  }

  lemma CarriesStays(t: Table, t': Table, f: Fn, m: Mark, fate: Fate)
    requires Keeps(t, t') && Carries(t, f, m, fate)
    ensures Carries(t', f, m, fate)
  {
  }

  /** Only the marks of cover `i` change from `marks` to `marks'`. */
  ghost predicate OnlyMarks(fns: seq<Fn>, covers: seq<KCover>, marks: seq<Mark>, marks': seq<Mark>, i: nat) {
    && i < |covers| == |fns| == |marks| == |marks'|
    && (forall k :: 0 <= k < |covers| && covers[k] != covers[i] ==> marks'[k] == marks[k])
    && (forall k :: 0 <= k < |covers| && covers[k] == covers[i] ==> marks'[k] == marks'[i] && fns[k] == fns[i])
  }

  lemma CarriedNext(t: Table, t': Table, fns: seq<Fn>, covers: seq<KCover>, marks: seq<Mark>, marks': seq<Mark>,
      fates: seq<Fate>, i: nat)
    requires OnlyMarks(fns, covers, marks, marks', i) && |fates| == |fns| && Keeps(t, t')
    requires CarriedUpTo(t, fns, covers, marks, fates, i) && Carries(t', fns[i], marks'[i], fates[i])
    ensures CarriedUpTo(t', fns, covers, marks', fates, i + 1)
  {
    var n := i + 1;
    forall k: nat | k < i ensures CarriedAt(t', fns, covers, marks', fates, n, k) {
      CarriedStays(t, t', fns, covers, marks, marks', fates, i, k);
    }
  }

  lemma CarriedStays(t: Table, t': Table, fns: seq<Fn>, covers: seq<KCover>, marks: seq<Mark>, marks': seq<Mark>,
      fates: seq<Fate>, i: nat, k: nat)
    requires k < i && OnlyMarks(fns, covers, marks, marks', i) && |fates| == |fns| && Keeps(t, t')
    requires CarriedAt(t, fns, covers, marks, fates, i, k)
    ensures CarriedAt(t', fns, covers, marks', fates, i + 1, k)
  {
    if IsLast(covers, k, i + 1) {
      CarriesStays(t, t', fns[k], marks[k], fates[k]);
    }
  }

  /** Entering cover `i`, which changes what that cover carries and nothing else. */
  lemma EnteredNext(t0: Table, t: Table, t': Table, fns: seq<Fn>, covers: seq<KCover>, marks: seq<Mark>,
      marks': seq<Mark>, i: nat)
    requires TableOk(t) && Entered(t0, t, fns, covers, marks, Fates(t0, fns), i)
    requires OnlyMarks(fns, covers, marks, marks', i) && Keeps(t, t') && AddsFormsOf(t, t', fns[i])
    requires Carries(t', fns[i], marks'[i], if fns[i] in t then Stored else Opened(OpeningPerm(fns[i])))
    requires TableOk(t') && FilesOnly(t, t', marks'[i].canonical, covers[i].root, covers[i])
    ensures Entered(t0, t', fns, covers, marks', Fates(t0, fns), i + 1)
  {
    var fates := Fates(t0, fns);
    assert CarriedUpTo(t', fns, covers, marks', fates, i + 1) by {
      KnownIff(t0, t, fns, marks, i);
      assert fates[i] == FateOf(t0, fns, i);
      CarriedNext(t, t', fns, covers, marks, marks', fates, i);
    }
    assert SettledUpTo(t', fns, marks', i + 1) by { SettledNext(t, t', fns, covers, marks, marks', i); }
    assert OnlyFormsOf(t0, t', fns, i + 1) by { OnlyFormsNext(t0, t, t', fns, i); }
    assert FiledUpTo(t0, t', fns, covers, i + 1) by { FiledNext(t0, t, t', fns, covers, marks, i); }
    KeepsTransitive(t0, t, t');
  }

  /** Two covers carry the same canonical function exactly when theirs are equal up to a permutation. */
  ghost predicate Classified(fns: seq<Fn>, marks: seq<Mark>)
    requires |fns| == |marks|
  {
    forall i, j :: 0 <= i < |fns| && 0 <= j < |fns| ==>
      (marks[i].canonical == marks[j].canonical <==> EqualUpToPermutation(fns[i], fns[j]))
  }

  lemma EnteredIsClassified(t0: Table, t: Table, fns: seq<Fn>, covers: seq<KCover>, marks: seq<Mark>,
      fates: seq<Fate>)
    requires TableOk(t) && Entered(t0, t, fns, covers, marks, fates, |covers|)
    ensures Classified(fns, marks)
  {
    forall i, j | 0 <= i < |fns| && 0 <= j < |fns|
      ensures marks[i].canonical == marks[j].canonical <==> EqualUpToPermutation(fns[i], fns[j])
    {
      SameClassIff(t, fns[i], fns[j]);
    }
  }

  // ---- the table ----

  class FunctionTable {
    const g: Graph
    ghost const rank: seq<nat>
    var bdds: Table

    ghost predicate Valid()
      reads this
    {
      g.Valid() && g.RankedBy(rank) && TableOk(bdds)
    }

    ghost predicate IsCover(c: KCover)
      requires g.Valid() && g.RankedBy(rank)
      reads c`leaves
    {
      c.root < |g.nodes| && Distinct(c.leaves) && CutOff(g, rank, c.leaves, c.root)
    }

    ghost function FnOf(c: KCover): (f: Fn)
      requires g.Valid() && g.RankedBy(rank) && IsCover(c)
      reads c`leaves
      ensures f.Valid() && f.arity == |c.leaves|
    {
      GetFn(g, rank, c.leaves, c.root)
    }

    /** Enters a cover. Entries are never changed except that the canonical one learns of the cover. */
    method CreateFunction(cover: KCover)
      requires Valid() && IsCover(cover)
      modifies this`bdds, cover`perm, cover`canonical
      ensures Valid()
      ensures Keeps(old(bdds), bdds) && AddsFormsOf(old(bdds), bdds, FnOf(cover))
      ensures FnOf(cover) in bdds && cover.canonical == bdds[FnOf(cover)].canonical && cover.canonical in bdds
      ensures forall h :: h in bdds ==>
                bdds[h].covers == (if h in old(bdds) then old(bdds)[h].covers else {}) +
                                  (if h == cover.canonical then {cover} else {})
      ensures forall h :: h in bdds ==>
                bdds[h].nodes == (if h in old(bdds) then old(bdds)[h].nodes else {}) +
                                 (if h == cover.canonical then {cover.root} else {})
      ensures FnOf(cover) in old(bdds) ==> cover.perm == bdds[FnOf(cover)].permutation
      ensures FnOf(cover) !in old(bdds) ==>
                cover.canonical == FnOf(cover) && cover.perm == OpeningPerm(FnOf(cover))
    {
      var fn := GetFn(g, rank, cover.leaves, cover.root);
      if fn in bdds {
        assert EntryOk(bdds, fn);
        var c := bdds[fn].canonical;
        var e := bdds[c];
        RegisteringKeepsTable(bdds, c, cover.root, cover);
        RegisteringFiles(bdds, c, cover.root, cover);
        bdds := bdds[c := e.(nodes := e.nodes + {cover.root}, covers := e.covers + {cover})];
        cover.canonical := c;
        cover.perm := bdds[fn].permutation;
      } else {
        OpenClass(cover, fn);
      }
      FiledMeans(old(bdds), bdds, cover.canonical, cover.root, cover);
    }

    /** The function of the cover that has the leaves of `cover` in another order. */
    method PermutedFn(cover: KCover, perm: Perm) returns (b: Fn)
      requires g.Valid() && g.RankedBy(rank) && IsCover(cover) && IsPerm(perm) && |perm| == |cover.leaves|
      ensures b == Permute(FnOf(cover), perm)
    {
      var cov := new KCover(cover.root);
      ghost var leaves := Gather(cover.leaves, perm);
      GatherAt(cover.leaves, perm);
      IsPermIffOneToOne(perm);
      for i := 0 to |perm|
        invariant cov.leaves == leaves[..i]
      {
        assert cover.leaves[perm[i]] !in leaves[..i];
        cov.AddLeaf(cover.leaves[perm[i]]);
        OneLeafMore(leaves[..i], cov.leaves, cover.leaves[perm[i]]);
      }
      assert cov.leaves == leaves;
      GatherGetFn(g, rank, cover.leaves, perm, cover.root);
      b := GetFn(g, rank, cov.leaves, cov.root);
    }

    /** The class of `cover` is open for the first `k` permutations, and `cover` is its first member. */
    ghost predicate Opened(t0: Table, cover: KCover, fn: Fn, perms: seq<Perm>, k: nat)
      requires 1 <= k <= |perms|
      reads this, cover
    {
      && g.Valid() && g.RankedBy(rank) && IsCover(cover) && FnOf(cover) == fn
      && Opening(t0, bdds, fn, perms, k)
      && bdds[fn].covers == {cover} && bdds[fn].nodes == {cover.root}
      && cover.canonical == fn && cover.perm == perms[LastNew(fn, perms, k)]
    }

    /** The first permutation, the identity, gives the canonical entry. */
    method VisitIdentity(cover: KCover, fn: Fn, perms: seq<Perm>)
      requires Valid() && IsCover(cover) && fn == FnOf(cover) && fn !in bdds && Lists(perms, fn.arity)
      modifies this`bdds, cover`perm, cover`canonical
      ensures Opened(old(bdds), cover, fn, perms, 1)
    {
      var e := Info(perms[0], fn, {cover.root}, {cover});
      OpeningFirst(bdds, fn, perms, e);
      bdds := bdds[fn := e];
      cover.canonical := fn;
      cover.perm := perms[0];
    }

    method VisitPermutation(ghost t0: Table, cover: KCover, fn: Fn, perms: seq<Perm>, k: nat)
      requires 1 <= k < |perms| && Lists(perms, fn.arity) && TableOk(t0) && fn !in t0
      requires Opened(t0, cover, fn, perms, k)
      modifies this`bdds, cover`perm
      ensures Opened(t0, cover, fn, perms, k + 1)
    {
      var b := PermutedFn(cover, perms[k]);
      OpeningStep(t0, bdds, fn, perms, k, b);
      if b !in bdds {
        bdds := bdds[b := Info(perms[k], fn, {}, {})];
        cover.perm := perms[k];
      }
    }

    /** Adds one entry for every form the function of `cover` takes under a permutation of the leaves. */
    method OpenClass(cover: KCover, fn: Fn)
      requires Valid() && IsCover(cover) && fn == FnOf(cover) && fn !in bdds
      modifies this`bdds, cover`perm, cover`canonical
      ensures Valid() && Keeps(old(bdds), bdds) && AddsFormsOf(old(bdds), bdds, fn)
      ensures fn in bdds && bdds[fn].canonical == fn == cover.canonical
      ensures FilesOnly(old(bdds), bdds, fn, cover.root, cover)
      ensures cover.perm == OpeningPerm(fn)
    {
      var perms := AllPermutations(fn.arity);
      AllPermutationsList(fn.arity);
      VisitIdentity(cover, fn, perms);
      for k := 1 to |perms|
        invariant Opened(old(bdds), cover, fn, perms, k)
      {
        VisitPermutation(old(bdds), cover, fn, perms, k);
      }
      OpenedTableOk(old(bdds), bdds, fn, perms);
      OpeningKeeps(old(bdds), bdds, fn, perms, |perms|);
      OpeningFiles(old(bdds), bdds, fn, perms, |perms|, cover.root, cover);
    }

    /** `fns` are the functions of the covers. */
    ghost predicate AreFnsOf(fns: seq<Fn>, covers: seq<KCover>)
      requires g.Valid() && g.RankedBy(rank)
      reads covers`leaves
    {
      |fns| == |covers| && forall k :: 0 <= k < |covers| ==> IsCover(covers[k]) && fns[k] == FnOf(covers[k])
    }

    /** `marks` are what the covers carry. */
    static ghost predicate AreMarksOf(marks: seq<Mark>, covers: seq<KCover>)
      reads covers`perm, covers`canonical
    {
      |marks| == |covers| &&
      forall k :: 0 <= k < |covers| ==> marks[k].canonical == covers[k].canonical && marks[k].perm == covers[k].perm
    }

    /** What the covers carry after `cover` has been entered. */
    static ghost function MarksAfter(marks: seq<Mark>, covers: seq<KCover>, cover: KCover, m: Mark): (marks': seq<Mark>)
      requires |marks| == |covers|
      ensures |marks'| == |covers|
      ensures forall k :: 0 <= k < |covers| ==> marks'[k] == if covers[k] == cover then m else marks[k]
    {
      seq(|covers|, k requires 0 <= k < |covers| => if covers[k] == cover then m else marks[k])
    }

    /** The first `i` covers have been entered since the table was `t0`. */
    ghost predicate Entering(t0: Table, fns: seq<Fn>, covers: seq<KCover>, marks: seq<Mark>, i: nat)
      reads this, covers
    {
      && Valid() && AreFnsOf(fns, covers) && AreMarksOf(marks, covers)
      && Entered(t0, bdds, fns, covers, marks, Fates(t0, fns), i)
    }

    method EnterNext(ghost t0: Table, ghost fns: seq<Fn>, ghost covers: seq<KCover>, ghost marks: seq<Mark>,
        cover: KCover, ghost i: nat, ghost next: nat) returns (ghost marks': seq<Mark>)
      requires Entering(t0, fns, covers, marks, i) && i < |covers| && covers[i] == cover && next == i + 1
      modifies this`bdds, cover`perm, cover`canonical
      ensures Entering(t0, fns, covers, marks', next)
    {
      ghost var before := bdds;
      CreateFunction(cover);
      marks' := MarksAfter(marks, covers, cover, Mark(cover.canonical, cover.perm));
      EnteredNext(t0, before, bdds, fns, covers, marks, marks', i);
    }

    /** Enters covers one after the other. Two of them end up with the same canonical function exactly
        when their functions are equal up to a permutation of the inputs. A cover whose function, up to a
        permutation, is not the first of its kind carries the permutation stored for it; the one that opens a
        class carries the one visited last. */
    method CreateFunctions(covers: seq<KCover>, ghost fns: seq<Fn>, ghost marks: seq<Mark>)
        returns (ghost marks': seq<Mark>)
      requires Valid() && AreFnsOf(fns, covers) && AreMarksOf(marks, covers)
      modifies this`bdds, covers`perm, covers`canonical
      ensures Valid() && AreFnsOf(fns, covers) && AreMarksOf(marks', covers) && Classified(fns, marks')
      ensures Entered(old(bdds), bdds, fns, covers, marks', Fates(old(bdds), fns), |covers|)
      ensures forall h :: h in bdds ==>
                bdds[h].covers == (if h in old(bdds) then old(bdds)[h].covers else {}) +
                  set k | 0 <= k < |covers| && bdds[h].canonical == h && EqualUpToPermutation(h, fns[k]) :: covers[k]
      ensures forall h :: h in bdds ==>
                bdds[h].nodes == (if h in old(bdds) then old(bdds)[h].nodes else {}) +
                  set k | 0 <= k < |covers| && bdds[h].canonical == h && EqualUpToPermutation(h, fns[k]) ::
                    covers[k].root
    {
      NoneEntered(bdds, fns, covers, marks, Fates(bdds, fns));
      marks' := EnterAll(covers, fns, marks);
      FiledAll(old(bdds), bdds, fns, covers);
      EnteredIsClassified(old(bdds), bdds, fns, covers, marks', Fates(old(bdds), fns));
    }

    method EnterAll(covers: seq<KCover>, ghost fns: seq<Fn>, ghost marks: seq<Mark>) returns (ghost marks': seq<Mark>)
      requires Entering(bdds, fns, covers, marks, 0)
      modifies this`bdds, covers`perm, covers`canonical
      ensures Entering(old(bdds), fns, covers, marks', |covers|)
    {
      ghost var t0 := bdds;
      marks' := marks;
      var i := 0;
      while i < |covers|
        invariant 0 <= i <= |covers|
        invariant Entering(t0, fns, covers, marks', i)
      {
        var next := i + 1;
        marks' := EnterNext(t0, fns, covers, marks', covers[i], i, next);
        i := next;
      }
    }
  }

  // ---- slices ----

  /** The inputs of a cover in the order of its class. */
  class Bitslice {
    var xs: seq<nat>
    var ys: seq<nat>

    constructor (cover: KCover)
      requires IsPerm(cover.perm) && |cover.perm| == |cover.leaves|
      ensures xs == Spread(cover.leaves, cover.perm) && ys == [cover.root]
    {
      var perm, n := cover.perm, |cover.leaves|;
      InverseAt(perm);
      SpreadAt(cover.leaves, perm);
      var inputs: seq<nat> := [];
      for i := 0 to n
        invariant inputs == Spread(cover.leaves, perm)[..i]
      {
        for j := 0 to n
          invariant inputs == Spread(cover.leaves, perm)[..if Inverse(perm)[i] < j then i + 1 else i]
        {
          if perm[j] == i {
            inputs := inputs + [cover.leaves[j]];
          }
        }
      }
      xs, ys := inputs, [cover.root];
    }
  }

  lemma PickSpread(v: Bits, s: seq<nat>, p: Perm)
    requires IsPerm(p) && |p| == |s| && forall i :: 0 <= i < |s| ==> s[i] < |v|
    ensures forall i :: 0 <= i < |s| ==> Spread<nat>(s, p)[i] < |v|
    ensures Pick(v, Spread<nat>(s, p)) == Spread(Pick(v, s), p)
  {
    SpreadAt<nat>(s, p);
    SpreadAt(Pick(v, s), p);
  }

  lemma PickGather(v: Bits, s: seq<nat>, q: Perm)
    requires IsPerm(q) && |q| == |s| && forall i :: 0 <= i < |s| ==> s[i] < |v|
    ensures forall i :: 0 <= i < |Gather<nat>(s, q)| ==> Gather<nat>(s, q)[i] < |v|
    ensures Pick(v, Gather<nat>(s, q)) == Gather(Pick(v, s), q)
  {
    GatherAt<nat>(s, q);
    GatherAt(Pick(v, s), q);
  }

  /** Applying a permuted function to permuted arguments is applying the function. */
  lemma PermuteApplyGather(f: Fn, q: Perm, ys: Bits)
    requires IsPerm(q) && |q| == |ys| == f.arity
    ensures Permute(f, q).Apply(Gather(ys, q)) == f.Apply(ys)
  {
    PermuteApply(f, q, Gather(ys, q));
    SpreadGather(ys, q);
  }

  /** The canonical function of a cover's class, applied to the slice inputs, gives the root's value. */
  lemma SliceGivesRoot(g: Graph, rank: seq<nat>, env: Bits, leaves: seq<nat>, root: nat, c: Fn, p: Perm)
    requires g.Valid() && g.RankedBy(rank) && |env| == |g.nodes| && root < |g.nodes|
    requires CutOff(g, rank, leaves, root)
    requires forall i :: 0 <= i < |leaves| ==> leaves[i] < |g.nodes|
    requires IsPerm(p) && |p| == |leaves| == c.arity && GetFn(g, rank, leaves, root) == Permute(c, p)
    ensures forall i :: 0 <= i < |leaves| ==> Spread<nat>(leaves, p)[i] < |g.nodes|
    ensures c.Apply(Pick(Values(g, env), Spread<nat>(leaves, p))) == Values(g, env)[root]
  {
    var v := Values(g, env);
    PickSpread(v, leaves, p);
    PermuteApply(c, p, Pick(v, leaves));
    CutValueIsNodeValue(g, rank, env, leaves, root);
  }

  /** For a cover whose permutation is the one stored for its function, and any query in the same
      class: the query applied to the slice inputs, taken in the query's stored order, gives the value
      of the cover's root. So a position the query calls select or data is that in every slice. */
  lemma SliceIsAligned(t: Table, g: Graph, rank: seq<nat>, env: Bits, leaves: seq<nat>, root: nat, query: Fn)
    requires TableOk(t) && g.Valid() && g.RankedBy(rank) && |env| == |g.nodes| && root < |g.nodes|
    requires CutOff(g, rank, leaves, root)
    requires forall i :: 0 <= i < |leaves| ==> leaves[i] < |g.nodes|
    requires GetFn(g, rank, leaves, root) in t && query in t
    requires t[query].canonical == t[GetFn(g, rank, leaves, root)].canonical
    ensures var f := GetFn(g, rank, leaves, root);
            && EntryOk(t, f) && EntryOk(t, query) && query.arity == f.arity
            && var xs := Gather<nat>(Spread<nat>(leaves, t[f].permutation), t[query].permutation);
               && (forall i :: 0 <= i < |xs| ==> xs[i] < |g.nodes|)
               && query.Apply(Pick(Values(g, env), xs)) == Values(g, env)[root]
  {
    var f := GetFn(g, rank, leaves, root);
    assert EntryOk(t, f) && EntryOk(t, query);
    var c, p, q := t[f].canonical, t[f].permutation, t[query].permutation;
    SliceGivesRoot(g, rank, env, leaves, root, c, p);
    var slice := Spread<nat>(leaves, p);
    PickGather(Values(g, env), slice, q);
    PermuteApplyGather(c, q, Pick(Values(g, env), slice));
  }

  // ---- the cover that opens a class ----

  /** With permutation `p`, whatever values the leaves take, the slice carries arguments of `f` that
      give the value of the root. */
  ghost predicate AlignedWith(f: Fn, p: Perm)
    requires IsPerm(p) && |p| == f.arity
  {
    forall zs :: |zs| == f.arity ==> f.Apply(Spread(zs, p)) == f.Apply(zs)
  }

  lemma AlignedIffSameForm(f: Fn, p: Perm)
    requires f.Valid() && IsPerm(p) && |p| == f.arity
    ensures AlignedWith(f, p) <==> Permute(f, p) == f
  {
    forall zs: Bits | |zs| == f.arity ensures Permute(f, p).Apply(zs) == f.Apply(Spread(zs, p)) {
      PermuteApply(f, p, zs);
    }
    if AlignedWith(f, p) {
      SameFunction(Permute(f, p), f);
    }
  }

  lemma {:induction false} NoNewFormMeansSame(f: Fn, ps: seq<Perm>, k: nat)
    requires f.Valid() && Lists(ps, f.arity) && k < |ps|
    requires forall i :: 0 < i < |ps| ==> !NewForm(f, ps, i)
    ensures Permute(f, ps[k]) == f
  {
    if k == 0 {
      PermuteIdentity(f);
    } else {
      assert !NewForm(f, ps, k);
      var j :| 0 <= j < k && SameForm(f, ps[j], ps[k]);
      NoNewFormMeansSame(f, ps, j);
    }
  }

  /** The first cover of a class keeps the permutation stored last, and that lines up its slice with
      the class only when the order of the arguments does not matter at all. */
  lemma OpeningCoverAlignedIff(f: Fn)
    requires f.Valid()
    ensures IsPerm(OpeningPerm(f)) && |OpeningPerm(f)| == f.arity
    ensures AlignedWith(f, OpeningPerm(f)) <==> Symmetric(f)
  {
    var ps := AllPermutations(f.arity);
    AllPermutationsList(f.arity);
    var last := LastNew(f, ps, |ps|);
    AlignedIffSameForm(f, ps[last]);
    PermuteIdentity(f);
    if last == 0 {
      forall p | IsPerm(p) && |p| == f.arity ensures Permute(f, p) == f {
        assert p in ps;
        var k :| 0 <= k < |ps| && ps[k] == p;
        NoNewFormMeansSame(f, ps, k);
      }
    } else {
      assert !SameForm(f, ps[0], ps[last]);
    }
  }

  /** Not so for a two-input function that tells its inputs apart, such as an AND with one of them
      complemented: the slice of the first such cover has its inputs exchanged. */
  lemma OpeningCoverMisaligned(f: Fn)
    requires f.Valid() && f.arity == 2 && f.Apply([true, false]) != f.Apply([false, true])
    ensures IsPerm(OpeningPerm(f)) && |OpeningPerm(f)| == f.arity
    ensures !AlignedWith(f, OpeningPerm(f))
  {
    OpeningCoverAlignedIff(f);
    TellsInputsApart(f);
  }

  lemma TellsInputsApart(f: Fn)
    requires f.Valid() && f.arity == 2 && f.Apply([true, false]) != f.Apply([false, true])
    ensures !Symmetric(f)
  {
    var swap := [1, 0];
    IsPermIffOneToOne(swap);
    GatherAt([true, false], swap);
    assert Gather([true, false], swap) == [false, true];
    PermuteApplyGather(f, swap, [true, false]);
    assert Permute(f, swap) != f;
  }

  // ---- from a cover to its slice ----

  ghost predicate AreNodes(g: Graph, ids: seq<nat>) {
    forall i :: 0 <= i < |ids| ==> ids[i] < |g.nodes|
  }

  /** The query, given the slice inputs in its stored order, has the value of the root. */
  ghost predicate Serves(t: Table, g: Graph, env: Bits, slice: seq<nat>, root: nat, query: Fn)
    requires g.Valid() && g.Acyclic() && |env| == |g.nodes| && root < |g.nodes| && AreNodes(g, slice)
  {
    && query in t && IsPerm(t[query].permutation) && |t[query].permutation| == |slice|
    && var xs := Gather<nat>(slice, t[query].permutation);
       AreNodes(g, xs) && query.Apply(Pick(Values(g, env), xs)) == Values(g, env)[root]
  }

  lemma CanonicalServesQuery(t: Table, g: Graph, env: Bits, slice: seq<nat>, root: nat, query: Fn)
    requires TableOk(t) && g.Valid() && g.Acyclic() && |env| == |g.nodes| && root < |g.nodes| && AreNodes(g, slice)
    requires query in t && t[query].canonical.arity == |slice|
    requires t[query].canonical.Apply(Pick(Values(g, env), slice)) == Values(g, env)[root]
    ensures Serves(t, g, env, slice, root, query)
  {
    assert EntryOk(t, query);
    PickGather(Values(g, env), slice, t[query].permutation);
    PermuteApplyGather(t[query].canonical, t[query].permutation, Pick(Values(g, env), slice));
  }

  /** The slice of a cover that opened its class gives the root's value if its function is symmetric. */
  lemma OpeningSliceGivesRoot(g: Graph, rank: seq<nat>, env: Bits, leaves: seq<nat>, root: nat)
    requires g.Valid() && g.RankedBy(rank) && |env| == |g.nodes| && root < |g.nodes|
    requires CutOff(g, rank, leaves, root) && AreNodes(g, leaves) && Symmetric(GetFn(g, rank, leaves, root))
    ensures var f := GetFn(g, rank, leaves, root);
            && IsPerm(OpeningPerm(f)) && |OpeningPerm(f)| == |leaves|
            && AreNodes(g, Spread<nat>(leaves, OpeningPerm(f)))
            && f.Apply(Pick(Values(g, env), Spread<nat>(leaves, OpeningPerm(f)))) == Values(g, env)[root]
  {
    var f := GetFn(g, rank, leaves, root);
    OpeningCoverAlignedIff(f);
    PickSpread(Values(g, env), leaves, OpeningPerm(f));
    CutValueIsNodeValue(g, rank, env, leaves, root);
    assert f.Apply(Pick(Values(g, env), leaves)) == Values(g, env)[root];
  }

  /** What a cover of function `f` carries lines it up with its class. */
  ghost predicate LinesUp(f: Fn, fate: Fate) {
    fate == Stored || (f.Valid() && Symmetric(f) && fate == Opened(OpeningPerm(f)))
  }

  /** A slice made with what such a cover carries serves every query of its class. */
  lemma MarkServes(t: Table, g: Graph, rank: seq<nat>, leaves: seq<nat>, root: nat, m: Mark, fate: Fate, env: Bits,
      query: Fn)
    requires TableOk(t) && g.Valid() && g.RankedBy(rank) && |env| == |g.nodes| && root < |g.nodes|
    requires CutOff(g, rank, leaves, root) && AreNodes(g, leaves)
    requires Carries(t, GetFn(g, rank, leaves, root), m, fate) && LinesUp(GetFn(g, rank, leaves, root), fate)
    requires query in t && t[query].canonical == m.canonical
    ensures IsPerm(m.perm) && |m.perm| == |leaves| && AreNodes(g, Spread<nat>(leaves, m.perm))
    ensures Serves(t, g, env, Spread<nat>(leaves, m.perm), root, query)
  {
    var f := GetFn(g, rank, leaves, root);
    assert EntryOk(t, f);
    if fate == Stored {
      SliceGivesRoot(g, rank, env, leaves, root, m.canonical, m.perm);
    } else {
      OpeningSliceGivesRoot(g, rank, env, leaves, root);
    }
    PickSpread(Values(g, env), leaves, m.perm);
    CanonicalServesQuery(t, g, env, Spread<nat>(leaves, m.perm), root, query);
  }

  /** The inputs of the cover in the order of its class serve every query of the class. */
  ghost predicate ServesClass(t: Table, g: Graph, leaves: seq<nat>, root: nat, m: Mark)
    requires g.Valid() && g.Acyclic() && root < |g.nodes|
  {
    && IsPerm(m.perm) && |m.perm| == |leaves| && AreNodes(g, Spread<nat>(leaves, m.perm))
    && forall env, query :: |env| == |g.nodes| && query in t && t[query].canonical == m.canonical ==>
         Serves(t, g, env, Spread<nat>(leaves, m.perm), root, query)
  }

  lemma MarkServesClass(t: Table, g: Graph, rank: seq<nat>, leaves: seq<nat>, root: nat, m: Mark, fate: Fate)
    requires TableOk(t) && g.Valid() && g.RankedBy(rank) && root < |g.nodes|
    requires CutOff(g, rank, leaves, root) && AreNodes(g, leaves)
    requires Carries(t, GetFn(g, rank, leaves, root), m, fate) && LinesUp(GetFn(g, rank, leaves, root), fate)
    ensures ServesClass(t, g, leaves, root, m)
  {
    MarkServes(t, g, rank, leaves, root, m, fate, seq(|g.nodes|, i => false), GetFn(g, rank, leaves, root));
    forall env: Bits, query | |env| == |g.nodes| && query in t && t[query].canonical == m.canonical
      ensures Serves(t, g, env, Spread<nat>(leaves, m.perm), root, query)
    {
      MarkServes(t, g, rank, leaves, root, m, fate, env, query);
    }
  }

  /** After a whole run, with the table as it is then: the slice of every cover, as last entered, serves every
      query of its class, unless the cover opened the class with a function that is not symmetric. */
  lemma SlicesServe(table: FunctionTable, t0: Table, fns: seq<Fn>, covers: seq<KCover>, marks: seq<Mark>)
    requires table.Entering(t0, fns, covers, marks, |covers|)
    requires forall k :: 0 <= k < |covers| ==> AreNodes(table.g, covers[k].leaves)
    ensures forall k {:trigger covers[k]} ::
              0 <= k < |covers| && IsLast(covers, k, |covers|) && (KnownBefore(t0, fns, k) || Symmetric(fns[k])) ==>
                ServesClass(table.bdds, table.g, covers[k].leaves, covers[k].root,
                            Mark(covers[k].canonical, covers[k].perm))
  {
    var n := |covers|;
    forall k | 0 <= k < n && IsLast(covers, k, n) && (KnownBefore(t0, fns, k) || Symmetric(fns[k]))
      ensures ServesClass(table.bdds, table.g, covers[k].leaves, covers[k].root,
                          Mark(covers[k].canonical, covers[k].perm))
    {
      assert CarriedAt(table.bdds, fns, covers, marks, Fates(t0, fns), n, k);
      assert Fates(t0, fns)[k] == FateOf(t0, fns, k);
      MarkServesClass(table.bdds, table.g, table.rank, covers[k].leaves, covers[k].root, marks[k], FateOf(t0, fns, k));
    }
  }

  /** A cover that joins a class, or that opens one with a symmetric function, is lined up with all queries
      of its class: entered and made into a slice, its inputs in a query's stored order give the query the
      value of the root. */
  method EnterAndSlice(table: FunctionTable, cover: KCover, ghost env: Bits, ghost query: Fn) returns (slice: Bitslice)
    requires table.Valid() && table.IsCover(cover) && AreNodes(table.g, cover.leaves) && |env| == |table.g.nodes|
    requires query in table.bdds
    modifies table`bdds, cover`perm, cover`canonical
    ensures table.Valid() && Keeps(old(table.bdds), table.bdds) && slice.ys == [cover.root]
    ensures AreNodes(table.g, slice.xs) && query in table.bdds
    ensures table.bdds[query].canonical == cover.canonical &&
            (table.FnOf(cover) in old(table.bdds) || Symmetric(table.FnOf(cover))) ==>
              Serves(table.bdds, table.g, env, slice.xs, cover.root, query)
  {
    table.CreateFunction(cover);
    ghost var f := table.FnOf(cover);
    ghost var fate := if f in old(table.bdds) then Stored else Opened(OpeningPerm(f));
    assert EntryOk(table.bdds, f);
    OpeningCoverAlignedIff(f);
    slice := new Bitslice(cover);
    PickSpread(Values(table.g, env), cover.leaves, cover.perm);
    if table.bdds[query].canonical == cover.canonical && LinesUp(f, fate) {
      MarkServes(table.bdds, table.g, table.rank, cover.leaves, cover.root, Mark(cover.canonical, cover.perm), fate,
                 env, query);
    }
  }
}
