/** The functions that tell, bit by bit, how many of their arguments are 1. */
module PopCounts {
  import opened BoolFunctions
  import opened CounterArithmetic
  import opened BitArithmetic

  const INT_MAX: nat := 0x7fff_ffff

  function CountTrue(w: Bits): (c: nat)
    ensures c <= |w|
  {
    if w == [] then 0 else (if w[0] then 1 else 0) + CountTrue(w[1..])
  }

  lemma {:induction false} CountTrueLast(w: Bits, b: bool)
    ensures CountTrue(w + [b]) == CountTrue(w) + if b then 1 else 0
  {
    if w == [] {
      assert [b][1..] == [];
    } else {
      CountTrueLast(w[1..], b);
      assert (w + [b])[1..] == w[1..] + [b];
    }
  }

  /** The number of arguments that are 1. */
  lemma {:induction false} CountTrueIs(w: Bits)
    ensures CountTrue(w) == |set i | 0 <= i < |w| && w[i]|
  {
    var ones := set i | 0 <= i < |w| && w[i];
    if w != [] {
      var n := |w| - 1;
      CountTrueIs(w[..n]);
      CountTrueLast(w[..n], w[n]);
      assert w == w[..n] + [w[n]];
      var before := set i | 0 <= i < n && w[..n][i];
      assert ones == before + if w[n] then {n} else {};
    }
  }

  // ---- ones of a number ----

  /** Bitwise and. */
  function BitAnd(a: nat, b: nat): nat {
    if a == 0 || b == 0 then 0 else 2 * BitAnd(a / 2, b / 2) + (a % 2) * (b % 2)
  }

  lemma {:induction false} BitAndIs(a: nat, b: nat, i: nat)
    ensures Bit(BitAnd(a, b), i) <==> Bit(a, i) && Bit(b, i)
  {
    if a == 0 || b == 0 {
      ZeroHasNoBit(i);
    } else {
      var r := BitAnd(a / 2, b / 2);
      var e := (a % 2) * (b % 2);
      assert e == if a % 2 == 1 && b % 2 == 1 then 1 else 0;
      assert (2 * r + e) / 2 == r && (2 * r + e) % 2 == e;
      if i > 0 { BitAndIs(a / 2, b / 2, i - 1); }
    }
  }

  lemma {:induction false} ZeroHasNoBit(i: nat)
    ensures !Bit(0, i)
  {
    if i > 0 { ZeroHasNoBit(i - 1); }
  }

  function OnesIn(num: nat): nat {
    if num == 0 then 0 else num % 2 + OnesIn(num / 2)
  }

  lemma {:induction false} BitAndSelf(a: nat)
    ensures BitAnd(a, a) == a
  {
    if a != 0 { BitAndSelf(a / 2); }
  }

  /** Anding with the predecessor clears the lowest 1 and nothing else. */
  lemma {:induction false} ClearsLowestOne(num: nat)
    requires num > 0
    ensures BitAnd(num, num - 1) < num && OnesIn(BitAnd(num, num - 1)) == OnesIn(num) - 1
  {
    var h := num / 2;
    if num % 2 == 1 {
      BitAndSelf(h);
      assert (num - 1) / 2 == h && (num - 1) % 2 == 0;
      assert BitAnd(num, num - 1) == 2 * h;
      assert (2 * h) / 2 == h;
    } else {
      ClearsLowestOne(h);
      var r := BitAnd(h, h - 1);
      assert (num - 1) / 2 == h - 1 && (num - 1) % 2 == 1;
      assert BitAnd(num, num - 1) == 2 * r;
      assert (2 * r) / 2 == r && (2 * r) % 2 == 0;
    }
  }

  method CountOnes(num: nat) returns (c: nat)
    ensures c == OnesIn(num)
  {
    c := 0;
    var rest := num;
    while rest != 0
      invariant c + OnesIn(rest) == OnesIn(num)
    {
      c := c + 1;
      ClearsLowestOne(rest);
      rest := BitAnd(rest, rest - 1);
    }
  }

  lemma {:induction false} OnesAreBits(num: nat, n: nat)
    requires num < Pow2(n)
    ensures OnesIn(num) == CountTrue(ToBits(num, n))
  {
    if n > 0 {
      OnesAreBits(num / 2, n - 1);
      assert ToBits(num, n)[1..] == ToBits(num / 2, n - 1);
    }
  }

  // ---- operations on functions ----

  function Zero(n: nat): (f: Fn)
    ensures f.Valid() && f.arity == n && forall xs :: !f.Apply(xs)
  {
    Fn(n, {})
  }

  function One(n: nat): (f: Fn)
    ensures f.Valid() && f.arity == n && forall xs :: |xs| == n ==> f.Apply(xs)
  {
    Fn(n, Vectors(n))
  }

  function Var(n: nat, pos: nat): (f: Fn)
    requires pos < n
    ensures f.Valid() && f.arity == n && forall xs :: |xs| == n ==> f.Apply(xs) == xs[pos]
  {
    Fn(n, set xs | xs in Vectors(n) && xs[pos])
  }

  function Not(f: Fn): (r: Fn)
    ensures r.Valid() && r.arity == f.arity && forall xs :: |xs| == f.arity ==> r.Apply(xs) == !f.Apply(xs)
  {
    Fn(f.arity, set xs | xs in Vectors(f.arity) && !f.Apply(xs))
  }

  function And(f: Fn, g: Fn): (r: Fn)
    requires f.Valid() && g.Valid() && f.arity == g.arity
    ensures r.Valid() && r.arity == f.arity && forall xs :: r.Apply(xs) == (f.Apply(xs) && g.Apply(xs))
  {
    Fn(f.arity, f.onset * g.onset)
  }

  function Or(f: Fn, g: Fn): (r: Fn)
    requires f.Valid() && g.Valid() && f.arity == g.arity
    ensures r.Valid() && r.arity == f.arity && forall xs :: r.Apply(xs) == (f.Apply(xs) || g.Apply(xs))
  {
    Fn(f.arity, f.onset + g.onset)
  }

  /** The function that holds for the bits of `num` only. */
  method GetCube(vars: nat, num: nat) returns (cube: Fn)
    ensures cube.Valid() && cube.arity == vars
    ensures forall xs :: |xs| == vars ==> (cube.Apply(xs) <==> xs == ToBits(num, vars))
  {
    cube := One(vars);
    var pos := 0;
    while pos != vars
      invariant 0 <= pos <= vars && cube.Valid() && cube.arity == vars
      invariant forall xs :: |xs| == vars ==> (cube.Apply(xs) <==> xs[..pos] == ToBits(num, vars)[..pos])
    {
      ToBitsAt(num, vars, pos);
      forall xs: Bits | |xs| == vars
        ensures xs[..pos + 1] == ToBits(num, vars)[..pos + 1] <==>
                  xs[..pos] == ToBits(num, vars)[..pos] && xs[pos] == Bit(num, pos)
      {
        TakeOneMore(xs, ToBits(num, vars), pos);
      }
      if Bit(num, pos) {
        cube := And(cube, Var(vars, pos));
      } else {
        cube := And(cube, Not(Var(vars, pos)));
      }
      pos := pos + 1;
    }
    forall xs: Bits | |xs| == vars ensures cube.Apply(xs) <==> xs == ToBits(num, vars) {
      assert xs[..pos] == xs && ToBits(num, vars)[..pos] == ToBits(num, vars);
    }
  }

  lemma TakeOneMore(xs: Bits, ys: Bits, pos: nat)
    requires pos < |xs| == |ys|
    ensures xs[..pos + 1] == ys[..pos + 1] <==> xs[..pos] == ys[..pos] && xs[pos] == ys[pos]
  {
    assert xs[..pos + 1] == xs[..pos] + [xs[pos]] && ys[..pos + 1] == ys[..pos] + [ys[pos]];
  }

  /** The number of bits needed to write `n`. */
  method GetBitsReq(n: nat) returns (bits: nat)
    requires 0 < n < INT_MAX / 2
    ensures 1 <= bits <= 32 && Pow2(bits - 1) <= n < Pow2(bits)
  {
    var i := 0;
    while i != 32
      invariant 0 <= i <= 32 && Pow2(i) <= n
    {
      var ls := Pow2(i);
      if ls + ls > n { return i + 1; }
      i := i + 1;
    }
    IntFits();
    assert false;
  }

  lemma Pow2EightMore(n: nat)
    ensures Pow2(n + 8) == 256 * Pow2(n)
  {
    assert Pow2(n + 4) == 2 * Pow2(n + 3) == 4 * Pow2(n + 2) == 8 * Pow2(n + 1) == 16 * Pow2(n);
    assert Pow2(n + 8) == 2 * Pow2(n + 7) == 4 * Pow2(n + 6) == 8 * Pow2(n + 5) == 16 * Pow2(n + 4);
  }

  lemma IntFits()
    ensures Pow2(32) > INT_MAX
  {
    Pow2EightMore(0);
    Pow2EightMore(8);
    Pow2EightMore(16);
    Pow2EightMore(24);
  }

  // ---- cubes collected by their number of ones ----

  predicate AnyApplies(fs: seq<Fn>, xs: Bits) {
    exists i :: 0 <= i < |fs| && fs[i].Apply(xs)
  }

  lemma AnyAppliesMore(fs: seq<Fn>, f: Fn, xs: Bits)
    ensures AnyApplies(fs + [f], xs) <==> AnyApplies(fs, xs) || f.Apply(xs)
  {
    var gs := fs + [f];
    if AnyApplies(fs, xs) {
      var i :| 0 <= i < |fs| && fs[i].Apply(xs);
      assert gs[i].Apply(xs);
    }
    if f.Apply(xs) { assert gs[|fs|].Apply(xs); }
  }

  ghost predicate Cubes(fs: seq<Fn>, n: nat) {
    forall i :: 0 <= i < |fs| ==> fs[i].Valid() && fs[i].arity == n
  }

  /** The cubes of the numbers below `num`, filed by how many ones they have. */
  ghost predicate Collected(cubes: map<nat, seq<Fn>>, n: nat, num: nat) {
    && (forall c :: c in cubes ==> Cubes(cubes[c], n))
    && (forall c, xs :: c in cubes && |xs| == n ==> CollectedAt(cubes[c], n, num, c, xs))
    && (forall xs {:trigger CountTrue(xs)} :: |xs| == n && Value(xs) < num ==> CountTrue(xs) in cubes)
  }

  ghost predicate CollectedAt(fs: seq<Fn>, n: nat, num: nat, c: nat, xs: Bits) {
    AnyApplies(fs, xs) <==> Value(xs) < num && CountTrue(xs) == c
  }

  lemma CollectedNext(cubes: map<nat, seq<Fn>>, n: nat, num: nat, cube: Fn)
    requires num < Pow2(n) && Collected(cubes, n, num) && cube.Valid() && cube.arity == n
    requires forall xs :: |xs| == n ==> (cube.Apply(xs) <==> xs == ToBits(num, n))
    ensures Collected(FileUnder(cubes, OnesIn(num), cube), n, num + 1)
  {
    var ones := OnesIn(num);
    var before := if ones in cubes then cubes[ones] else [];
    var after := FileUnder(cubes, ones, cube);
    OnesAreBits(num, n);
    forall xs: Bits | |xs| == n ensures xs == ToBits(num, n) <==> Value(xs) == num {
      ToBitsValue(num, n);
      ValueToBits(xs);
    }
    forall c, xs | c in after && |xs| == n ensures CollectedAt(after[c], n, num + 1, c, xs) {
      AnyAppliesMore(before, cube, xs);
      assert c in cubes ==> CollectedAt(cubes[c], n, num, c, xs);
    }
  }

  function FileUnder(cubes: map<nat, seq<Fn>>, ones: nat, cube: Fn): map<nat, seq<Fn>> {
    cubes[ones := (if ones in cubes then cubes[ones] else []) + [cube]]
  }

  /** The values of functions on the same arguments. */
  function Outputs(fs: seq<Fn>, xs: Bits): (r: Bits)
    ensures |r| == |fs|
  {
    seq(|fs|, i requires 0 <= i < |fs| => fs[i].Apply(xs))
  }

  /** Bit `pos` of the number of ones, for the numbers of ones in `done`. */
  ghost predicate CountsFor(fs: seq<Fn>, n: nat, done: set<nat>) {
    && Cubes(fs, n)
    && forall pos, xs :: 0 <= pos < |fs| && |xs| == n ==>
         (fs[pos].Apply(xs) <==> CountTrue(xs) in done && Bit(CountTrue(xs), pos))
  }

  /** Adds the function to the positions where the number has a 1. */
  method AddCubes(result: nat, fns: seq<Fn>, cubesum: Fn) returns (more: seq<Fn>)
    requires cubesum.Valid() && Cubes(fns, cubesum.arity)
    ensures |more| == |fns| && Cubes(more, cubesum.arity)
    ensures forall pos :: 0 <= pos < |fns| ==> more[pos] == if Bit(result, pos) then Or(fns[pos], cubesum) else fns[pos]
  {
    more := fns;
    var pos := 0;
    while pos != |fns|
      invariant 0 <= pos <= |fns| == |more| && Cubes(more, cubesum.arity)
      invariant forall p :: pos <= p < |fns| ==> more[p] == fns[p]
      invariant forall p :: 0 <= p < pos ==> more[p] == if Bit(result, p) then Or(fns[p], cubesum) else fns[p]
    {
      if Bit(result, pos) { more := more[pos := Or(more[pos], cubesum)]; }
      pos := pos + 1;
    }
  }

  method SumOf(fs: seq<Fn>, n: nat) returns (cubesum: Fn)
    requires Cubes(fs, n)
    ensures cubesum.Valid() && cubesum.arity == n && forall xs :: cubesum.Apply(xs) <==> AnyApplies(fs, xs)
  {
    cubesum := Zero(n);
    var i := 0;
    while i < |fs|
      invariant 0 <= i <= |fs| && cubesum.Valid() && cubesum.arity == n
      invariant forall xs :: cubesum.Apply(xs) <==> AnyApplies(fs[..i], xs)
    {
      forall xs ensures AnyApplies(fs[..i + 1], xs) <==> AnyApplies(fs[..i], xs) || fs[i].Apply(xs) {
        AnyAppliesMore(fs[..i], fs[i], xs);
        assert fs[..i + 1] == fs[..i] + [fs[i]];
      }
      cubesum := Or(cubesum, fs[i]);
      i := i + 1;
    }
    assert fs[..i] == fs;
  }

  method CollectCubes(n: nat) returns (cubes: map<nat, seq<Fn>>)
    ensures Collected(cubes, n, Pow2(n))
  {
    cubes := map[];
    var num := 0;
    while num < Pow2(n)
      invariant num <= Pow2(n) && Collected(cubes, n, num)
    {
      var ones := CountOnes(num);
      var cube := GetCube(n, num);
      CollectedNext(cubes, n, num, cube);
      cubes := FileUnder(cubes, ones, cube);
      num := num + 1;
    }
  }

  /** For up to 30 arguments, the widest for which 1 << n is a machine integer: as many functions as it
      takes bits to write `n`, whose values are the binary digits of the number of ones. */
  method ComputePopCountBDDs(n: nat) returns (result: seq<Fn>)
    requires 2 <= n <= 30
    ensures |result| >= 1 && Pow2(|result| - 1) <= n < Pow2(|result|) && Cubes(result, n)
    ensures forall xs :: |xs| == n ==> Value(Outputs(result, xs)) == CountTrue(xs)
    ensures forall pos, xs :: 0 <= pos < |result| && |xs| == n ==>
              (result[pos].Apply(xs) <==> |set i | 0 <= i < n && xs[i]| / Pow2(pos) % 2 == 1)
  {
    var cubes := CollectCubes(n);
    var numResultBits := GetBitsReq(n);
    result := AddAllClasses(cubes, n, numResultBits);
    AllSpellCounts(result, cubes, n);
    forall pos, xs | 0 <= pos < |result| && |xs| == n
      ensures result[pos].Apply(xs) <==> |set i | 0 <= i < n && xs[i]| / Pow2(pos) % 2 == 1
    {
      OutputIsDigit(result, cubes, n, pos, xs);
    }
  }

  lemma OutputIsDigit(fs: seq<Fn>, cubes: map<nat, seq<Fn>>, n: nat, pos: nat, xs: Bits)
    requires Collected(cubes, n, Pow2(n)) && CountsFor(fs, n, cubes.Keys) && pos < |fs| && |xs| == n
    ensures fs[pos].Apply(xs) <==> |set i | 0 <= i < n && xs[i]| / Pow2(pos) % 2 == 1
  {
    assert Value(xs) < Pow2(n) && CountTrue(xs) in cubes;
    assert fs[pos].Apply(xs) <==> CountTrue(xs) in cubes.Keys && Bit(CountTrue(xs), pos);
    CountTrueIs(xs);
    BitMeans(CountTrue(xs), pos);
  }

  method AddAllClasses(cubes: map<nat, seq<Fn>>, n: nat, numResultBits: nat) returns (result: seq<Fn>)
    requires Collected(cubes, n, Pow2(n))
    ensures |result| == numResultBits && CountsFor(result, n, cubes.Keys)
  {
    result := seq(numResultBits, i => Zero(n));
    var todo := cubes.Keys;
    while todo != {}
      invariant todo <= cubes.Keys && |result| == numResultBits && CountsFor(result, n, cubes.Keys - todo)
    {
      var c :| c in todo;
      var cubesum := SumOfClass(cubes, n, c);
      ghost var before := result;
      result := AddCubes(c, result, cubesum);
      CountsForMore(before, result, n, cubes.Keys - todo, c, cubesum);
      assert cubes.Keys - (todo - {c}) == (cubes.Keys - todo) + {c};
      todo := todo - {c};
    }
    assert cubes.Keys - todo == cubes.Keys;
  }

  /** The function that holds where exactly `c` arguments are 1. */
  method SumOfClass(cubes: map<nat, seq<Fn>>, n: nat, c: nat) returns (cubesum: Fn)
    requires Collected(cubes, n, Pow2(n)) && c in cubes
    ensures cubesum.Valid() && cubesum.arity == n
    ensures forall xs :: |xs| == n ==> (cubesum.Apply(xs) <==> CountTrue(xs) == c)
  {
    cubesum := SumOf(cubes[c], n);
    forall xs | |xs| == n ensures cubesum.Apply(xs) <==> CountTrue(xs) == c {
      assert CollectedAt(cubes[c], n, Pow2(n), c, xs);
    }
  }

  lemma AllSpellCounts(fs: seq<Fn>, cubes: map<nat, seq<Fn>>, n: nat)
    requires Collected(cubes, n, Pow2(n)) && CountsFor(fs, n, cubes.Keys) && n < Pow2(|fs|)
    ensures forall xs :: |xs| == n ==> Value(Outputs(fs, xs)) == CountTrue(xs)
  {
    forall xs: Bits | |xs| == n ensures Value(Outputs(fs, xs)) == CountTrue(xs) {
      assert Value(xs) < Pow2(n) && CountTrue(xs) in cubes;
      BitsSpellCount(fs, n, cubes.Keys, xs);
    }
  }

  lemma CountsForMore(fs: seq<Fn>, gs: seq<Fn>, n: nat, done: set<nat>, c: nat, cubesum: Fn)
    requires CountsFor(fs, n, done) && |gs| == |fs| && Cubes(gs, n) && cubesum.Valid() && cubesum.arity == n
    requires forall xs :: |xs| == n ==> (cubesum.Apply(xs) <==> CountTrue(xs) == c)
    requires forall pos :: 0 <= pos < |fs| ==> gs[pos] == if Bit(c, pos) then Or(fs[pos], cubesum) else fs[pos]
    ensures CountsFor(gs, n, done + {c})
  {
    forall pos, xs | 0 <= pos < |gs| && |xs| == n
      ensures gs[pos].Apply(xs) <==> CountTrue(xs) in done + {c} && Bit(CountTrue(xs), pos)
    {
      assert fs[pos].Apply(xs) <==> CountTrue(xs) in done && Bit(CountTrue(xs), pos);
    }
  }

  lemma BitsSpellCount(fs: seq<Fn>, n: nat, done: set<nat>, xs: Bits)
    requires CountsFor(fs, n, done) && |xs| == n < Pow2(|fs|) && CountTrue(xs) in done
    ensures Value(Outputs(fs, xs)) == CountTrue(xs)
  {
    var w := ToBits(CountTrue(xs), |fs|);
    forall pos | 0 <= pos < |fs| ensures Outputs(fs, xs)[pos] == w[pos] {
      ToBitsAt(CountTrue(xs), |fs|, pos);
      assert fs[pos].Apply(xs) <==> Bit(CountTrue(xs), pos);
    }
    assert Outputs(fs, xs) == w;
    ToBitsValue(CountTrue(xs), |fs|);
  }
}
