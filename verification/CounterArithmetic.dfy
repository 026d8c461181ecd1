/** Latches that really count, up or down, have the shape the counter checks look for, whatever
    their number. */
module CounterArithmetic {
  import opened BoolFunctions
  import opened Netlists
  import opened CounterChecks

  function Pow2(n: nat): (p: nat)
    ensures p > 0
  {
    if n == 0 then 1 else 2 * Pow2(n - 1)
  }

  /** The number whose bits are `w`, lowest bit first. */
  function Value(w: Bits): (v: nat)
    ensures v < Pow2(|w|)
    decreases |w|
  {
    if w == [] then 0 else (if w[0] then 1 else 0) + 2 * Value(w[1..])
  }

  lemma {:induction false} ValueInjective(v: Bits, w: Bits)
    requires |v| == |w| && Value(v) == Value(w)
    ensures v == w
  {
    if v != [] {
      ValueInjective(v[1..], w[1..]);
      assert v == [v[0]] + v[1..] && w == [w[0]] + w[1..];
    }
  }

  /** All bits of `w` below position `j` are `one`. */
  ghost predicate LowBits(w: Bits, j: nat, one: bool)
    requires j <= |w|
  {
    forall m :: 0 <= m < j ==> w[m] == one
  }

  /** Every bit is flipped whose lower bits are all `one`: the carry (or borrow) ripples that far. */
  function Ripple(w: Bits, one: bool): (r: Bits)
    ensures |r| == |w|
    decreases |w|
  {
    if w == [] then []
    else [!w[0]] + if w[0] == one then Ripple(w[1..], one) else w[1..]
  }

  lemma LowBitsTail(w: Bits, j: nat, one: bool)
    requires 0 < j <= |w|
    ensures LowBits(w, j, one) <==> w[0] == one && LowBits(w[1..], j - 1, one)
  {
    if w[0] == one && LowBits(w[1..], j - 1, one) {
      forall m | 0 <= m < j ensures w[m] == one {
        if m > 0 { assert w[1..][m - 1] == one; }
      }
    }
  }

  lemma {:induction false} RippleAt(w: Bits, one: bool, j: nat)
    requires j < |w|
    ensures Ripple(w, one)[j] == if LowBits(w, j, one) then !w[j] else w[j]
    decreases |w|
  {
    if j > 0 {
      LowBitsTail(w, j, one);
      if w[0] == one { RippleAt(w[1..], one, j - 1); }
    }
  }

  /** Rippling through the 1s adds one and rippling through the 0s subtracts one, wrapping around. */
  lemma {:induction false} RippleValue(w: Bits)
    ensures Value(Ripple(w, true)) == if Value(w) + 1 == Pow2(|w|) then 0 else Value(w) + 1
    ensures Value(Ripple(w, false)) == if Value(w) == 0 then Pow2(|w|) - 1 else Value(w) - 1
    decreases |w|
  {
    if w != [] {
      RippleValue(w[1..]);
      assert Ripple(w, true)[1..] == if w[0] then Ripple(w[1..], true) else w[1..];
      assert Ripple(w, false)[1..] == if w[0] then w[1..] else Ripple(w[1..], false);
    }
  }

  lemma WrapAround(v: nat, p: nat)
    requires v < p
    ensures (v + 1) % p == if v + 1 == p then 0 else v + 1
    ensures (v - 1) % p == if v == 0 then p - 1 else v - 1
    ensures v % p == v
  {
    if v == 0 && p > 1 {
      assert -1 == p * -1 + (p - 1);
    }
  }

  /** The values of the latches, and their next values, as words. */
  ghost function Word(k: Design, a: Bits): (w: Bits)
    requires k.Valid() && |a| == |k.g.nodes|
    ensures |w| == |k.q|
  {
    seq(|k.q|, i requires 0 <= i < |k.q| => a[k.q[i]])
  }

  ghost function NextWord(k: Design, a: Bits): (w: Bits)
    requires k.Valid() && |a| == |k.g.nodes|
    ensures |w| == |k.q|
  {
    seq(|k.q|, i requires 0 <= i < |k.q| => k.Next(a, i))
  }

  /** A counter with synchronous reset and enable, both decided outside the counter. */
  ghost predicate IsCounter(k: Design, up: bool, reset: Bits -> bool, enable: Bits -> bool)
    requires k.Valid()
  {
    forall a {:trigger CountsAt(k, up, reset, enable, a)} :: |a| == |k.g.nodes| ==> CountsAt(k, up, reset, enable, a)
  }

  ghost predicate CountsAt(k: Design, up: bool, reset: Bits -> bool, enable: Bits -> bool, a: Bits)
    requires k.Valid() && |a| == |k.g.nodes|
  {
    var e := if enable(k.Rest(a)) then 1 else 0;
    Value(NextWord(k, a)) ==
      if reset(k.Rest(a)) then 0
      else (if up then Value(Word(k, a)) + e else Value(Word(k, a)) - e) % Pow2(|k.q|)
  }

  lemma {:induction false} ZeroValue(n: nat)
    ensures Value(seq(n, i => false)) == 0
  {
    if n > 0 {
      ZeroValue(n - 1);
      assert seq(n, i => false)[1..] == seq(n - 1, i => false);
    }
  }

  /** The word a counter goes to. */
  ghost function Target(k: Design, up: bool, reset: Bits -> bool, enable: Bits -> bool, a: Bits): (w: Bits)
    requires k.Valid() && |a| == |k.g.nodes|
    ensures |w| == |k.q|
  {
    if reset(k.Rest(a)) then seq(|k.q|, i => false)
    else if enable(k.Rest(a)) then Ripple(Word(k, a), up)
    else Word(k, a)
  }

  lemma CounterNextWord(k: Design, up: bool, reset: Bits -> bool, enable: Bits -> bool, a: Bits)
    requires k.Valid() && |a| == |k.g.nodes| && CountsAt(k, up, reset, enable, a)
    ensures NextWord(k, a) == Target(k, up, reset, enable, a)
  {
    ZeroValue(|k.q|);
    RippleValue(Word(k, a));
    WrapAround(Value(Word(k, a)), Pow2(|k.q|));
    assert Value(NextWord(k, a)) == Value(Target(k, up, reset, enable, a));
    ValueInjective(NextWord(k, a), Target(k, up, reset, enable, a));
  }

  /** Where a bit goes in a counter: flipped by an enabled carry, kept otherwise, 0 under reset. */
  lemma CounterNextBit(k: Design, up: bool, reset: Bits -> bool, enable: Bits -> bool, a: Bits, j: nat)
    requires k.Valid() && |a| == |k.g.nodes| && j < |k.q| && CountsAt(k, up, reset, enable, a)
    ensures k.Next(a, j) == (!reset(k.Rest(a)) &&
              if enable(k.Rest(a)) && k.LowerAre(a, j, up) then !a[k.q[j]] else a[k.q[j]])
  {
    CounterNextWord(k, up, reset, enable, a);
    RippleAt(Word(k, a), up, j);
    assert NextWord(k, a)[j] == k.Next(a, j) && Word(k, a)[j] == a[k.q[j]];
    assert forall m :: 0 <= m < j ==> Word(k, a)[m] == a[k.q[m]];
    if LowBits(Word(k, a), j, up) {
      forall m | 0 <= m < j ensures a[k.q[m]] == up { assert Word(k, a)[m] == up; }
    }
  }

  /** For every width: latches that count modulo 2^n pass all checks of their direction. */
  lemma CountersPass(k: Design, up: bool, reset: Bits -> bool, enable: Bits -> bool)
    requires k.Valid() && IsCounter(k, up, reset, enable)
    requires forall j :: 0 <= j < |k.q| ==> k.HasCone(j)
    ensures forall i :: 1 <= i < |k.q| ==> k.Counts(up, i)
  {
    var step := (v: bool, r: Bits) => !reset(r) && (v != enable(r));
    var hold := (r: Bits) => !reset(r);
    forall a: Bits, j: nat | |a| == |k.g.nodes| && j < |k.q|
      ensures k.LowerAre(a, j, up) ==> k.Next(a, j) == step(a[k.q[j]], k.Rest(a))
      ensures k.Held(a, j, up) ==> k.Next(a, j) == hold(k.Rest(a))
    {
      assert CountsAt(k, up, reset, enable, a);
      CounterNextBit(k, up, reset, enable, a, j);
    }
    assert k.HasShape(up, step, hold);
    forall i | 1 <= i < |k.q| ensures k.Counts(up, i) {
      ShapePasses(k, up, step, hold, i);
    }
  }
}
