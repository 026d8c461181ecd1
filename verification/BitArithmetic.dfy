/** Numbers and their bits, as machine code takes them apart, and two uses of it: finding the output
    bit of a demultiplexer, and the functions that count ones. */
module BitArithmetic {
  import opened BoolFunctions
  import opened CounterArithmetic

  /** Whether the bit of weight 2^pos is set, the test `num & (1 << pos)`. */
  predicate Bit(num: nat, pos: nat) {
    if pos == 0 then num % 2 == 1 else Bit(num / 2, pos - 1)
  }

  /** A bit is the parity of what is left after shifting. */
  lemma {:induction false} BitMeans(num: nat, pos: nat)
    ensures Bit(num, pos) <==> num / Pow2(pos) % 2 == 1
  {
    if pos > 0 {
      BitMeans(num / 2, pos - 1);
      DivideTwice(num, Pow2(pos - 1));
    }
  }

  lemma DivideTwice(a: nat, b: nat)
    requires b > 0
    ensures a / 2 / b == a / (2 * b)
  {
    var q, r := a / 2 / b, a / 2 % b;
    assert a / 2 == q * b + r;
    assert 2 * (q * b) == q * (2 * b);
    QuotientIs(a, 2 * b, q, 2 * r + a % 2);
  }

  lemma QuotientIs(a: nat, b: nat, q: nat, r: nat)
    requires b > r && a == q * b + r
    ensures a / b == q
  {
    var d := a / b - q;
    assert d * b == r - a % b;
    assert d >= 1 ==> (d - 1) * b >= 0;
    assert d <= -1 ==> (-d - 1) * b >= 0;
  }

  /** The lowest `n` bits of a number. */
  function ToBits(num: nat, n: nat): (w: Bits)
    ensures |w| == n
  {
    if n == 0 then [] else [num % 2 == 1] + ToBits(num / 2, n - 1)
  }

  lemma {:induction false} ToBitsAt(num: nat, n: nat, pos: nat)
    requires pos < n
    ensures ToBits(num, n)[pos] == Bit(num, pos)
  {
    if pos > 0 { ToBitsAt(num / 2, n - 1, pos - 1); }
  }

  /** Bits and numbers determine each other. */
  lemma {:induction false} ToBitsValue(num: nat, n: nat)
    requires num < Pow2(n)
    ensures Value(ToBits(num, n)) == num
  {
    if n > 0 {
      ToBitsValue(num / 2, n - 1);
      assert ToBits(num, n)[1..] == ToBits(num / 2, n - 1);
    }
  }

  lemma {:induction false} ValueToBits(w: Bits)
    ensures ToBits(Value(w), |w|) == w
  {
    if w != [] {
      ValueToBits(w[1..]);
      assert w == [w[0]] + w[1..];
    }
  }

  lemma {:induction false} ValueAppend(w: Bits, b: bool)
    ensures Value(w + [b]) == Value(w) + if b then Pow2(|w|) else 0
    decreases |w|
  {
    if w != [] {
      ValueAppend(w[1..], b);
      assert (w + [b])[1..] == w[1..] + [b];
    } else {
      assert [b][1..] == [];
    }
  }

  // ---- removing a bit ----

  /** The bits other than the one at `bit`. */
  function WithoutBit(w: Bits, bit: nat): (r: Bits) {
    if bit < |w| then w[..bit] + w[bit + 1..] else w
  }

  /** The number with a 1 put in at position `bit`, of `n` bits then. */
  function Reinserted(num: nat, bit: nat, n: nat): nat
    requires bit < n
  {
    var w := ToBits(num, n - 1);
    Value(w[..bit] + [true] + w[bit..])
  }

  lemma WithoutBitNext(w: Bits, i: nat, bit: nat)
    requires i < |w|
    ensures WithoutBit(w[..i + 1], bit) ==
            if i == bit then WithoutBit(w[..i], bit) else WithoutBit(w[..i], bit) + [w[i]]
  {
    if bit < i {
      assert w[..i + 1][bit + 1..] == w[..i][bit + 1..] + [w[i]];
      assert w[..i + 1][..bit] == w[..i][..bit];
    }
  }

  /** The bits below the one removed stay, those above move down by one, and nothing else is set. */
  ghost predicate BitRemoved(val: nat, newVal: nat, bit: nat, n: nat) {
    && (forall i: nat :: i < bit && i + 1 < n ==> (Bit(newVal, i) <==> Bit(val, i)))
    && (forall i: nat {:trigger Bit(newVal, i)} :: bit <= i && i + 1 < n ==> (Bit(newVal, i) <==> Bit(val, i + 1)))
  }

  lemma WithoutBitIs(val: nat, bit: nat, n: nat)
    requires bit < n
    ensures BitRemoved(val, Value(WithoutBit(ToBits(val, n), bit)), bit, n)
  {
    var w := ToBits(val, n);
    var d := WithoutBit(w, bit);
    ValueToBits(d);
    forall i: nat | i + 1 < n ensures Bit(Value(d), i) <==> Bit(val, if i < bit then i else i + 1) {
      ToBitsAt(Value(d), n - 1, i);
      ToBitsAt(val, n, if i < bit then i else i + 1);
    }
  }

  method RemoveBit(bit: nat, numBits: nat, val: nat) returns (newVal: nat)
    requires bit < numBits && val < Pow2(numBits)
    ensures newVal == Value(WithoutBit(ToBits(val, numBits), bit)) < Pow2(numBits - 1)
    ensures BitRemoved(val, newVal, bit, numBits)
    ensures Bit(val, bit) ==> Reinserted(newVal, bit, numBits) == val
  {
    ghost var w := ToBits(val, numBits);
    var pos := 0;
    newVal := 0;
    var i := 0;
    while i < numBits
      invariant 0 <= i <= numBits && pos == |WithoutBit(w[..i], bit)| && newVal == Value(WithoutBit(w[..i], bit))
    {
      WithoutBitNext(w, i, bit);
      if i != bit {
        ToBitsAt(val, numBits, i);
        ValueAppend(WithoutBit(w[..i], bit), w[i]);
        newVal := newVal + if Bit(val, i) then Pow2(pos) else 0;
        pos := pos + 1;
      }
      i := i + 1;
    }
    assert w[..numBits] == w;
    WithoutBitIs(val, bit, numBits);
    ReinsertedIsBack(val, bit, numBits);
  }

  lemma ReinsertedIsBack(val: nat, bit: nat, n: nat)
    requires bit < n && val < Pow2(n)
    ensures Bit(val, bit) ==> Reinserted(Value(WithoutBit(ToBits(val, n), bit)), bit, n) == val
  {
    var w := ToBits(val, n);
    ToBitsAt(val, n, bit);
    if w[bit] {
      ToBitsValue(val, n);
      ValueToBits(WithoutBit(w, bit));
      PutBack(w, bit);
    }
  }

  lemma PutBack(w: Bits, bit: nat)
    requires bit < |w| && w[bit]
    ensures var d := WithoutBit(w, bit); |d| == |w| - 1 && d[..bit] + [true] + d[bit..] == w
  {
    var d := WithoutBit(w, bit);
    assert d[..bit] == w[..bit] && d[bit..] == w[bit + 1..];
  }

  /** All numbers of `s` have the bit `i` set. */
  predicate CommonBit(s: seq<nat>, i: nat) {
    forall k :: 0 <= k < |s| ==> Bit(s[k], i)
  }

  ghost predicate ClearSomewhere(s: seq<nat>, i: nat) {
    exists k :: 0 <= k < |s| && !Bit(s[k], i)
  }

  /** Finds the lowest bit set in all output indices and removes it from them. */
  method ComputeDemuxedVar(vars: nat, outs: array<nat>) returns (demuxVar: int)
    requires forall k :: 0 <= k < outs.Length ==> outs[k] < Pow2(vars)
    modifies outs
    ensures -1 <= demuxVar < vars
    ensures demuxVar == -1 ==> outs[..] == old(outs[..])
    ensures forall i: nat :: i < (if demuxVar == -1 then vars else demuxVar) ==>
              ClearSomewhere(old(outs[..]), i)
    ensures demuxVar >= 0 ==> forall k :: 0 <= k < outs.Length ==> Bit(old(outs[..])[k], demuxVar)
    ensures demuxVar >= 0 ==> forall k :: 0 <= k < outs.Length ==>
              outs[k] < Pow2(vars - 1) && BitRemoved(old(outs[k]), outs[k], demuxVar, vars)
    ensures demuxVar >= 0 ==> forall k :: 0 <= k < outs.Length ==>
              Reinserted(outs[k], demuxVar, vars) == old(outs[k])
    ensures forall k, l :: 0 <= k < l < outs.Length && old(outs[k]) != old(outs[l]) ==> outs[k] != outs[l]
  {
    demuxVar := -1;
    var i := 0;
    while i < vars && demuxVar == -1
      invariant 0 <= i <= vars && -1 <= demuxVar < vars && outs[..] == old(outs[..])
      invariant if demuxVar == -1 then forall j: nat :: j < i ==> !CommonBit(outs[..], j)
                else demuxVar == i < vars && CommonBit(outs[..], i) &&
                     forall j: nat :: j < i ==> !CommonBit(outs[..], j)
      decreases vars - i, demuxVar == -1
    {
      var good := AllHaveBit(outs, i);
      if good { demuxVar := i; } else { i := i + 1; }
    }
    assert forall l :: 0 <= l < outs.Length ==> outs[l] == outs[..][l] == old(outs[..])[l];
    forall i: nat | i < (if demuxVar == -1 then vars else demuxVar)
      ensures ClearSomewhere(old(outs[..]), i)
    {
      assert !CommonBit(old(outs[..]), i);
    }
    if demuxVar == -1 { return; }
    var k := 0;
    while k < outs.Length
      invariant 0 <= k <= outs.Length
      invariant forall l :: k <= l < outs.Length ==> outs[l] == old(outs[l])
      invariant forall l :: 0 <= l < k ==>
                  outs[l] < Pow2(vars - 1) && Reinserted(outs[l], demuxVar, vars) == old(outs[l])
      invariant forall l :: 0 <= l < k ==> BitRemoved(old(outs[l]), outs[l], demuxVar, vars)
    {
      assert Bit(old(outs[..])[k], demuxVar);
      outs[k] := RemoveBit(demuxVar, vars, outs[k]);
      k := k + 1;
    }
  }

  method AllHaveBit(outs: array<nat>, i: nat) returns (good: bool)
    ensures good <==> CommonBit(outs[..], i)
  {
    var k := 0;
    while k < outs.Length
      invariant 0 <= k <= outs.Length && forall l :: 0 <= l < k ==> Bit(outs[l], i)
    {
      if !Bit(outs[k], i) {
        assert !Bit(outs[..][k], i);
        return false;
      }
      k := k + 1;
    }
    return true;
  }
}
