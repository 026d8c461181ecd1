/** Boolean functions of a fixed number of arguments, standing for the binary decision
    diagrams of the original: two functions are equal exactly when they agree on every
    argument vector, and each number of arguments has functions of its own. */
module BoolFunctions {

  type Bits = seq<bool>

  /** All argument vectors of length `n`. */
  function Vectors(n: nat): (vs: set<Bits>)
    ensures forall xs {:trigger xs in vs} :: xs in vs <==> |xs| == n
  {
    if n == 0 then {[]}
    else
      var shorter := Vectors(n - 1);
      var low := set xs | xs in shorter :: [false] + xs;
      var high := set xs | xs in shorter :: [true] + xs;
      assert forall xs: Bits | |xs| == n :: xs in low + high by {
        forall xs: Bits | |xs| == n ensures xs in low + high {
          assert xs == [xs[0]] + xs[1..] && xs[1..] in shorter;
          if xs[0] { assert xs in high; } else { assert xs in low; }
        }
      }
      low + high
  }

  /** A function of `arity` arguments, given by the vectors it maps to true. */
  datatype Fn = Fn(arity: nat, onset: set<Bits>)
  {
    ghost predicate Valid() {
      forall xs :: xs in onset ==> |xs| == arity
    }

    predicate Apply(xs: Bits) {
      xs in onset
    }
  }

  /** Extensional equality: agreeing on all vectors is being the same function. */
  lemma SameFunction(f: Fn, g: Fn)
    requires f.Valid() && g.Valid() && f.arity == g.arity
    requires forall xs :: |xs| == f.arity ==> f.Apply(xs) == g.Apply(xs)
    ensures f == g
  {
    forall xs ensures xs in f.onset <==> xs in g.onset {
      if |xs| == f.arity {
        assert f.Apply(xs) == g.Apply(xs);
      }
    }
  }
}
