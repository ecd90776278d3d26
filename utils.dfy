/** The random-number utilities: a 32-bit linear congruential generator
    (multiplier 1664525, increment 1013904223, modulus 2^32) kept in one
    global state word, and the range helper built on it. */
module Utils {
  import opened Machine

  const Multiplier: int := 1664525
  const Increment: int := 1013904223

  /** The state word before any seeding. */
  const InitialState: u32 := 1

  /** One generator step: `state * 1664525 + 1013904223` in unsigned 32-bit arithmetic. */
  function Lcg(s: u32): (t: u32)
    ensures (t - (s * Multiplier + Increment)) % TwoTo32 == 0
  {
    WrapU32(s * Multiplier + Increment)
  }

  /** The first n values drawn after the state is set to `seed`. */
  function Draws(seed: u32, n: nat): (ds: seq<u32>)
    ensures |ds| == n
    ensures n > 0 ==> ds[0] == Lcg(seed)
    ensures forall k :: 0 <= k < n - 1 ==> ds[k + 1] == Lcg(ds[k])
    decreases n
  {
    if n == 0 then [] else [Lcg(seed)] + Draws(Lcg(seed), n - 1)
  }

  /** `min + random() % (max - min + 1)`: the span is computed in int and
      converted to unsigned for the remainder, the sum is unsigned, and the
      result is narrowed back to int. The source is defined exactly when the
      span neither overflows nor is zero. */
  function RangeOf(draw: u32, min: i32, max: i32): (r: i32)
    requires InI32(max - min) && InI32(max - min + 1) && max - min + 1 != 0
    ensures min <= max ==> min <= r <= max && r == min + draw % (max - min + 1)
  {
    var span := WrapU32(max - min + 1);
    var sum := WrapU32(WrapU32(min) + draw % span);
    RangeInBounds(draw, min, max);
    Wrap32(sum)
  }

  lemma RangeInBounds(draw: u32, min: i32, max: i32)
    requires InI32(max - min) && InI32(max - min + 1) && max - min + 1 != 0
    ensures min <= max ==>
              Wrap32(WrapU32(WrapU32(min) + draw % WrapU32(max - min + 1))) == min + draw % (max - min + 1)
  {
    if min <= max {
      assert WrapU32(max - min + 1) == max - min + 1;
      UnsignedOffset(min, draw % (max - min + 1));
    }
  }

  /** Adding k in unsigned arithmetic and narrowing back is adding k, when the
      signed sum fits. */
  lemma UnsignedOffset(min: int, k: int)
    requires InI32(min + k)
    ensures Wrap32(WrapU32(WrapU32(min) + k)) == min + k
  {
    var w := WrapU32(min);
    var sum := WrapU32(w + k);
    var q1, q2 := (w + k) / TwoTo32, min / TwoTo32;
    assert sum == (w + k) - q1 * TwoTo32 && w == min - q2 * TwoTo32;
    assert sum - (min + k) == (-(q1 + q2)) * TwoTo32;
    ModShift(0, -(q1 + q2));
    Wrap32Congruent(sum, min + k);
  }

  /** x and x + k*m leave the same remainder modulo m. */
  lemma ModAddMultiple(x: int, k: int, m: int)
    requires m > 0
    ensures (x + k * m) % m == x % m
  {
    var q, r := x / m, x % m;
    assert x + k * m == (q + k) * m + r;
    DivUnique(x + k * m, m, q + k, r);
  }

  /** Reducing modulo 2^32 first does not change a remainder modulo a divisor of 2^32. */
  lemma ModOfWrap(x: int, m: int)
    requires m > 0 && TwoTo32 % m == 0
    ensures WrapU32(x) % m == x % m
  {
    var q, j := x / TwoTo32, TwoTo32 / m;
    assert TwoTo32 == j * m;
    assert x == WrapU32(x) + (q * j) * m;
    ModAddMultiple(WrapU32(x), q * j, m);
  }

  /** Both constants are odd, so every step flips the lowest bit of the state. */
  lemma LowBitAlternates(s: u32)
    ensures Lcg(s) % 2 == 1 - s % 2
  {
    var x := s * Multiplier + Increment;
    ModOfWrap(x, 2);
    OddStep(s);
    ModAddMultiple(s + 1, s * 832262 + 506952111, 2);
    Successor(s);
  }

  lemma OddStep(s: int)
    ensures s * Multiplier + Increment == (s + 1) + (s * 832262 + 506952111) * 2
  {
  }

  lemma Successor(s: int)
    ensures (s + 1) % 2 == 1 - s % 2
  {
  }

  /** Hence `randomRange(0, 1)` strictly alternates between 0 and 1. */
  lemma {:induction false} CoinFlipsAlternate(seed: u32, n: nat, i: nat)
    requires i + 1 < n
    ensures RangeOf(Draws(seed, n)[i + 1], 0, 1) == 1 - RangeOf(Draws(seed, n)[i], 0, 1)
    decreases n
  {
    if i == 0 {
      LowBitAlternates(Lcg(seed));
      assert Draws(seed, n)[1] == Draws(Lcg(seed), n - 1)[0];
    } else {
      CoinFlipsAlternate(Lcg(seed), n - 1, i - 1);
      assert Draws(seed, n)[i + 1] == Draws(Lcg(seed), n - 1)[i];
      assert Draws(seed, n)[i] == Draws(Lcg(seed), n - 1)[i - 1];
    }
  }

  /** The first value after the seed the game framework installs. */
  lemma FirstDrawAfterGameSeed()
    ensures Lcg(12345) == 87628868
  {
  }

  /** The generator state. The source keeps it in one global word and exposes
      it through free functions; here that word is the field of an object. */
  class Rng {
    var state: u32

    constructor ()
      ensures state == InitialState
    {
      state := InitialState;
    }

    method Seed(seed: u32)
      modifies this
      ensures state == seed
    {
      state := seed;
    }

    /** Advances the state and returns the new state. */
    method Random() returns (r: u32)
      modifies this
      ensures state == Lcg(old(state)) && r == state
    {
      state := WrapU32(state * Multiplier + Increment);
      r := state;
    }

    /** Draws one value and maps it into [min, max] when min <= max. */
    method RandomRange(min: i32, max: i32) returns (r: i32)
      requires InI32(max - min) && InI32(max - min + 1) && max - min + 1 != 0
      modifies this
      ensures state == Lcg(old(state)) && r == RangeOf(state, min, max)
    {
      var draw := Random();
      var span := WrapU32(max - min + 1);
      r := Wrap32(WrapU32(WrapU32(min) + draw % span));
    }
  }

  /** Taking one more draw moves it from the pending draws to the drawn ones. */
  lemma NextDraw(done: seq<u32>, s: u32, m: nat)
    requires m > 0
    ensures done + Draws(s, m) == (done + [Lcg(s)]) + Draws(Lcg(s), m - 1)
  {
    assert Draws(s, m) == [Lcg(s)] + Draws(Lcg(s), m - 1);
  }

  /** Seeding a fresh generator and calling random() n times yields Draws(seed, n):
      the same seed always gives the same n values. */
  method SameSeedSameDraws(seed: u32, n: nat) returns (ds: seq<u32>)
    ensures ds == Draws(seed, n)
  {
    var rng := new Rng();
    rng.Seed(seed);
    ds := [];
    while |ds| < n
      invariant |ds| <= n
      invariant ds + Draws(rng.state, n - |ds|) == Draws(seed, n)
    {
      ghost var before := rng.state;
      var d := rng.Random();
      NextDraw(ds, before, n - |ds|);
      ds := ds + [d];
    }
  }

  /** n successive calls randomRange(0, 1) on a freshly seeded generator: the
      results are the draws mapped into [0, 1], and they strictly alternate. */
  method CoinFlips(seed: u32, n: nat) returns (flips: seq<i32>)
    ensures |flips| == n
    ensures forall k :: 0 <= k < n ==> flips[k] == RangeOf(Draws(seed, n)[k], 0, 1)
    ensures forall k :: 0 <= k < n ==> 0 <= flips[k] <= 1
    ensures forall k :: 0 <= k < n - 1 ==> flips[k + 1] != flips[k]
  {
    var rng := new Rng();
    rng.Seed(seed);
    flips := [];
    ghost var drawn: seq<u32> := [];
    while |flips| < n
      invariant |flips| == |drawn| <= n
      invariant drawn + Draws(rng.state, n - |drawn|) == Draws(seed, n)
      invariant forall k :: 0 <= k < |flips| ==> flips[k] == RangeOf(drawn[k], 0, 1)
    {
      ghost var before := rng.state;
      var f := rng.RandomRange(0, 1);
      NextDraw(drawn, before, n - |drawn|);
      drawn := drawn + [rng.state];
      flips := flips + [f];
    }
    FlipsAlternate(seed, n, flips);
  }

  /** Flips that follow the draws lie in [0, 1] and alternate. */
  lemma FlipsAlternate(seed: u32, n: nat, flips: seq<i32>)
    requires |flips| == n
    requires forall k :: 0 <= k < n ==> flips[k] == RangeOf(Draws(seed, n)[k], 0, 1)
    ensures forall k :: 0 <= k < n ==> 0 <= flips[k] <= 1
    ensures forall k :: 0 <= k < n - 1 ==> flips[k + 1] != flips[k]
  {
    forall k | 0 <= k < n - 1
      ensures flips[k + 1] != flips[k]
    {
      CoinFlipsAlternate(seed, n, k);
    }
  }
}
