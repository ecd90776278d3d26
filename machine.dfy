/** Machine integers of the target: the 32-bit and 16-bit widths the C++ code
    stores values in, two's-complement wrap-around, and C's division, which
    truncates toward zero (Dafny's `/` is Euclidean). */
module Machine {

  const TwoTo31: int := 0x8000_0000
  const TwoTo32: int := 0x1_0000_0000

  /** std::int32_t */
  type i32 = x: int | -0x8000_0000 <= x < 0x8000_0000
  /** std::uint32_t */
  type u32 = x: int | 0 <= x < 0x1_0000_0000
  /** std::uint16_t */
  type u16 = x: int | 0 <= x < 0x1_0000

  predicate InI32(x: int) {
    -TwoTo31 <= x < TwoTo31
  }

  function Abs(x: int): (r: int)
    ensures r >= 0 && (r == x || r == -x)
  {
    if x < 0 then -x else x
  }

  /** The int32 value that is congruent to x modulo 2^32: what a two's-complement
      register holds after an addition, subtraction or narrowing conversion. */
  function Wrap32(x: int): (r: i32)
    ensures (x - r) % TwoTo32 == 0
    ensures InI32(x) ==> r == x
  {
    (x + TwoTo31) % TwoTo32 - TwoTo31
  }

  /** The uint32 value congruent to x modulo 2^32 (unsigned arithmetic). */
  function WrapU32(x: int): (r: u32)
    ensures (x - r) % TwoTo32 == 0
    ensures 0 <= x < TwoTo32 ==> r == x
  {
    x % TwoTo32
  }

  /** The sum or difference of two int32 values wraps by at most one multiple of 2^32. */
  lemma OneWrap(x: int)
    requires -TwoTo32 <= x < TwoTo32
    ensures Wrap32(x) == x || Wrap32(x) == x - TwoTo32 || Wrap32(x) == x + TwoTo32
  {
    var k := (x - Wrap32(x)) / TwoTo32;
    assert x - Wrap32(x) == k * TwoTo32;
  }

  /** Wrapping only depends on the residue modulo 2^32. */
  lemma {:induction false} Wrap32Congruent(x: int, y: int)
    requires (x - y) % TwoTo32 == 0
    ensures Wrap32(x) == Wrap32(y)
  {
    var k := (x - y) / TwoTo32;
    assert x == y + k * TwoTo32;
    ModShift(y + TwoTo31, k);
  }

  lemma {:induction false} ModShift(a: int, k: int)
    ensures (a + k * TwoTo32) % TwoTo32 == a % TwoTo32
  {
    var q, r := a / TwoTo32, a % TwoTo32;
    assert a + k * TwoTo32 == (q + k) * TwoTo32 + r;
  }

  /** Wrapping an intermediate result does not change the final wrapped value. */
  lemma Wrap32Absorb(x: int, y: int)
    ensures Wrap32(Wrap32(x) + y) == Wrap32(x + y)
  {
    assert ((Wrap32(x) + y) - (x + y)) % TwoTo32 == 0 by {
      assert (Wrap32(x) + y) - (x + y) == -(x - Wrap32(x));
    }
    Wrap32Congruent(Wrap32(x) + y, x + y);
  }

  /** Euclidean division is determined by the quotient-remainder equation. */
  lemma DivUnique(x: int, d: int, q: int, r: int)
    requires d > 0 && x == q * d + r && 0 <= r < d
    ensures x / d == q
  {
    var q', r' := x / d, x % d;
    assert (q' - q) * d == r - r';
    MulAtLeastDivisor(q' - q, d);
    MulAtLeastDivisor(q - q', d);
  }

  lemma MulAtLeastDivisor(e: int, d: int)
    requires d > 0
    ensures e >= 1 ==> e * d >= d
  {
    if e >= 1 {
      assert e * d == d + (e - 1) * d;
    }
  }

  lemma DivisionOfMagnitudes(a: int, b: int, n: int)
    requires b != 0 && n == Abs(a) / Abs(b)
    ensures 0 <= Abs(a) - n * Abs(b) < Abs(b)
    ensures n * b == if b < 0 then -(n * Abs(b)) else n * Abs(b)
  {
    if b < 0 {
      assert n * b == -(n * Abs(b));
    }
  }

  /** The truncated quotient: the quotient of the magnitudes, negated when the
      signs differ. */
  lemma {:induction false} TruncatedQuotient(a: int, b: int, n: int, q: int)
    requires b != 0 && n == Abs(a) / Abs(b) && q == (if (a < 0) == (b < 0) then n else -n)
    ensures 0 <= a && 0 < b ==> q == a / b
    ensures Abs(a - q * b) < Abs(b)
    ensures a - q * b == 0 || (a - q * b < 0 <==> a < 0)
  {
    DivisionOfMagnitudes(a, b, n);
    var r := Abs(a) - n * Abs(b);
    if (a < 0) == (b < 0) {
      assert q * b == n * b;
      assert a - q * b == if a < 0 then -r else r;
    } else {
      assert q * b == -(n * b);
      assert a - q * b == if a < 0 then -r else r;
    }
  }

  /** C and C++ integer division: the quotient is truncated toward zero and the
      remainder `a - q*b` takes the sign of the dividend. */
  function CDiv(a: int, b: int): (q: int)
    requires b != 0
    ensures 0 <= a && 0 < b ==> q == a / b
    ensures Abs(a - q * b) < Abs(b)
    ensures a - q * b == 0 || (a - q * b < 0 <==> a < 0)
  {
    var n := Abs(a) / Abs(b);
    var q := if (a < 0) == (b < 0) then n else -n;
    TruncatedQuotient(a, b, n, q);
    q
  }
}
