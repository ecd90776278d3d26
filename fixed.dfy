/** Q24.8 fixed point and the 2D vector built on it. A FixedPoint holds a
    32-bit signed raw value equal to the real value times 256; all arithmetic
    works on the raw value and wraps modulo 2^32. */
module Fixed {
  import opened Machine

  const Shift: nat := 8
  const Scale: int := 256

  /** The smallest and one past the largest integer whose scaled value fits in int32. */
  const MinWhole: int := -0x80_0000
  const MaxWhole: int := 0x80_0000

  datatype FixedPoint = FixedPoint(raw: i32)

  /** The default constructor: value 0. */
  const Zero: FixedPoint := FixedPoint(0)

  /** Conversion from int (`i << 8`); the shift is exact only while i * 256 fits in int32. */
  function FromInt(i: int): (f: FixedPoint)
    requires MinWhole <= i < MaxWhole
    ensures ToInt(f) == i
    ensures f.raw % Scale == 0
  {
    FixedPoint(i * Scale)
  }

  /** Conversion to int: an arithmetic shift right by 8, i.e. floor division by 256. */
  function ToInt(f: FixedPoint): (n: int)
    ensures n * Scale <= f.raw < n * Scale + Scale
    ensures MinWhole <= n < MaxWhole
  {
    f.raw / Scale
  }

  /** `+` and `+=`: the raw sum, wrapped to 32 bits. */
  function Add(a: FixedPoint, b: FixedPoint): (r: FixedPoint)
    ensures r.raw == a.raw + b.raw || r.raw == a.raw + b.raw - TwoTo32 || r.raw == a.raw + b.raw + TwoTo32
    ensures InI32(a.raw + b.raw) ==> r.raw == a.raw + b.raw
  {
    OneWrap(a.raw + b.raw);
    FixedPoint(Wrap32(a.raw + b.raw))
  }

  /** `-`: the raw difference, wrapped to 32 bits. */
  function Sub(a: FixedPoint, b: FixedPoint): (r: FixedPoint)
    ensures r.raw == a.raw - b.raw || r.raw == a.raw - b.raw - TwoTo32 || r.raw == a.raw - b.raw + TwoTo32
    ensures InI32(a.raw - b.raw) ==> r.raw == a.raw - b.raw
  {
    OneWrap(a.raw - b.raw);
    FixedPoint(Wrap32(a.raw - b.raw))
  }

  /** The 64-bit product of the raw values (which cannot overflow), shifted right
      arithmetically by 8 and narrowed back to 32 bits: the floored product
      wrapped to int32, in every case. When no narrowing
      happens the raw result is the floor of the real product times 256. */
  function Mul(a: FixedPoint, b: FixedPoint): (r: FixedPoint)
    ensures ((a.raw * b.raw) / Scale - r.raw) % TwoTo32 == 0
    ensures InI32((a.raw * b.raw) / Scale) ==>
              r.raw * Scale <= a.raw * b.raw < r.raw * Scale + Scale
  {
    FixedPoint(Wrap32((a.raw * b.raw) / Scale))
  }

  /** Narrowing wraps: 4096 * 4096 (raw 2^20 each) is 2^24, one past the
      range, and its raw value 2^32 narrows to 0. */
  lemma MulNarrows()
    ensures Mul(FixedPoint(0x10_0000), FixedPoint(0x10_0000)).raw == 0
  {
  }

  /** Flooring, not truncation: a raw value of -1 (-1/256) converts to -1. */
  lemma ToIntOfMinusOne()
    ensures ToInt(FixedPoint(-1)) == -1
  {
  }

  lemma ToIntMonotone(a: FixedPoint, b: FixedPoint)
    requires a.raw <= b.raw
    ensures ToInt(a) <= ToInt(b)
  {
  }

  lemma {:induction false} SubUndoesAdd(a: FixedPoint, b: FixedPoint)
    ensures Sub(Add(a, b), b) == a
  {
    Wrap32Absorb(a.raw + b.raw, -(b.raw as int));
  }

  lemma {:induction false} AddUndoesSub(a: FixedPoint, b: FixedPoint)
    ensures Add(Sub(a, b), b) == a
  {
    Wrap32Absorb(a.raw - b.raw, b.raw);
  }

  lemma AddCommutes(a: FixedPoint, b: FixedPoint)
    ensures Add(a, b) == Add(b, a)
  {
  }

  /** Wrapping addition is associative, overflow or not. */
  lemma {:induction false} AddAssociates(a: FixedPoint, b: FixedPoint, c: FixedPoint)
    ensures Add(Add(a, b), c) == Add(a, Add(b, c))
  {
    Wrap32Absorb(a.raw + b.raw, c.raw);
    Wrap32Absorb(b.raw + c.raw, a.raw);
    assert Wrap32(b.raw + c.raw) + a.raw == a.raw + Wrap32(b.raw + c.raw);
  }

  /** Adding two whole numbers adds their integer parts, while the sum stays in range. */
  lemma AddOfInts(i: int, j: int)
    requires MinWhole <= i < MaxWhole && MinWhole <= j < MaxWhole
    requires MinWhole <= i + j < MaxWhole
    ensures Add(FromInt(i), FromInt(j)) == FromInt(i + j)
    ensures ToInt(Add(FromInt(i), FromInt(j))) == i + j
  {
  }

  /** Multiplying two whole numbers multiplies them, while the scaled product fits in int32. */
  lemma {:induction false} MulOfInts(i: int, j: int)
    requires MinWhole <= i < MaxWhole && MinWhole <= j < MaxWhole
    requires MinWhole <= i * j < MaxWhole
    ensures Mul(FromInt(i), FromInt(j)) == FromInt(i * j)
    ensures ToInt(Mul(FromInt(i), FromInt(j))) == i * j
  {
    var p := (i * Scale) * (j * Scale);
    assert p == (i * j * Scale) * Scale;
    assert p / Scale == i * j * Scale;
  }

  /** One (raw 256) is the multiplicative identity. */
  lemma {:induction false} MulByOne(a: FixedPoint)
    ensures Mul(a, FromInt(1)) == a
  {
    assert a.raw * FromInt(1).raw == a.raw * Scale;
  }

  lemma MulCommutes(a: FixedPoint, b: FixedPoint)
    ensures Mul(a, b) == Mul(b, a)
  {
    assert a.raw * b.raw == b.raw * a.raw;
  }

  /** A pair of fixed-point coordinates. */
  datatype Vec2 = Vec2(x: FixedPoint, y: FixedPoint)

  const VecZero: Vec2 := Vec2(Zero, Zero)

  function VecFromInts(x: int, y: int): (v: Vec2)
    requires MinWhole <= x < MaxWhole && MinWhole <= y < MaxWhole
    ensures ToInt(v.x) == x && ToInt(v.y) == y
  {
    Vec2(FromInt(x), FromInt(y))
  }

  /** Component-wise `+` and `+=`: each coordinate is the wrapped sum,
      the exact one while it fits. */
  function VecAdd(a: Vec2, b: Vec2): (r: Vec2)
    ensures InI32(a.x.raw + b.x.raw) ==> r.x.raw == a.x.raw + b.x.raw
    ensures InI32(a.y.raw + b.y.raw) ==> r.y.raw == a.y.raw + b.y.raw
  {
    Vec2(Add(a.x, b.x), Add(a.y, b.y))
  }

  /** Component-wise `-`: each coordinate is the wrapped
      difference, the exact one while it fits. */
  function VecSub(a: Vec2, b: Vec2): (r: Vec2)
    ensures InI32(a.x.raw - b.x.raw) ==> r.x.raw == a.x.raw - b.x.raw
    ensures InI32(a.y.raw - b.y.raw) ==> r.y.raw == a.y.raw - b.y.raw
  {
    Vec2(Sub(a.x, b.x), Sub(a.y, b.y))
  }

  lemma {:induction false} VecSubUndoesAdd(a: Vec2, b: Vec2)
    ensures VecSub(VecAdd(a, b), b) == a
  {
    SubUndoesAdd(a.x, b.x);
    SubUndoesAdd(a.y, b.y);
  }

  lemma {:induction false} VecAddAssociates(a: Vec2, b: Vec2, c: Vec2)
    ensures VecAdd(VecAdd(a, b), c) == VecAdd(a, VecAdd(b, c))
  {
    AddAssociates(a.x, b.x, c.x);
    AddAssociates(a.y, b.y, c.y);
  }

  /** Adding the zero vector changes nothing. */
  lemma VecAddZero(a: Vec2)
    ensures VecAdd(a, VecZero) == a
  {
  }
}
