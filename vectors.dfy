/** Two-dimensional integer vectors: the Vector2i value type and the `int` instantiation
    of the Vector2 template, whose compound assignments update a vector in place.
    Signed overflow is undefined behaviour in C++, so each operation requires its
    results to lie in the 32-bit range. */
module Vectors {

  const INT_MIN: int := -0x8000_0000
  const INT_MAX: int := 0x7fff_ffff

  newtype int32 = v: int | -0x8000_0000 <= v < 0x8000_0000

  predicate InRange(v: int)
  {
    INT_MIN <= v <= INT_MAX
  }

  datatype Vector2i = Vector2i(x: int32, y: int32)

  // ---------------------------------------------------------------------------
  // Integer arithmetic as C++ performs it

  /** C++ integer division, which truncates toward zero. */
  function Quot(a: int, b: int): (q: int)
    requires b != 0
  {
    if (a >= 0) == (b > 0) then Abs(a) / Abs(b) else -(Abs(a) / Abs(b))
  }

  /** C++ `%`, which takes the sign of the dividend. */
  function Rem(a: int, b: int): (r: int)
    requires b != 0
  {
    a - b * Quot(a, b)
  }

  function Abs(a: int): (r: nat)
  {
    if a < 0 then -a else a
  }

  function Max(a: int, b: int): int
  {
    if a >= b then a else b
  }

  function Min(a: int, b: int): int
  {
    if a <= b then a else b
  }

  /** Truncating division leaves a remainder smaller than the divisor and of the
      dividend's sign, and the quotient never grows away from zero. */
  lemma QuotTruncates(a: int, b: int)
    requires b != 0
    ensures a == b * Quot(a, b) + Rem(a, b)
    ensures Abs(Rem(a, b)) < Abs(b)
    ensures a >= 0 ==> Rem(a, b) >= 0
    ensures a <= 0 ==> Rem(a, b) <= 0
    ensures Abs(Quot(a, b)) <= Abs(a)
  {
    var m := Abs(a) % Abs(b);
    ProductOfQuot(a, b, Abs(a) / Abs(b), m);
    DivBound(Abs(a), Abs(b));
  }

  /** The product of divisor and quotient is the dividend less the remainder of the
      magnitudes, with the dividend's sign. */
  lemma ProductOfQuot(a: int, b: int, q: nat, m: nat)
    requires b != 0 && q == Abs(a) / Abs(b) && m == Abs(a) % Abs(b)
    ensures b * Quot(a, b) == if a >= 0 then Abs(a) - m else m - Abs(a)
  {
    assert Abs(a) == Abs(b) * q + m;
    if b > 0 {
      SignedProduct(b, q, if a >= 0 then 1 else -1);
    } else {
      SignedProduct(Abs(b), q, if a >= 0 then 1 else -1);
      NegMul(Abs(b), Quot(a, b));
    }
  }

  lemma SignedProduct(x: int, q: int, sign: int)
    requires sign == 1 || sign == -1
    ensures x * (sign * q) == sign * (x * q)
  {
    if sign == -1 {
      NegMul(x, q);
    }
  }

  lemma DivBound(x: nat, y: nat)
    requires y > 0
    ensures x / y <= x && 0 <= x % y < y
  {
    MulMonotone(y, x / y);
  }

  lemma NegMul(x: int, y: int)
    ensures (-x) * y == -(x * y) && x * (-y) == -(x * y)
  {
  }

  lemma MulMonotone(m: nat, q: nat)
    requires m >= 1
    ensures m * q >= q
  {
  }

  // ---------------------------------------------------------------------------
  // Vector2i (and the int instantiation of Vector2's binary operators)

  function Add(a: Vector2i, b: Vector2i): (r: Vector2i)
    requires InRange(a.x as int + b.x as int) && InRange(a.y as int + b.y as int)
    ensures r.x as int == a.x as int + b.x as int && r.y as int == a.y as int + b.y as int
  {
    Vector2i((a.x as int + b.x as int) as int32, (a.y as int + b.y as int) as int32)
  }

  function Sub(a: Vector2i, b: Vector2i): (r: Vector2i)
    requires InRange(a.x as int - b.x as int) && InRange(a.y as int - b.y as int)
    ensures r.x as int == a.x as int - b.x as int && r.y as int == a.y as int - b.y as int
  {
    Vector2i((a.x as int - b.x as int) as int32, (a.y as int - b.y as int) as int32)
  }

  /** Unary minus (Vector2 only). */
  function Neg(a: Vector2i): (r: Vector2i)
    requires a.x as int != INT_MIN && a.y as int != INT_MIN
    ensures r.x as int == -(a.x as int) && r.y as int == -(a.y as int)
  {
    Vector2i(-a.x, -a.y)
  }

  /** Multiplication of both coordinates by an int. */
  function Scale(a: Vector2i, k: int32): (r: Vector2i)
    requires InRange(a.x as int * k as int) && InRange(a.y as int * k as int)
    ensures r.x as int == a.x as int * k as int && r.y as int == a.y as int * k as int
  {
    Vector2i((a.x as int * k as int) as int32, (a.y as int * k as int) as int32)
  }

  /** Division of both coordinates by an int, truncating toward zero. */
  function DivScalar(a: Vector2i, k: int32): (r: Vector2i)
    requires k != 0 && InRange(Quot(a.x as int, k as int)) && InRange(Quot(a.y as int, k as int))
  {
    Vector2i(Quot(a.x as int, k as int) as int32, Quot(a.y as int, k as int) as int32)
  }

  /** Componentwise product and quotient of two vectors (Vector2 only). */
  function MulComponents(a: Vector2i, b: Vector2i): (r: Vector2i)
    requires InRange(a.x as int * b.x as int) && InRange(a.y as int * b.y as int)
    ensures r.x as int == a.x as int * b.x as int && r.y as int == a.y as int * b.y as int
  {
    Vector2i((a.x as int * b.x as int) as int32, (a.y as int * b.y as int) as int32)
  }

  function DivComponents(a: Vector2i, b: Vector2i): (r: Vector2i)
    requires b.x != 0 && b.y != 0
    requires InRange(Quot(a.x as int, b.x as int)) && InRange(Quot(a.y as int, b.y as int))
  {
    Vector2i(Quot(a.x as int, b.x as int) as int32, Quot(a.y as int, b.y as int) as int32)
  }

  /** A scalar added to or subtracted from both coordinates (Vector2 only). */
  function AddScalar(a: Vector2i, k: int32): (r: Vector2i)
    requires InRange(a.x as int + k as int) && InRange(a.y as int + k as int)
    ensures Add(a, Vector2i(k, k)) == r
  {
    Vector2i((a.x as int + k as int) as int32, (a.y as int + k as int) as int32)
  }

  function SubScalar(a: Vector2i, k: int32): (r: Vector2i)
    requires InRange(a.x as int - k as int) && InRange(a.y as int - k as int)
    ensures Sub(a, Vector2i(k, k)) == r
  {
    Vector2i((a.x as int - k as int) as int32, (a.y as int - k as int) as int32)
  }

  /** `==` compares both coordinates, and `!=` is its negation. */
  predicate Eq(a: Vector2i, b: Vector2i)
  {
    a.x == b.x && a.y == b.y
  }

  predicate Neq(a: Vector2i, b: Vector2i)
  {
    a.x != b.x || a.y != b.y
  }

  /** The orderings hold when they hold on both coordinates. */
  predicate Less(a: Vector2i, b: Vector2i)
  {
    a.x < b.x && a.y < b.y
  }

  predicate LessEq(a: Vector2i, b: Vector2i)
  {
    a.x <= b.x && a.y <= b.y
  }

  predicate Greater(a: Vector2i, b: Vector2i)
  {
    a.x > b.x && a.y > b.y
  }

  predicate GreaterEq(a: Vector2i, b: Vector2i)
  {
    a.x >= b.x && a.y >= b.y
  }

  /** len_manh: the taxicab length. */
  function LenManh(a: Vector2i): (r: int32)
    requires InRange(Abs(a.x as int) + Abs(a.y as int))
  {
    (Abs(a.x as int) + Abs(a.y as int)) as int32
  }

  /** len_chess: the chessboard length. */
  function LenChess(a: Vector2i): (r: int32)
    requires a.x as int != INT_MIN && a.y as int != INT_MIN
  {
    Max(Abs(a.x as int), Abs(a.y as int)) as int32
  }

  /** clamp: each coordinate held between the lower bound and one below the upper
      bound, the lower bound winning when the two cross. */
  function Clamp(a: Vector2i, upper: Vector2i, lower: Vector2i): (r: Vector2i)
    requires upper.x as int != INT_MIN && upper.y as int != INT_MIN
  {
    Vector2i(Max(lower.x as int, Min(a.x as int, upper.x as int - 1)) as int32,
             Max(lower.y as int, Min(a.y as int, upper.y as int - 1)) as int32)
  }

  /** clamp's default lower bound. */
  const ORIGIN := Vector2i(0, 0)

  // ---------------------------------------------------------------------------
  // Properties

  /** Vectors are equal under `==` exactly when they are the same vector, and `!=`
      is the negation of `==`. */
  lemma EqualityIsIdentity(a: Vector2i, b: Vector2i)
    ensures Eq(a, b) <==> a == b
    ensures Neq(a, b) <==> !Eq(a, b)
  {
  }

  /** The strict orderings imply the weak ones and mirror each other. */
  lemma OrderingsRelate(a: Vector2i, b: Vector2i)
    ensures Less(a, b) ==> LessEq(a, b) && Neq(a, b)
    ensures Less(a, b) <==> Greater(b, a)
    ensures LessEq(a, b) <==> GreaterEq(b, a)
    ensures LessEq(a, b) && LessEq(b, a) ==> a == b
  {
  }

  /** `<` is not the negation of `>=`: (0, 1) and (1, 0) are related by neither. */
  lemma LessIsNotNotGreaterEq()
    ensures !Less(Vector2i(0, 1), Vector2i(1, 0)) && !GreaterEq(Vector2i(0, 1), Vector2i(1, 0))
  {
  }

  /** The chessboard length is between zero and the taxicab length, and both are zero
      only at the origin. */
  lemma LengthsOrdered(a: Vector2i)
    requires InRange(Abs(a.x as int) + Abs(a.y as int))
    ensures 0 <= LenChess(a) <= LenManh(a)
    ensures LenManh(a) as int <= 2 * LenChess(a) as int
    ensures LenChess(a) == 0 <==> a == ORIGIN
  {
  }

  /** Each clamped coordinate is at least the lower bound, below the upper bound when
      the bounds do not cross, and unchanged when already within the bounds. */
  lemma ClampBounds(a: Vector2i, upper: Vector2i, lower: Vector2i)
    requires upper.x as int != INT_MIN && upper.y as int != INT_MIN
    ensures var r := Clamp(a, upper, lower);
      && lower.x <= r.x && lower.y <= r.y
      && (lower.x < upper.x ==> r.x < upper.x)
      && (lower.y < upper.y ==> r.y < upper.y)
      && (lower.x <= a.x < upper.x ==> r.x == a.x)
      && (lower.y <= a.y < upper.y ==> r.y == a.y)
      && (LessEq(lower, a) && Less(a, upper) ==> r == a)
  {
  }

  /** Clamping with the default lower bound to an upper bound (w, h) with positive
      coordinates gives an index inside a w-by-h array. */
  lemma ClampIndexes(a: Vector2i, upper: Vector2i)
    requires Less(ORIGIN, upper)
    ensures LessEq(ORIGIN, Clamp(a, upper, ORIGIN)) && Less(Clamp(a, upper, ORIGIN), upper)
  {
  }

  /** The scalar `/` truncates each coordinate toward zero, as C++ `/` does: the
      remainder is smaller than the divisor and has the dividend's sign. */
  lemma DivScalarTruncates(a: Vector2i, k: int32)
    requires k != 0 && InRange(Quot(a.x as int, k as int)) && InRange(Quot(a.y as int, k as int))
    ensures var r := DivScalar(a, k);
      && Abs(a.x as int - k as int * r.x as int) < Abs(k as int)
      && Abs(a.y as int - k as int * r.y as int) < Abs(k as int)
      && (a.x >= 0 ==> a.x as int - k as int * r.x as int >= 0)
      && (a.x <= 0 ==> a.x as int - k as int * r.x as int <= 0)
      && (a.y >= 0 ==> a.y as int - k as int * r.y as int >= 0)
      && (a.y <= 0 ==> a.y as int - k as int * r.y as int <= 0)
      && Abs(r.x as int) <= Abs(a.x as int) && Abs(r.y as int) <= Abs(a.y as int)
  {
    QuotTruncates(a.x as int, k as int);
    QuotTruncates(a.y as int, k as int);
  }

  /** Vector2's componentwise division truncates each coordinate by its own divisor. */
  lemma DivComponentsTruncates(a: Vector2i, b: Vector2i)
    requires b.x != 0 && b.y != 0
    requires InRange(Quot(a.x as int, b.x as int)) && InRange(Quot(a.y as int, b.y as int))
    ensures var r := DivComponents(a, b);
      && Abs(a.x as int - b.x as int * r.x as int) < Abs(b.x as int)
      && Abs(a.y as int - b.y as int * r.y as int) < Abs(b.y as int)
      && (a.x >= 0 ==> a.x as int - b.x as int * r.x as int >= 0)
      && (a.x <= 0 ==> a.x as int - b.x as int * r.x as int <= 0)
      && (a.y >= 0 ==> a.y as int - b.y as int * r.y as int >= 0)
      && (a.y <= 0 ==> a.y as int - b.y as int * r.y as int <= 0)
      && Abs(r.x as int) <= Abs(a.x as int) && Abs(r.y as int) <= Abs(a.y as int)
  {
    QuotTruncates(a.x as int, b.x as int);
    QuotTruncates(a.y as int, b.y as int);
  }

  /** The scalar `*` and `/` are the componentwise ones by the vector (k, k). */
  lemma ScalarIsComponentwise(a: Vector2i, k: int32)
    ensures InRange(a.x as int * k as int) && InRange(a.y as int * k as int) ==>
      Scale(a, k) == MulComponents(a, Vector2i(k, k))
    ensures k != 0 && InRange(Quot(a.x as int, k as int)) && InRange(Quot(a.y as int, k as int)) ==>
      DivScalar(a, k) == DivComponents(a, Vector2i(k, k))
  {
  }

  /** Scaling distributes over addition. */
  lemma ScaleDistributes(a: Vector2i, b: Vector2i, k: int32)
    requires InRange(a.x as int + b.x as int) && InRange(a.y as int + b.y as int)
    requires InRange(a.x as int * k as int) && InRange(a.y as int * k as int)
    requires InRange(b.x as int * k as int) && InRange(b.y as int * k as int)
    requires InRange((a.x as int + b.x as int) * k as int) && InRange((a.y as int + b.y as int) * k as int)
    ensures Scale(Add(a, b), k) == Add(Scale(a, k), Scale(b, k))
  {
    assert (a.x as int + b.x as int) * k as int == a.x as int * k as int + b.x as int * k as int;
    assert (a.y as int + b.y as int) * k as int == a.y as int * k as int + b.y as int * k as int;
  }

  /** Negating twice, and adding then subtracting the same vector, give the vector back. */
  lemma AddSubInverse(a: Vector2i, b: Vector2i)
    requires InRange(a.x as int + b.x as int) && InRange(a.y as int + b.y as int)
    ensures Sub(Add(a, b), b) == a
  {
  }

  lemma NegInvolution(a: Vector2i)
    requires a.x as int != INT_MIN && a.y as int != INT_MIN
    ensures Neg(Neg(a)) == a
  {
  }

  // ---------------------------------------------------------------------------
  // Vector2<int> as an object: the compound assignments

  class Vector2 {
    var x: int32
    var y: int32

    constructor (x0: int32, y0: int32)
      ensures x == x0 && y == y0
    {
      x, y := x0, y0;
    }

    function Value(): Vector2i
      reads this
    {
      Vector2i(x, y)
    }

    /** `+=` with a vector; returns this object. */
    method AddAssign(other: Vector2i) returns (self: Vector2)
      requires InRange(x as int + other.x as int) && InRange(y as int + other.y as int)
      modifies this
      ensures self == this && Value() == Add(old(Value()), other)
    {
      x := (x as int + other.x as int) as int32;
      y := (y as int + other.y as int) as int32;
      return this;
    }

    method SubAssign(other: Vector2i) returns (self: Vector2)
      requires InRange(x as int - other.x as int) && InRange(y as int - other.y as int)
      modifies this
      ensures self == this && Value() == Sub(old(Value()), other)
    {
      x := (x as int - other.x as int) as int32;
      y := (y as int - other.y as int) as int32;
      return this;
    }

    method MulAssign(other: Vector2i) returns (self: Vector2)
      requires InRange(x as int * other.x as int) && InRange(y as int * other.y as int)
      modifies this
      ensures self == this && Value() == MulComponents(old(Value()), other)
    {
      x := (x as int * other.x as int) as int32;
      y := (y as int * other.y as int) as int32;
      return this;
    }

    method DivAssign(other: Vector2i) returns (self: Vector2)
      requires other.x != 0 && other.y != 0
      requires InRange(Quot(x as int, other.x as int)) && InRange(Quot(y as int, other.y as int))
      modifies this
      ensures self == this && Value() == DivComponents(old(Value()), other)
    {
      x := Quot(x as int, other.x as int) as int32;
      y := Quot(y as int, other.y as int) as int32;
      return this;
    }

    /** `+=` and the other compound assignments with a scalar. */
    method AddScalarAssign(k: int32) returns (self: Vector2)
      requires InRange(x as int + k as int) && InRange(y as int + k as int)
      modifies this
      ensures self == this && Value() == AddScalar(old(Value()), k)
    {
      x := (x as int + k as int) as int32;
      y := (y as int + k as int) as int32;
      return this;
    }

    method SubScalarAssign(k: int32) returns (self: Vector2)
      requires InRange(x as int - k as int) && InRange(y as int - k as int)
      modifies this
      ensures self == this && Value() == SubScalar(old(Value()), k)
    {
      x := (x as int - k as int) as int32;
      y := (y as int - k as int) as int32;
      return this;
    }

    method MulScalarAssign(k: int32) returns (self: Vector2)
      requires InRange(x as int * k as int) && InRange(y as int * k as int)
      modifies this
      ensures self == this && Value() == Scale(old(Value()), k)
    {
      x := (x as int * k as int) as int32;
      y := (y as int * k as int) as int32;
      return this;
    }

    method DivScalarAssign(k: int32) returns (self: Vector2)
      requires k != 0 && InRange(Quot(x as int, k as int)) && InRange(Quot(y as int, k as int))
      modifies this
      ensures self == this && Value() == DivScalar(old(Value()), k)
    {
      x := Quot(x as int, k as int) as int32;
      y := Quot(y as int, k as int) as int32;
      return this;
    }
  }

  /** A compound assignment followed by its inverse restores the vector. */
  method AddThenSubRestores(v: Vector2, d: Vector2i)
    requires InRange(v.x as int + d.x as int) && InRange(v.y as int + d.y as int)
    modifies v
    ensures v.Value() == old(v.Value())
  {
    var r := v.AddAssign(d);
    r := v.SubAssign(d);
  }
}
