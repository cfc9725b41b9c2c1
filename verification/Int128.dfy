/**
 Sixty-four bit coordinates: which of them are accepted, and why slopes can then be compared
 exactly, be it in 64 or in 128 bits.

 `Unsigned` and `Signed` wrap around as the machine's two's complement arithmetic does; every
 operation that could leave the 64 bits is wrapped explicitly.
 */
module Int128s {
  import opened ClipTypes
  import opened Geometry

  const TWO32 := 0x1_0000_0000
  const TWO63 := 0x8000_0000_0000_0000
  const TWO64 := 0x1_0000_0000_0000_0000
  const loRange := 0x3FFF_FFFF
  const hiRange := 0x3FFF_FFFF_FFFF_FFFF
  const MIN64 := -0x8000_0000_0000_0000

  predicate IsLong(x: int) { -TWO63 <= x < TWO63 }

  predicate IsULong(x: int) { 0 <= x < TWO64 }

  function Unsigned(x: int): (r: int)
    ensures IsULong(r) && (IsULong(x) ==> r == x)
  {
    x % TWO64
  }

  function Signed(x: int): (r: int)
    ensures IsLong(r) && (IsLong(x) ==> r == x)
  {
    if x % TWO64 >= TWO63 then x % TWO64 - TWO64 else x % TWO64
  }

  // ---------------------------------------------------------------- Int128

  datatype Int128 = Int128(hi: int, lo: int) {
    predicate Valid() { IsLong(hi) && IsULong(lo) }

    function Value(): int { hi * TWO64 + lo }

    function Negated(): Int128 {
      if lo == 0 then Int128(Signed(-hi), 0) else Int128(Signed(-hi - 1), Unsigned(TWO64 - 1 - lo + 1))
    }
  }

  /** Two numbers are the same when and only when both words are. */
  lemma SameWords(x: Int128, y: Int128)
    requires x.Valid() && y.Valid()
    ensures x == y <==> x.Value() == y.Value()
  {
  }

  /** Negation is exact, but for the one number that has no negative. */
  lemma NegatedValue(x: Int128)
    requires x.Valid()
    ensures x.Negated().Valid()
    ensures x.Negated().Value() == -x.Value() <==> !(x.hi == MIN64 && x.lo == 0)
  {
  }

  /** The product of two numbers of two digits each. */
  lemma TwoDigits(x1: int, x0: int, y1: int, y0: int)
    ensures (x1 * TWO32 + x0) * (y1 * TWO32 + y0) == (x1 * y1) * TWO64 + (x1 * y0 + x0 * y1) * TWO32 + x0 * y0
  {
    var p, q := x1 * TWO32, y1 * TWO32;
    assert (p + x0) * (q + y0) == p * q + p * y0 + x0 * q + x0 * y0;
    assert p * q == (x1 * y1) * TWO64;
    assert p * y0 == (x1 * y0) * TWO32;
    assert x0 * q == (x0 * y1) * TWO32;
  }

  lemma Bounded(x: int, y: int, m: int, n: int)
    requires 0 <= x <= m && 0 <= y <= n
    ensures 0 <= x * y <= m * n
  {
    assert x * y <= m * y <= m * n;
  }

  /** The half-words of a number of at most 2^63. */
  lemma Digits(x: int)
    requires 0 <= x <= TWO63
    ensures x == x / TWO32 * TWO32 + x % TWO32 && 0 <= x / TWO32 <= 0x8000_0000 && 0 <= x % TWO32 < TWO32
    ensures x / TWO32 == 0x8000_0000 ==> x % TWO32 == 0
  {
  }

  /** The sum of the two mixed products does not overflow. */
  lemma MixedFits(x: int, y: int)
    requires 0 <= x <= TWO63 && 0 <= y <= TWO63
    ensures 0 <= (x / TWO32) * (y % TWO32) <= 0x8000_0000 * (TWO32 - 1)
    ensures 0 <= (x % TWO32) * (y / TWO32) <= 0x8000_0000 * (TWO32 - 1)
    ensures 0 <= (x / TWO32) * (y / TWO32) <= 0x8000_0000 * 0x8000_0000
    ensures 0 <= (x % TWO32) * (y % TWO32) <= (TWO32 - 1) * (TWO32 - 1)
  {
    Digits(x);
    Digits(y);
    Bounded(x / TWO32, y % TWO32, 0x8000_0000, TWO32 - 1);
    Bounded(x % TWO32, y / TWO32, TWO32 - 1, 0x8000_0000);
    Bounded(x / TWO32, y / TWO32, 0x8000_0000, 0x8000_0000);
    Bounded(x % TWO32, y % TWO32, TWO32 - 1, TWO32 - 1);
  }

  function Magnitude(x: int): (r: int)
    requires IsLong(x)
    ensures r == Abs(x) && 0 <= r <= TWO63
  {
    Unsigned(if x < 0 then Signed(-x) else x)
  }

  /** The product of two magnitudes, put together from the products of their half-words. */
  method MulMagnitudes(x: int, y: int) returns (tmp: Int128)
    requires 0 <= x <= TWO63 && 0 <= y <= TWO63
    ensures tmp.Valid() && tmp.hi >= 0 && tmp.Value() == x * y
  {
    var int1Hi, int1Lo, int2Hi, int2Lo := x / TWO32, x % TWO32, y / TWO32, y % TWO32;
    MixedFits(x, y);
    Digits(x);
    Digits(y);
    TwoDigits(int1Hi, int1Lo, int2Hi, int2Lo);
    var a := Unsigned(int1Hi * int2Hi);
    var b := Unsigned(int1Lo * int2Lo);
    var c := Unsigned(int1Hi * int2Lo + int1Lo * int2Hi);
    assert x * y == a * TWO64 + c * TWO32 + b;
    tmp := Combine(a, b, c);
  }

  /** Adds up a * 2^64 + c * 2^32 + b with a carry out of the low word. */
  method Combine(a: int, b: int, c: int) returns (tmp: Int128)
    requires 0 <= a <= 0x8000_0000 * 0x8000_0000 && IsULong(b) && IsULong(c)
    ensures tmp.Valid() && tmp.hi >= 0 && tmp.Value() == a * TWO64 + c * TWO32 + b
  {
    var hi := Signed(a + c / TWO32);
    var lo := Unsigned(c * TWO32);
    assert lo == (c % TWO32) * TWO32;
    lo := Unsigned(lo + b);
    if lo < b {
      hi := Signed(hi + 1);
    }
    tmp := Int128(hi, lo);
  }

  /** The full product of two 64-bit numbers, whatever they are. */
  method Int128Mul(lhs: int, rhs: int) returns (product: Int128)
    requires IsLong(lhs) && IsLong(rhs)
    ensures product.Valid() && product.Value() == lhs * rhs
  {
    var negate := (lhs < 0) != (rhs < 0);
    product := MulMagnitudes(Magnitude(lhs), Magnitude(rhs));
    SignOfProduct(lhs, rhs);
    if negate {
      NegatedValue(product);
      product := product.Negated();
    }
  }

  lemma SignOfProduct(x: int, y: int)
    ensures x * y == if (x < 0) != (y < 0) then -(Abs(x) * Abs(y)) else Abs(x) * Abs(y)
  {
  }

  // ---------------------------------------------------------------- RangeTest

  predicate Within(pt: IntPoint, limit: int) {
    Abs(pt.X) <= limit && Abs(pt.Y) <= limit
  }

  function Limit(useFullRange: bool): int {
    if useFullRange then hiRange else loRange
  }

  predicate IsLongPoint(pt: IntPoint) { IsLong(pt.X) && IsLong(pt.Y) }

  /** Neither coordinate is the one number whose negative wraps around to itself. */
  predicate Negatable(pt: IntPoint) { pt.X != MIN64 && pt.Y != MIN64 }

  predicate Exceeds(pt: IntPoint, limit: int) {
    pt.X > limit || pt.Y > limit || Signed(-pt.X) > limit || Signed(-pt.Y) > limit
  }

  /** Accepts a point, or finds its coordinates out of range; from the first large point on, the full range is used. */
  method RangeTest(pt: IntPoint, useFullRange: bool) returns (ok: bool, full: bool)
    requires IsLongPoint(pt)
    ensures useFullRange ==> full
    ensures Negatable(pt) ==> (ok <==> Within(pt, hiRange)) && (ok ==> Within(pt, Limit(full)))
    ensures Negatable(pt) && full && !useFullRange ==> !Within(pt, loRange)
    ensures ok ==> (Within(pt, Limit(full)) <==> Negatable(pt))
    decreases !useFullRange
  {
    ok, full := true, useFullRange;
    if useFullRange {
      if Exceeds(pt, hiRange) {
        ok := false;
      }
    } else if Exceeds(pt, loRange) {
      full := true;
      ok, full := RangeTest(pt, full);
    }
  }

  /** The points of a path, tested one after the other: in the end one limit holds for all of them. */
  method RangeTestAll(pts: seq<IntPoint>, useFullRange: bool) returns (ok: bool, full: bool)
    requires forall i :: 0 <= i < |pts| ==> IsLongPoint(pts[i]) && Negatable(pts[i])
    ensures useFullRange ==> full
    ensures ok <==> forall i :: 0 <= i < |pts| ==> Within(pts[i], hiRange)
    ensures ok ==> forall i :: 0 <= i < |pts| ==> Within(pts[i], Limit(full))
  {
    ok, full := true, useFullRange;
    for i := 0 to |pts|
      invariant useFullRange ==> full
      invariant forall j :: 0 <= j < i ==> Within(pts[j], Limit(full))
    {
      ok, full := RangeTest(pts[i], full);
      if !ok {
        return;
      }
    }
    ok := true;
  }

  // ---------------------------------------------------------------- SlopesEqual

  /** The cross product test as the machine computes it: in 128 bits with the full range, otherwise in 64 bits that wrap around. */
  method SlopesEqual(pt1: IntPoint, pt2: IntPoint, pt3: IntPoint, useFullRange: bool) returns (equal: bool)
    requires IsLongPoint(pt1) && IsLongPoint(pt2) && IsLongPoint(pt3)
    ensures Within(pt1, Limit(useFullRange)) && Within(pt2, Limit(useFullRange)) && Within(pt3, Limit(useFullRange)) ==>
      (equal <==> SlopesEqual3(pt1, pt2, pt3))
    ensures !useFullRange ==> (equal <==> WrappedEqual(pt1, pt2, pt3))
  {
    equal := SlopesEqualFour(pt1, pt2, pt2, pt3, useFullRange);
  }

  predicate AllWithin(pt1: IntPoint, pt2: IntPoint, pt3: IntPoint, pt4: IntPoint, limit: int) {
    Within(pt1, limit) && Within(pt2, limit) && Within(pt3, limit) && Within(pt4, limit)
  }

  /** The overload for two edges given by their ends. */
  method SlopesEqualFour(pt1: IntPoint, pt2: IntPoint, pt3: IntPoint, pt4: IntPoint, useFullRange: bool) returns (equal: bool)
    requires IsLongPoint(pt1) && IsLongPoint(pt2) && IsLongPoint(pt3) && IsLongPoint(pt4)
    ensures AllWithin(pt1, pt2, pt3, pt4, Limit(useFullRange)) ==> (equal <==> SlopesEqual4(pt1, pt2, pt3, pt4))
    ensures !useFullRange ==>
      (equal <==> Signed(Signed(pt1.Y - pt2.Y) * Signed(pt3.X - pt4.X)) == Signed(Signed(pt1.X - pt2.X) * Signed(pt3.Y - pt4.Y)))
  {
    var a, b, c, d := pt1.Y - pt2.Y, pt3.X - pt4.X, pt1.X - pt2.X, pt3.Y - pt4.Y;
    if AllWithin(pt1, pt2, pt3, pt4, Limit(useFullRange)) {
      assert Small(a, useFullRange) && Small(b, useFullRange) && Small(c, useFullRange) && Small(d, useFullRange);
    }
    hide Signed;
    equal := SameProducts(a, b, c, d, useFullRange);
  }

  /** Such a difference has two coordinates within the limit. */
  predicate Small(x: int, useFullRange: bool) {
    Abs(x) <= 2 * Limit(useFullRange)
  }

  /** Compares two products of differences of coordinates, each difference wrapped to 64 bits. */
  method SameProducts(a: int, b: int, c: int, d: int, useFullRange: bool) returns (equal: bool)
    ensures Small(a, useFullRange) && Small(b, useFullRange) && Small(c, useFullRange) && Small(d, useFullRange) ==>
      (equal <==> a * b == c * d)
    ensures !useFullRange ==> (equal <==> Signed(Signed(a) * Signed(b)) == Signed(Signed(c) * Signed(d)))
  {
    if useFullRange {
      var p := Int128Mul(Signed(a), Signed(b));
      var q := Int128Mul(Signed(c), Signed(d));
      SameWords(p, q);
      equal := p == q;
    } else {
      if Small(a, false) && Small(b, false) && Small(c, false) && Small(d, false) {
        SmallProduct(a, b);
        SmallProduct(c, d);
      }
      equal := Signed(Signed(a) * Signed(b)) == Signed(Signed(c) * Signed(d));
    }
  }

  predicate WrappedEqual(pt1: IntPoint, pt2: IntPoint, pt3: IntPoint) {
    Signed(Signed(pt1.Y - pt2.Y) * Signed(pt2.X - pt3.X)) == Signed(Signed(pt1.X - pt2.X) * Signed(pt2.Y - pt3.Y))
  }

  lemma SmallProduct(x: int, y: int)
    requires Abs(x) <= 2 * loRange && Abs(y) <= 2 * loRange
    ensures IsLong(x * y)
  {
    SignOfProduct(x, y);
    Bounded(Abs(x), Abs(y), 2 * loRange, 2 * loRange);
  }

  /**
   A path with such a coordinate is accepted as if it were small, and its slopes are then
   compared wrongly: here the product wraps around to zero.
   */
  lemma MinimumSlipsThrough()
    ensures var pt1, pt2, pt3 := IntPoint(0, 2), IntPoint(MIN64, 0), IntPoint(0, 0);
      && !Exceeds(pt1, loRange) && !Exceeds(pt2, loRange) && !Exceeds(pt3, loRange)
      && WrappedEqual(pt1, pt2, pt3) && !SlopesEqual3(pt1, pt2, pt3)
  {
    assert Signed(-MIN64) == MIN64;
    assert Signed(2 * MIN64) == 0;
  }
}
