/** What p256_double and p256_add do to the points themselves
    (tools/zz9k-crypto-soft.c): in every branch they are the chord-and-tangent
    law, wherever residues other than zero can be inverted. */
module P256Affine {
  import opened Words
  import opened ModArith
  import opened P256Curve

  /** Division modulo n, as it is possible for a prime n. */
  ghost predicate IsField(inv: int -> int, n: Modulus) {
    n > 2 && forall a :: a % n != 0 ==> Cong(a * inv(a), 1, n)
  }

  datatype Point = Infinity | Affine(x: int, y: int)

  /** (X / Z^2, Y / Z^3). */
  function Affined(p: Jacobian, inv: int -> int, n: Modulus): Point {
    var i := inv(p.z);
    if p.z % n == 0 then Infinity else Affine(p.x * (i * i) % n, p.y * (i * i * i) % n)
  }

  /** The third point on the line with slope l, reflected. */
  function OnLine(x1: int, y1: int, x2: int, l: int, n: Modulus): Point {
    var x3 := l * l - x1 - x2;
    Affine(x3 % n, (l * (x1 - x3) - y1) % n)
  }

  /** The chord-and-tangent law. */
  function Law(a: Point, b: Point, inv: int -> int, n: Modulus): Point {
    if a == Infinity then b
    else if b == Infinity then a
    else if a.x != b.x then OnLine(a.x, a.y, b.x, (b.y - a.y) * inv(b.x - a.x), n)
    else if a.y != b.y || a.y == 0 then Infinity
    else OnLine(a.x, a.y, a.x, (3 * (a.x * a.x) - 3) * inv(2 * a.y), n)
  }

  // ----- dividing -----

  lemma Unit(a: int, inv: int -> int, n: Modulus)
    requires IsField(inv, n) && a % n != 0
    ensures Cong(a * inv(a), 1, n)
  {}

  lemma Cancel(a: int, b: int, c: int, inv: int -> int, n: Modulus)
    requires IsField(inv, n) && c % n != 0 && Cong(a * c, b * c, n)
    ensures Cong(a, b, n)
  {
    hide IsField;
    var i := inv(c);
    Unit(c, inv, n);
    CongMul(a * c, b * c, i, i, n);
    CongMul(a, a, c * i, 1, n);
    CongMul(b, b, c * i, 1, n);
    assert a * c * i == a * (c * i) && b * c * i == b * (c * i);
  }

  lemma NonZeroMul(a: int, b: int, inv: int -> int, n: Modulus)
    requires IsField(inv, n) && a % n != 0 && b % n != 0
    ensures a * b % n != 0
  {
    hide IsField;
    ModSmall(0, n);
    if a * b % n == 0 {
      assert Cong(a * b, 0 * b, n);
      Cancel(a, 0, b, inv, n);
    }
  }

  lemma Quotient(a: int, c: int, inv: int -> int, n: Modulus)
    requires IsField(inv, n) && c % n != 0
    ensures Cong(a * inv(c) * c, a, n) && Cong(c * (a * inv(c)), a, n)
  {
    hide IsField;
    Unit(c, inv, n);
    CongMul(a, a, c * inv(c), 1, n);
    assert a * inv(c) * c == a * (c * inv(c)) && c * (a * inv(c)) == a * (c * inv(c));
  }

  // ----- a point and its coordinates -----

  lemma PowersOfUnit(z: int, i: int, n: Modulus)
    requires Cong(z * i, 1, n)
    ensures Cong(z * z * (i * i), 1, n) && Cong(z * z * z * (i * i * i), 1, n)
  {
    CongMul(z * i, 1, z * i, 1, n);
    CongMul(z * i * (z * i), 1, z * i, 1, n);
    assert z * z * (i * i) == z * i * (z * i);
    assert z * z * z * (i * i * i) == z * i * (z * i) * (z * i) by {
      assert z * z * z * (i * i * i) == z * z * (i * i) * (z * i);
    }
  }

  lemma Undo(a: int, s: int, i: int, n: Modulus)
    requires Cong(s * i, 1, n)
    ensures Cong(a * s * i, a, n) && Cong(a * i * s, a, n)
  {
    CongMul(a, a, s * i, 1, n);
    assert a * s * i == a * (s * i) && a * i * s == a * (s * i);
  }

  lemma AffinedOf(p: Jacobian, x: int, y: int, inv: int -> int, n: Modulus)
    requires IsField(inv, n) && p.z % n != 0 && Represents(p, x, y, n)
    ensures Affined(p, inv, n) == Affine(x % n, y % n)
  {
    hide IsField;
    var z, i := p.z, inv(p.z);
    Unit(z, inv, n);
    PowersOfUnit(z, i, n);
    CongMul(p.x, x * (z * z), i * i, i * i, n);
    CongMul(p.y, y * (z * z * z), i * i * i, i * i * i, n);
    Undo(x, z * z, i * i, n);
    Undo(y, z * z * z, i * i * i, n);
  }

  lemma AffinedRepresents(p: Jacobian, inv: int -> int, n: Modulus)
    requires IsField(inv, n) && p.z % n != 0
    ensures var a := Affined(p, inv, n); Represents(p, a.x, a.y, n) && 0 <= a.x < n && 0 <= a.y < n
  {
    hide IsField;
    var z, i := p.z, inv(p.z);
    Unit(z, inv, n);
    PowersOfUnit(z, i, n);
    CongMod(p.x * (i * i), n);
    CongMod(p.y * (i * i * i), n);
    CongMul(p.x * (i * i) % n, p.x * (i * i), z * z, z * z, n);
    CongMul(p.y * (i * i * i) % n, p.y * (i * i * i), z * z * z, z * z * z, n);
    Undo(p.x, z * z, i * i, n);
    Undo(p.y, z * z * z, i * i * i, n);
  }

  lemma ReducedZero(a: int, n: Modulus)
    requires 0 <= a < n
    ensures a % n == 0 <==> a == 0
  {
    ModSmall(a, n);
  }

  lemma SameResidue(a: int, b: int, n: Modulus)
    requires 0 <= a < n && 0 <= b < n
    ensures Cong(a, b, n) <==> a == b
  {
    ModSmall(a, n);
    ModSmall(b, n);
  }

  /** Scaling by a power of a unit neither joins nor separates coordinates. */
  lemma ScaledApart(x: int, x': int, y: int, y': int, w: int, inv: int -> int, n: Modulus)
    requires IsField(inv, n) && w % n != 0
    ensures Cong(ScaledU(x, w), ScaledU(x', w), n) <==> Cong(x, x', n)
    ensures Cong(ScaledY(y, w), ScaledY(y', w), n) <==> Cong(y, y', n)
  {
    hide IsField;
    NonZeroMul(w, w, inv, n);
    NonZeroMul(w * w, w, inv, n);
    if Cong(x, x', n) {
      CongMul(x, x', w * w, w * w, n);
    } else if Cong(ScaledU(x, w), ScaledU(x', w), n) {
      Cancel(x, x', w * w, inv, n);
    }
    if Cong(y, y', n) {
      CongMul(y, y', w * w * w, w * w * w, n);
    } else if Cong(ScaledY(y, w), ScaledY(y', w), n) {
      Cancel(y, y', w * w * w, inv, n);
    }
  }

  // ----- doubling -----

  lemma InfinityIs(inv: int -> int, n: Modulus)
    ensures Affined(INFINITY, inv, n) == Infinity
  {
    ModSmall(0, n);
  }

  lemma DoubleIsLaw(p: Jacobian, inv: int -> int, n: Modulus)
    requires IsField(inv, n) && Reduced(p, n)
    ensures var a := Affined(p, inv, n); Affined(Double(p, n), inv, n) == Law(a, a, inv, n)
  {
    hide IsField, OnLine;
    InfinityIs(inv, n);
    ReducedZero(p.z, n);
    if p.z != 0 {
      var a := Affined(p, inv, n);
      AffinedRepresents(p, inv, n);
      ScaledApart(a.x, a.x, a.y, 0, p.z, inv, n);
      ReducedZero(p.y, n);
      ReducedZero(a.y, n);
      ModSmall(0, n);
      assert p.y == 0 <==> a.y == 0;
      if p.y != 0 {
        hide Affined, Represents, Double;
        DoubledSlope(p, a.x, a.y, inv, n);
      }
    }
  }

  lemma TwoIsUnit(inv: int -> int, n: Modulus)
    requires IsField(inv, n)
    ensures 2 % n != 0
  {
    ModSmall(2, n);
  }

  lemma DoubledSlope(p: Jacobian, x: int, y: int, inv: int -> int, n: Modulus)
    requires IsField(inv, n) && p.z % n != 0 && p.y % n != 0 && y % n != 0 && Represents(p, x, y, n)
    ensures Affined(Double(p, n), inv, n) == OnLine(x, y, x, (3 * (x * x) - 3) * inv(2 * y), n)
  {
    hide IsField, Affined, Represents, Double, PlainDouble;
    ModSmall(0, n);
    TwoIsUnit(inv, n);
    var m := 3 * (x * x) - 3;
    var l := m * inv(2 * y);
    NonZeroMul(2, y, inv, n);
    Quotient(m, 2 * y, inv, n);
    DoubleIsTangentRule(p, x, y, l, n);
    DoubledZ(p, n);
    NonZeroMul(p.y, p.z, inv, n);
    NonZeroMul(2, p.y * p.z, inv, n);
    AffinedOf(Double(p, n), l * l - x - x, l * (x - (l * l - x - x)) - y, inv, n);
  }

  lemma DoubledZ(p: Jacobian, n: Modulus)
    requires p.z != 0 && p.y != 0
    ensures Double(p, n).z % n == 2 * (p.y * p.z) % n
  {
    DoubleIsPlain(p, n);
  }

  // ----- adding -----

  /** The coordinates that are compared, over the common denominator. */
  lemma ComparedCoordinates(p: Jacobian, q: Jacobian, a: Point, b: Point, inv: int -> int, n: Modulus)
    requires IsField(inv, n) && p.z % n != 0 && q.z % n != 0 && a.Affine? && b.Affine?
    requires 0 <= a.x < n && 0 <= a.y < n && 0 <= b.x < n && 0 <= b.y < n
    requires Represents(p, a.x, a.y, n) && Represents(q, b.x, b.y, n)
    ensures U1(p, q, n) == U1(q, p, n) <==> a.x == b.x
    ensures S1(p, q, n) == S1(q, p, n) <==> a.y == b.y
  {
    hide IsField, Represents, ScaledU, ScaledY;
    var w := p.z * q.z;
    assert q.z * p.z == w;
    NonZeroMul(p.z, q.z, inv, n);
    ScaledCoordinate(p, q, a.x, a.y, n);
    ScaledCoordinate(q, p, b.x, b.y, n);
    ScaledApart(a.x, b.x, a.y, b.y, w, inv, n);
    SameResidue(a.x, b.x, n);
    SameResidue(a.y, b.y, n);
    SameResidue(U1(p, q, n), U1(q, p, n), n);
    SameResidue(S1(p, q, n), S1(q, p, n), n);
  }

  /** The y-coordinates p256_add compares. */
  function S1(p: Jacobian, q: Jacobian, n: Modulus): int {
    FpMul(FpMul(p.y, q.z, n), FpMul(q.z, q.z, n), n)
  }

  lemma AddIsLaw(p: Jacobian, q: Jacobian, inv: int -> int, n: Modulus)
    requires IsField(inv, n) && Reduced(p, n) && Reduced(q, n)
    ensures Affined(Add(p, q, n), inv, n) == Law(Affined(p, inv, n), Affined(q, inv, n), inv, n)
  {
    hide IsField, OnLine, Affined, Double, AddDistinct, FpMul;
    InfinityIs(inv, n);
    ReducedZero(p.z, n);
    ReducedZero(q.z, n);
    ZeroIsInfinity(p, inv, n);
    ZeroIsInfinity(q, inv, n);
    if p.z != 0 && q.z != 0 {
      var a, b := Affined(p, inv, n), Affined(q, inv, n);
      AffinedRepresents(p, inv, n);
      AffinedRepresents(q, inv, n);
      ComparedCoordinates(p, q, a, b, inv, n);
      if a.x != b.x {
        ChordSlope(p, q, a.x, a.y, b.x, b.y, inv, n);
      } else if a.y == b.y {
        DoubleIsLaw(p, inv, n);
      }
    }
  }

  lemma ZeroIsInfinity(p: Jacobian, inv: int -> int, n: Modulus)
    ensures Affined(p, inv, n) == Infinity <==> p.z % n == 0
  {}

  lemma ChordSlope(p: Jacobian, q: Jacobian, x1: int, y1: int, x2: int, y2: int, inv: int -> int, n: Modulus)
    requires IsField(inv, n) && p.z % n != 0 && q.z % n != 0 && U1(p, q, n) != U1(q, p, n)
    requires Represents(p, x1, y1, n) && Represents(q, x2, y2, n)
    requires 0 <= x1 < n && 0 <= x2 < n && x1 != x2
    ensures Affined(Add(p, q, n), inv, n) == OnLine(x1, y1, x2, (y2 - y1) * inv(x2 - x1), n)
  {
    hide IsField, Affined, Represents, Add, U1;
    ModSmall(0, n);
    Apart(x1, x2, n);
    var l := (y2 - y1) * inv(x2 - x1);
    Quotient(y2 - y1, x2 - x1, inv, n);
    AddIsChordRule(p, q, x1, y1, x2, y2, l, n);
    AddedZ(p, q, x1, y1, x2, y2, inv, n);
    AffinedOf(Add(p, q, n), l * l - x1 - x2, l * (x1 - (l * l - x1 - x2)) - y1, inv, n);
  }

  lemma Apart(a: int, b: int, n: Modulus)
    requires 0 <= a < n && 0 <= b < n && a != b
    ensures (b - a) % n != 0
  {
    if (b - a) % n == 0 {
      ModSmall(0, n);
      CongAdd(b - a, 0, a, a, n);
      SameResidue(a, b, n);
    }
  }

  lemma AddedZ(p: Jacobian, q: Jacobian, x1: int, y1: int, x2: int, y2: int, inv: int -> int, n: Modulus)
    requires IsField(inv, n) && p.z % n != 0 && q.z % n != 0 && U1(p, q, n) != U1(q, p, n)
    ensures Add(p, q, n).z % n != 0
  {
    hide IsField, FpMul, AddDistinct, PlainAdd, Double;
    ModSmall(0, n);
    var z1z1, z2z2 := FpMul(p.z, p.z, n), FpMul(q.z, q.z, n);
    var u1, u2 := FpMul(p.x, z2z2, n), FpMul(q.x, z1z1, n);
    var s1, s2 := FpMul(FpMul(p.y, q.z, n), z2z2, n), FpMul(FpMul(q.y, p.z, n), z1z1, n);
    AddIsPlain(p, q, u1, u2, s1, s2, u1, u2, s1, s2, n);
    assert Add(p, q, n) == AddDistinct(p, q, u1, u2, s1, s2, n);
    ProductReduced(p.x, z2z2, n);
    ProductReduced(q.x, z1z1, n);
    Apart(u1, u2, n);
    NonZeroMul(u2 - u1, p.z, inv, n);
    NonZeroMul((u2 - u1) * p.z, q.z, inv, n);
    PlainZ(u1, u2, s1, s2, p.z, q.z);
  }

  lemma ProductReduced(a: int, b: int, n: Modulus)
    ensures 0 <= FpMul(a, b, n) < n
  {}

  lemma PlainZ(u1: int, u2: int, s1: int, s2: int, z1: int, z2: int)
    ensures PlainAdd(u1, u2, s1, s2, z1, z2).z == (u2 - u1) * z1 * z2
  {}

  // ----- the scalar loop -----

  /** k times a point. */
  ghost function Multiple(k: nat, g: Point, inv: int -> int, n: Modulus): Point {
    if k == 0 then Infinity else Law(Multiple(k - 1, g, inv, n), g, inv, n)
  }

  ghost predicate AssociatesAt(j: nat, k: nat, g: Point, inv: int -> int, n: Modulus) {
    var a, b := Multiple(j, g, inv, n), Multiple(k, g, inv, n);
    Law(a, Law(b, g, inv, n), inv, n) == Law(Law(a, b, inv, n), g, inv, n)
  }

  /** The law associates on the multiples of g, as it does on a curve. */
  ghost predicate Associates(g: Point, inv: int -> int, n: Modulus) {
    forall j: nat, k: nat :: AssociatesAt(j, k, g, inv, n)
  }

  lemma {:induction false} MultipleAdd(j: nat, k: nat, g: Point, inv: int -> int, n: Modulus)
    requires Associates(g, inv, n)
    ensures Multiple(j + k, g, inv, n) == Law(Multiple(j, g, inv, n), Multiple(k, g, inv, n), inv, n)
  {
    hide Law, Multiple, AssociatesAt;
    if k == 0 {
      MultipleOfNothing(j, g, inv, n);
    } else {
      MultipleAdd(j, k - 1, g, inv, n);
      NextMultiple(k - 1, g, inv, n);
      NextMultiple(j + k - 1, g, inv, n);
      assert AssociatesAt(j, k - 1, g, inv, n);
      Associated(j, k - 1, g, inv, n);
    }
  }

  lemma NextMultiple(k: nat, g: Point, inv: int -> int, n: Modulus)
    ensures Multiple(k + 1, g, inv, n) == Law(Multiple(k, g, inv, n), g, inv, n)
  {}

  lemma MultipleOfNothing(j: nat, g: Point, inv: int -> int, n: Modulus)
    ensures Multiple(0, g, inv, n) == Infinity
    ensures Law(Multiple(j, g, inv, n), Infinity, inv, n) == Multiple(j, g, inv, n)
  {
    hide Multiple;
    Nought(g, inv, n);
  }

  lemma Nought(g: Point, inv: int -> int, n: Modulus)
    ensures Multiple(0, g, inv, n) == Infinity
  {}

  lemma Associated(j: nat, k: nat, g: Point, inv: int -> int, n: Modulus)
    requires AssociatesAt(j, k, g, inv, n)
    ensures Law(Multiple(j, g, inv, n), Law(Multiple(k, g, inv, n), g, inv, n), inv, n)
            == Law(Law(Multiple(j, g, inv, n), Multiple(k, g, inv, n), inv, n), g, inv, n)
  {}

  /** p256_scalar computes the k-fold point: over a field, with the law
      associating on the multiples of the point and nothing else assumed. */
  lemma {:induction false} ScalarIsMultiple(k: nat, p: Jacobian, i: nat, inv: int -> int, n: Modulus)
    requires IsField(inv, n) && Reduced(p, n) && i <= 256 && k < Pow(2, 256)
    requires Associates(Affined(p, inv, n), inv, n)
    ensures Reduced(Scalar(k, p, i, n), n)
    ensures Affined(Scalar(k, p, i, n), inv, n) == Multiple(High(k, i), Affined(p, inv, n), inv, n)
    decreases 256 - i
  {
    hide IsField, Double, Add, Affined, Law, Associates, High, Bit, Pow, Multiple;
    var g := Affined(p, inv, n);
    if i == 256 {
      DropLowBits(k, 256);
      InfinityIs(inv, n);
      Nought(g, inv, n);
    } else {
      ScalarIsMultiple(k, p, i + 1, inv, n);
      HighStep(k, i);
      var s, half := Scalar(k, p, i + 1, n), High(k, i + 1);
      DoubleIsLaw(s, inv, n);
      MultipleAdd(half, half, g, inv, n);
      if Bit(k, i) == 1 {
        AddIsLaw(Double(s, n), p, inv, n);
        NextMultiple(2 * half, g, inv, n);
      }
    }
  }

  /** The whole loop. */
  lemma WholeScalar(k: nat, p: Jacobian, inv: int -> int, n: Modulus)
    requires IsField(inv, n) && Reduced(p, n) && k < Pow(2, 256) && Associates(Affined(p, inv, n), inv, n)
    ensures Affined(Scalar(k, p, 0, n), inv, n) == Multiple(k, Affined(p, inv, n), inv, n)
  {
    hide Scalar, Affined, Associates, Pow, IsField;
    ScalarIsMultiple(k, p, 0, inv, n);
    AllBits(k);
  }

  lemma AllBits(k: nat)
    ensures High(k, 0) == k
  {
    assert Pow(2, 0) == 1;
  }
}

/** The limb code on points. */
module P256Multiple {
  import opened Words
  import opened BigNum
  import opened P256Curve
  import opened P256Affine
  import Limbs = P256Point

  /** The prime of FIPS 186-4, appendix D.1.2.3. */
  lemma PrimeOfP256(b: int)
    requires b == 0x1_0000_0000
    ensures P256 == Pow(b, 8) - Pow(b, 7) + Pow(b, 6) + Pow(b, 3) - 1
  {
    assert Pow(b, 3) == 0x1_0000_0000_0000_0000_0000_0000;
    hide Pow;
    PowAdd(b, 3, 3);
    PowAdd(b, 6, 1);
    PowAdd(b, 7, 1);
    OnePower(b);
  }

  lemma OnePower(b: int)
    ensures Pow(b, 1) == b
  {}

  /** p256_scalar on limbs leaves coordinates of the k-fold point. */
  method ScalarMultiple(out: Limbs.Point, k: array<uint32>, P: Limbs.Point, ghost j: Jacobian, ghost inv: int -> int)
    returns (ghost r: Jacobian)
    requires out.Shaped() && P.Is(j) && k.Length == 8
    requires IsField(inv, P256) && Associates(Affined(j, inv, P256), inv, P256)
    modifies out.X, out.Y, out.Z
    ensures out.Is(r) && Affined(r, inv, P256) == Multiple(old(Val(k[..])), Affined(j, inv, P256), inv, P256)
  {
    hide IsField, Associates, Affined, Multiple, Scalar, Val, Pow;
    ghost var v := Val(k[..]);
    EightLimbs(k[..]);
    Coordinates(P, j);
    Limbs.ScalarPoint(out, k, P, j);
    r := Scalar(v, j, 0, P256);
    WholeScalar(v, j, inv, P256);
  }

  lemma EightLimbs(s: seq<uint32>)
    requires |s| == 8
    ensures Val(s) < Pow(2, 256)
  {
    ValBound(s);
    WeightIsPow2(8);
  }

  lemma Coordinates(P: Limbs.Point, j: Jacobian)
    requires P.Is(j)
    ensures Reduced(j, P256)
  {}
}
