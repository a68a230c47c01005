/** The whole X25519 ladder (tools/zz9k-crypto-soft.c): wherever the multiples
    of the input point that it passes have different u-coordinates, it yields
    the u-coordinate of the multiple the scalar asks for. */
module MontgomeryLadder {
  import opened Words
  import opened ModArith
  import opened Field25519
  import opened Rfc7748
  import opened P256Curve
  import opened P256Affine
  import opened MontgomeryStep
  import Exchange = X25519

  // ----- the points of y^2 = x^3 + A x^2 + x -----

  /** The third point on the line with slope m, reflected. */
  function ThirdPoint(x1: int, y1: int, x2: int, m: int, A: int, n: Modulus): Point {
    var x3 := ChordU(x1, x2, m, A);
    Affine(x3 % n, (m * (x1 - x3) - y1) % n)
  }

  function TangentSlope(p: Point, inv: int -> int, A: int): int
    requires p.Affine?
  {
    (3 * (p.x * p.x) + 2 * A * p.x + 1) * inv(2 * p.y)
  }

  function ChordSlopeOf(p: Point, q: Point, inv: int -> int): int
    requires p.Affine? && q.Affine?
  {
    (q.y - p.y) * inv(q.x - p.x)
  }

  /** The chord-and-tangent law. */
  function Sum(p: Point, q: Point, inv: int -> int, A: int, n: Modulus): Point {
    if p == Infinity then q
    else if q == Infinity then p
    else if p.x != q.x then ThirdPoint(p.x, p.y, q.x, ChordSlopeOf(p, q, inv), A, n)
    else if p.y != q.y || p.y == 0 then Infinity
    else ThirdPoint(p.x, p.y, p.x, TangentSlope(p, inv, A), A, n)
  }

  function Opposite(p: Point, n: Modulus): Point {
    if p == Infinity then p else Affine(p.x, -p.y % n)
  }

  /** k times a point. */
  ghost function Fold(k: nat, g: Point, inv: int -> int, A: int, n: Modulus): Point {
    if k == 0 then Infinity else Sum(Fold(k - 1, g, inv, A, n), g, inv, A, n)
  }

  /** Reduced, and on the curve. */
  ghost predicate Legal(p: Point, A: int, n: Modulus) {
    p.Affine? ==> 0 <= p.x < n && 0 <= p.y < n && OnMontgomery(p.x, p.y, A, n)
  }

  // ----- the law stays on the curve -----

  lemma LineStays(x1: int, y1: int, x2: int, m: int, A: int, n: Modulus)
    requires OnMontgomery(x1, y1, A, n)
    requires Cong(m * ((x2 - x1) * m + 2 * y1), x2 * x2 + x2 * x1 + x1 * x1 + A * (x2 + x1) + 1, n)
    ensures Legal(ThirdPoint(x1, y1, x2, m, A, n), A, n)
  {
    var x3 := ChordU(x1, x2, m, A);
    var y3 := m * (x1 - x3) - y1;
    var g, r := m * ((x2 - x1) * m + 2 * y1), x2 * x2 + x2 * x1 + x1 * x1 + A * (x2 + x1) + 1;
    var f1, f3 := x1 * x1 * x1 + A * (x1 * x1) + x1, x3 * x3 * x3 + A * (x3 * x3) + x3;
    LineIdentity(x1, y1, x2, m, A);
    CongSub(y1 * y1, f1, f3, f3, n);
    CongSub(g, r, r, r, n);
    CongMul(x3 - x1, x3 - x1, g - r, 0, n);
    CongSub(y1 * y1, f1, f1, f1, n);
    CongAdd(y1 * y1 - f1, 0, (x3 - x1) * (g - r), 0, n);
    CongAdd(y3 * y3 - f3, 0, f3, f3, n);
    hide ChordU;
    ReducedStays(x3, y3, A, n);
  }

  lemma LineIdentity(x1: int, y1: int, x2: int, m: int, A: int)
    ensures var x3 := ChordU(x1, x2, m, A);
            var y3 := m * (x1 - x3) - y1;
            y3 * y3 - (x3 * x3 * x3 + A * (x3 * x3) + x3)
            == y1 * y1 - (x1 * x1 * x1 + A * (x1 * x1) + x1)
               + (x3 - x1) * (m * ((x2 - x1) * m + 2 * y1) - (x2 * x2 + x2 * x1 + x1 * x1 + A * (x2 + x1) + 1))
  {
    var x3, h := ChordU(x1, x2, m, A), m * m;
    var d := x3 - x1;
    ReflectedSquare(m, d, y1);
    BehindThePoint(m, x1, x3, y1);
    CubicsApart(x1, x3, A);
    SlopeTerms(m, x2 - x1, y1);
    ThirdPointOnLine(x1, x2, x3, h, A);
    Gathering(d, h * d + 2 * (m * y1), x3 * x3 + x3 * x1 + x1 * x1 + A * (x3 + x1) + 1);
  }

  lemma BehindThePoint(m: int, x1: int, x3: int, y: int)
    ensures m * (x1 - x3) - y == -(m * (x3 - x1) + y)
  {}

  lemma SlopeTerms(m: int, d: int, y: int)
    ensures m * (d * m + 2 * y) == m * m * d + 2 * (m * y)
  {}

  lemma Gathering(d: int, t: int, c: int)
    ensures d * t - d * c == d * (t - c)
  {}

  lemma ReflectedSquare(m: int, d: int, y: int)
    ensures -(m * d + y) * -(m * d + y) == d * (m * m * d + 2 * (m * y)) + y * y
  {
    var w := m * d;
    assert (w + y) * (w + y) == w * w + 2 * (w * y) + y * y;
    assert w * w == d * (m * m * d);
    assert w * y == d * (m * y);
  }

  lemma ThirdPointOnLine(x1: int, x2: int, x3: int, h: int, A: int)
    requires x3 == h - A - x1 - x2
    ensures h * (x3 - x1) - (x3 * x3 + x3 * x1 + x1 * x1 + A * (x3 + x1) + 1)
            == h * (x2 - x1) - (x2 * x2 + x2 * x1 + x1 * x1 + A * (x2 + x1) + 1)
  {
    assert h * (x3 - x1) - h * (x2 - x1) == h * (x3 - x2);
    assert h == x3 + A + x1 + x2;
    assert (x3 + A + x1 + x2) * (x3 - x2) == x3 * x3 - x2 * x2 + A * (x3 - x2) + x1 * (x3 - x2);
    Distribute(A, x3, x2);
    SpreadOver(A, x3, x1);
    SpreadOver(A, x2, x1);
  }

  lemma SpreadOver(A: int, x: int, y: int)
    ensures A * (x + y) == A * x + A * y
  {}

  lemma ReducedStays(x: int, y: int, A: int, n: Modulus)
    requires OnMontgomery(x, y, A, n)
    ensures Legal(Affine(x % n, y % n), A, n)
  {
    CongMod(x, n);
    CongMod(y, n);
    CongMul(y % n, y, y % n, y, n);
    CongMul(x % n, x, x % n, x, n);
    CongMul(x % n * (x % n), x * x, x % n, x, n);
    CongMul(A, A, x % n * (x % n), x * x, n);
    CongAdd(x % n * (x % n) * (x % n), x * x * x, A * (x % n * (x % n)), A * (x * x), n);
    CongAdd(x % n * (x % n) * (x % n) + A * (x % n * (x % n)), x * x * x + A * (x * x), x % n, x, n);
  }

  lemma ChordStays(p: Point, q: Point, inv: int -> int, A: int, n: Modulus)
    requires IsField(inv, n) && p.Affine? && q.Affine? && Legal(p, A, n) && Legal(q, A, n) && p.x != q.x
    ensures Legal(ThirdPoint(p.x, p.y, q.x, ChordSlopeOf(p, q, inv), A, n), A, n)
  {
    hide IsField;
    var d, m := q.x - p.x, ChordSlopeOf(p, q, inv);
    Apart(p.x, q.x, n);
    Quotient(q.y - p.y, d, inv, n);
    var r := q.x * q.x + q.x * p.x + p.x * p.x + A * (q.x + p.x) + 1;
    ChordGapZero(p.x, p.y, q.x, q.y, m, d, r, inv, A, n);
    LineStays(p.x, p.y, q.x, m, A, n);
  }

  lemma ChordGapZero(x1: int, y1: int, x2: int, y2: int, m: int, d: int, r: int, inv: int -> int, A: int, n: Modulus)
    requires IsField(inv, n) && OnMontgomery(x1, y1, A, n) && OnMontgomery(x2, y2, A, n)
    requires d == x2 - x1 && d % n != 0 && Cong(d * m, y2 - y1, n)
    requires r == x2 * x2 + x2 * x1 + x1 * x1 + A * (x2 + x1) + 1
    ensures Cong(m * (d * m + 2 * y1), r, n)
  {
    hide IsField;
    var f1, f2 := x1 * x1 * x1 + A * (x1 * x1) + x1, x2 * x2 * x2 + A * (x2 * x2) + x2;
    CubicsApart(x1, x2, A);
    CongSub(y2 * y2, f2, y1 * y1, f1, n);
    CongAdd(d * m, y2 - y1, 2 * y1, 2 * y1, n);
    CongMul(d * m, y2 - y1, d * m + 2 * y1, y2 + y1, n);
    DifferenceOfSquares(y2, y1);
    assert d * m * (d * m + 2 * y1) == m * (d * m + 2 * y1) * d;
    assert d * r == r * d;
    hide OnMontgomery;
    Cancel(m * (d * m + 2 * y1), r, d, inv, n);
  }

  lemma TangentStays(p: Point, inv: int -> int, A: int, n: Modulus)
    requires IsField(inv, n) && p.Affine? && Legal(p, A, n) && p.y != 0
    ensures Legal(ThirdPoint(p.x, p.y, p.x, TangentSlope(p, inv, A), A, n), A, n)
  {
    hide IsField;
    var m, t := TangentSlope(p, inv, A), 3 * (p.x * p.x) + 2 * A * p.x + 1;
    TwiceIsUnit(p.y, inv, n);
    Quotient(t, 2 * p.y, inv, n);
    assert m * ((p.x - p.x) * m + 2 * p.y) == 2 * p.y * m;
    assert A * (p.x + p.x) == 2 * A * p.x;
    LineStays(p.x, p.y, p.x, m, A, n);
  }

  lemma TwiceIsUnit(y: int, inv: int -> int, n: Modulus)
    requires IsField(inv, n) && 0 <= y < n && y != 0
    ensures 2 * y % n != 0
  {
    hide IsField;
    TwoIsUnit(inv, n);
    ReducedZero(y, n);
    NonZeroMul(2, y, inv, n);
  }

  lemma SumStays(p: Point, q: Point, inv: int -> int, A: int, n: Modulus)
    requires IsField(inv, n) && Legal(p, A, n) && Legal(q, A, n)
    ensures Legal(Sum(p, q, inv, A, n), A, n)
  {
    hide IsField, ThirdPoint, OnMontgomery;
    if p.Affine? && q.Affine? {
      if p.x != q.x {
        ChordStays(p, q, inv, A, n);
      } else if p.y == q.y && p.y != 0 {
        TangentStays(p, inv, A, n);
      }
    }
  }

  lemma {:induction false} FoldStays(k: nat, g: Point, inv: int -> int, A: int, n: Modulus)
    requires IsField(inv, n) && Legal(g, A, n)
    ensures Legal(Fold(k, g, inv, A, n), A, n)
  {
    hide IsField, Sum, OnMontgomery;
    if k > 0 {
      FoldStays(k - 1, g, inv, A, n);
      SumStays(Fold(k - 1, g, inv, A, n), g, inv, A, n);
    }
  }

  // ----- what a pair of the ladder stands for -----

  /** x / z is the u-coordinate of p; z is zero and x is not at infinity. */
  ghost predicate Stands(x: int, z: int, p: Point, n: Modulus) {
    match p
    case Infinity => x % n != 0 && z % n == 0
    case Affine(u, _) => z % n != 0 && Cong(x, u * z, n)
  }

  lemma DoubledStands(l: Ladder, u: int, k: int, p: Point, inv: int -> int, A: int, n: Modulus)
    requires IsField(inv, n) && A == 4 * k + 2 && Legal(p, A, n) && (p.Affine? ==> p.y != 0)
    requires Stands(l.x2, l.z2, p, n)
    ensures Stands(StepMod(l, u, k, n).x2, StepMod(l, u, k, n).z2, Sum(p, p, inv, A, n), n)
  {
    hide IsField, StepMod;
    ModSmall(0, n);
    if p == Infinity {
      DoubledInfinity(l, u, k, inv, n);
    } else {
      var a, b, z, t := p.x, p.y, l.z2, TangentSlope(p, inv, A);
      TwiceIsUnit(b, inv, n);
      Quotient(3 * (a * a) + 2 * A * a + 1, 2 * b, inv, n);
      StepDoubles(l, u, k, a, b, t, A, n);
      DoubledUnit(l, u, k, a, b, inv, A, n);
      var d := ChordU(a, a, t, A);
      assert d == t * t - A - 2 * a;
      CongMod(d, n);
      CongMul(d % n, d, StepMod(l, u, k, n).z2, StepMod(l, u, k, n).z2, n);
    }
  }

  lemma DoubledInfinity(l: Ladder, u: int, k: int, inv: int -> int, n: Modulus)
    requires IsField(inv, n) && l.x2 % n != 0 && l.z2 % n == 0
    ensures StepMod(l, u, k, n).x2 % n != 0 && StepMod(l, u, k, n).z2 % n == 0
  {
    hide IsField, StepMod;
    ModSmall(0, n);
    var x := l.x2;
    DoubledPair(l, u, k, x, 0, n);
    WithoutZ(x, k);
    NonZeroMul(x, x, inv, n);
    NonZeroMul(x * x, x * x, inv, n);
  }

  lemma WithoutZ(x: int, k: int)
    ensures var s, d := x + 0, x - 0;
            var e := s * s - d * d;
            s * s * (d * d) == x * x * (x * x) && e * (s * s + e * k) == 0
  {}

  lemma DoubledUnit(l: Ladder, u: int, k: int, a: int, b: int, inv: int -> int, A: int, n: Modulus)
    requires IsField(inv, n) && A == 4 * k + 2 && OnMontgomery(a, b, A, n) && 2 * b % n != 0
    requires l.z2 % n != 0 && Cong(l.x2, a * l.z2, n)
    ensures StepMod(l, u, k, n).z2 % n != 0
  {
    hide IsField, StepMod;
    var z, f := l.z2, a * a * a + A * (a * a) + a;
    DoubledPair(l, u, k, a * z, z, n);
    DoubledOverZ(a, z, k, A);
    var z4 := z * z * (z * z);
    NonZeroMul(z, z, inv, n);
    NonZeroMul(z * z, z * z, inv, n);
    NonZeroMul(2 * b, 2 * b, inv, n);
    NonZeroMul(2 * b * (2 * b), z4, inv, n);
    CongMul(4, 4, b * b, f, n);
    CongMul(4 * (b * b), 4 * f, z4, z4, n);
    assert 2 * b * (2 * b) == 4 * (b * b);
  }

  // ----- adding -----

  /** The point at infinity and another one: u is that one's own coordinate. */
  lemma AddedToInfinity(l: Ladder, u: int, k: int, g: Point, first: bool, inv: int -> int, n: Modulus)
    requires IsField(inv, n) && g.Affine? && g.x == u && u % n != 0
    requires Stands(l.x2, l.z2, if first then Infinity else g, n)
             && Stands(l.x3, l.z3, if first then g else Infinity, n)
    ensures Stands(StepMod(l, u, k, n).x3, StepMod(l, u, k, n).z3, g, n)
  {
    hide IsField, StepMod;
    ModSmall(0, n);
    var x, z := if first then l.x2 else l.x3, if first then l.z3 else l.z2;
    CrossProducts(u, z, x);
    if first {
      AddedPair(l, u, k, x, 0, u * z, z, n);
    } else {
      AddedPair(l, u, k, u * z, z, x, 0, n);
    }
    OwnCoordinate(StepMod(l, u, k, n).x3, StepMod(l, u, k, n).z3, u, x, z, inv, n);
  }

  lemma OwnCoordinate(x': int, z': int, u: int, x: int, z: int, inv: int -> int, n: Modulus)
    requires IsField(inv, n) && x % n != 0 && z % n != 0 && u % n != 0
    requires var w := 2 * (x * z); Cong(x', w * u * (w * u), n) && Cong(z', w * w * u, n)
    ensures z' % n != 0 && Cong(x', u * z', n)
  {
    hide IsField;
    ModSmall(0, n);
    var w := 2 * (x * z);
    TwoIsUnit(inv, n);
    NonZeroMul(x, z, inv, n);
    NonZeroMul(2, x * z, inv, n);
    NonZeroMul(w, w, inv, n);
    NonZeroMul(w * w, u, inv, n);
    CongMul(u, u, z', w * w * u, n);
    SquareOver(u, w);
  }

  lemma SquareOver(u: int, w: int)
    ensures u * (w * w * u) == w * u * (w * u)
  {}

  lemma CrossProducts(u: int, z: int, x: int)
    ensures var w := 2 * (x * z);
            var p, q := (u * z - z) * (x + 0), (u * z + z) * (x - 0);
            (p + q) * (p + q) == w * u * (w * u) && (p - q) * (p - q) == w * w
    ensures var w := 2 * (x * z);
            var p, q := (x - 0) * (u * z + z), (x + 0) * (u * z - z);
            (p + q) * (p + q) == w * u * (w * u) && (p - q) * (p - q) == w * w
  {
    var w, v := 2 * (x * z), x * z;
    assert (u * z - z) * x == u * v - v && (u * z + z) * x == u * v + v;
    assert x * (u * z + z) == u * v + v && x * (u * z - z) == u * v - v;
    assert 2 * (u * v) == w * u;
  }

  /** The slope of a line does not depend on the order of its points. */
  lemma SlopeIs(m: int, t: int, d: int, inv: int -> int, n: Modulus)
    requires IsField(inv, n) && d % n != 0 && Cong(m * d, t, n)
    ensures Cong(m, t * inv(d), n) && Cong(m * m, t * inv(d) * (t * inv(d)), n)
  {
    hide IsField;
    Quotient(t, d, inv, n);
    Cancel(m, t * inv(d), d, inv, n);
    CongMul(m, t * inv(d), m, t * inv(d), n);
  }

  lemma NegatedSlope(t: int, d: int, inv: int -> int, n: Modulus)
    requires IsField(inv, n) && d % n != 0 && -d % n != 0
    ensures Cong(-t * inv(-d) * (-t * inv(-d)), t * inv(d) * (t * inv(d)), n)
    ensures Cong(t * inv(-d) * (t * inv(-d)), t * inv(d) * (t * inv(d)), n)
  {
    hide IsField;
    var v := inv(-d);
    Quotient(-t, -d, inv, n);
    CongSub(0, 0, -t * v * -d, -t, n);
    assert -(-t * v * -d) == -t * v * d;
    assert 0 - -t * v * -d == -t * v * d;
    SlopeIs(-t * v, t, d, inv, n);
    assert -t * v * (-t * v) == t * v * (t * v);
  }

  lemma ChordUCong(a: int, c: int, m: int, m': int, A: int, n: Modulus)
    requires Cong(m * m, m' * m', n)
    ensures Cong(ChordU(a, c, m, A), ChordU(a, c, m', A), n) && ChordU(a, c, m, A) == ChordU(c, a, m, A)
  {
    CongSub(m * m, m' * m', A + a + c, A + a + c, n);
  }

  /** Points p and q with q - p = g: either order of them gives p + q. */
  lemma AddedStands(l: Ladder, u: int, k: int, p: Point, q: Point, g: Point, swapped: bool,
                    inv: int -> int, A: int, n: Modulus)
    requires IsField(inv, n) && Legal(p, A, n) && Legal(q, A, n) && p.Affine? && q.Affine? && p.x != q.x
    requires g.Affine? && g.x == u && u % n != 0 && Sum(q, Opposite(p, n), inv, A, n) == g
    requires Stands(l.x2, l.z2, if swapped then q else p, n) && Stands(l.x3, l.z3, if swapped then p else q, n)
    ensures Stands(StepMod(l, u, k, n).x3, StepMod(l, u, k, n).z3, Sum(p, q, inv, A, n), n)
  {
    hide IsField, StepMod, ChordU, OnMontgomery;
    var a, b, c, e := p.x, p.y, q.x, q.y;
    var d := c - a;
    Apart(a, c, n);
    Apart(c, a, n);
    assert a - c == -d;
    Unit(d, inv, n);
    Unit(-d, inv, n);
    DifferenceSlope(p, q, u, inv, A, n);
    var s, m := (e - b) * inv(d), (e + b) * inv(d);
    NegatedSlope(e - b, d, inv, n);
    NegatedSlope(e + b, d, inv, n);
    var s', m' := (b - e) * inv(-d), (b + e) * inv(-d);
    assert b - e == -(e - b);
    ChordUCong(a, c, s', s, A, n);
    ChordUCong(a, c, m', m, A, n);
    var x, z := StepMod(l, u, k, n).x3, StepMod(l, u, k, n).z3;
    var v := ChordU(a, c, s, A);
    if swapped {
      StepAdds(l, u, k, c, e, a, b, inv(-d), A, n);
      CongMul(ChordU(c, a, s', A), v, z, z, n);
    } else {
      StepAdds(l, u, k, a, b, c, e, inv(d), A, n);
    }
    AddedUnit(l, u, k, if swapped then c else a, if swapped then a else c, inv, n);
    CongMod(v, n);
    CongMul(v % n, v, z, z, n);
  }

  lemma AddedUnit(l: Ladder, u: int, k: int, a: int, c: int, inv: int -> int, n: Modulus)
    requires IsField(inv, n) && u % n != 0 && (c - a) % n != 0 && l.z2 % n != 0 && l.z3 % n != 0
    requires Cong(l.x2, a * l.z2, n) && Cong(l.x3, c * l.z3, n)
    ensures StepMod(l, u, k, n).z3 % n != 0
  {
    hide IsField, StepMod;
    var z2, z3, d := l.z2, l.z3, c - a;
    AddedPair(l, u, k, a * z2, z2, c * z3, z3, n);
    SumAndDifference(a, c, z2, z3, (c * z3 - z3) * (a * z2 + z2), (c * z3 + z3) * (a * z2 - z2));
    var w := z3 * z2;
    TwoIsUnit(inv, n);
    NonZeroMul(z3, z2, inv, n);
    NonZeroMul(2, w, inv, n);
    NonZeroMul(2 * w, d, inv, n);
    NonZeroMul(2 * w * d, 2 * w * d, inv, n);
    NonZeroMul(2 * w * d * (2 * w * d), u, inv, n);
    SquareOfProduct(w, d);
  }

  /** q - p = g in terms of the slope that StepAdds asks for. */
  lemma DifferenceSlope(p: Point, q: Point, u: int, inv: int -> int, A: int, n: Modulus)
    requires IsField(inv, n) && p.Affine? && q.Affine? && 0 <= p.x < n && 0 <= q.x < n && p.x != q.x
    requires Sum(q, Opposite(p, n), inv, A, n).Affine? && Sum(q, Opposite(p, n), inv, A, n).x == u
    ensures Cong(u, ChordU(p.x, q.x, (q.y + p.y) * inv(q.x - p.x), A), n)
  {
    hide IsField, ChordU;
    var a, c, b', t := p.x, q.x, -p.y % n, q.y + p.y;
    var d := c - a;
    var m := (b' - q.y) * inv(a - c);
    Apart(a, c, n);
    Apart(c, a, n);
    Quotient(b' - q.y, a - c, inv, n);
    CongMod(-p.y, n);
    CongSub(b', -p.y, q.y, q.y, n);
    CongSub(0, 0, m * (a - c), b' - q.y, n);
    CongSub(0, 0, b' - q.y, -t, n);
    assert 0 - m * (a - c) == m * d;
    SlopeIs(m, t, d, inv, n);
    ChordUCong(a, c, m, t * inv(d), A, n);
    CongMod(ChordU(c, a, m, A), n);
  }

  // ----- the ladder -----

  /** Rfc7748.Plain for any modulus and constant. */
  function PlainMod(k: nat, u: int, t: nat, c: int, n: Modulus): Ladder
    requires t <= 255
    decreases 255 - t
  {
    if t == 255 then Ladder(1, 0, u, 1)
    else
      var b := Bit(k, t);
      Swap(StepMod(Swap(PlainMod(k, u, t + 1, c, n), b), u, c, n), b)
  }

  lemma {:induction false} PlainIsPlainMod(k: nat, u: int, t: nat)
    requires t <= 255
    ensures Plain(k, u, t) == PlainMod(k, u, t, 121665, P25519)
    decreases 255 - t
  {
    hide Step, StepMod, Bit;
    if t < 255 {
      PlainIsPlainMod(k, u, t + 1);
      StepIsStepMod(Swap(Plain(k, u, t + 1), Bit(k, t)), u);
    }
  }

  ghost predicate FoldsTogether(j: nat, k: nat, g: Point, inv: int -> int, A: int, n: Modulus) {
    var a, b := Fold(j, g, inv, A, n), Fold(k, g, inv, A, n);
    Sum(a, Sum(b, g, inv, A, n), inv, A, n) == Sum(Sum(a, b, inv, A, n), g, inv, A, n)
  }

  /** The law associates on the multiples of g, as it does on a curve. */
  ghost predicate FoldsAssociate(g: Point, inv: int -> int, A: int, n: Modulus) {
    forall j: nat, k: nat :: FoldsTogether(j, k, g, inv, A, n)
  }

  lemma NextFold(k: nat, g: Point, inv: int -> int, A: int, n: Modulus)
    ensures Fold(0, g, inv, A, n) == Infinity
    ensures Fold(k + 1, g, inv, A, n) == Sum(Fold(k, g, inv, A, n), g, inv, A, n)
  {}

  lemma {:induction false} FoldAdd(j: nat, k: nat, g: Point, inv: int -> int, A: int, n: Modulus)
    requires FoldsAssociate(g, inv, A, n)
    ensures Fold(j + k, g, inv, A, n) == Sum(Fold(j, g, inv, A, n), Fold(k, g, inv, A, n), inv, A, n)
  {
    hide Fold, ThirdPoint, FoldsTogether;
    NextFold(k, g, inv, A, n);
    if k > 0 {
      hide Sum;
      FoldAdd(j, k - 1, g, inv, A, n);
      NextFold(k - 1, g, inv, A, n);
      NextFold(j + k - 1, g, inv, A, n);
      assert FoldsTogether(j, k - 1, g, inv, A, n);
      Together(j, k - 1, g, inv, A, n);
    }
  }

  lemma Together(j: nat, k: nat, g: Point, inv: int -> int, A: int, n: Modulus)
    requires FoldsTogether(j, k, g, inv, A, n)
    ensures Sum(Fold(j, g, inv, A, n), Sum(Fold(k, g, inv, A, n), g, inv, A, n), inv, A, n)
            == Sum(Sum(Fold(j, g, inv, A, n), Fold(k, g, inv, A, n), inv, A, n), g, inv, A, n)
  {}

  /** Neighbouring multiples m g and (m + 1) g: finite, neither of order two,
      with different u-coordinates, and with difference g. */
  ghost predicate Neighbours(m: nat, g: Point, inv: int -> int, A: int, n: Modulus) {
    var p, q := Fold(m, g, inv, A, n), Fold(m + 1, g, inv, A, n);
    && p.Affine? && q.Affine? && p.x != q.x && p.y != 0 && q.y != 0
    && Sum(q, Opposite(p, n), inv, A, n) == g
  }

  /** The pairs of multiples the ladder meets before bit t, but for the first,
      which is (0, g). */
  ghost predicate Along(k: nat, t: nat, g: Point, inv: int -> int, A: int, n: Modulus) {
    forall s: nat :: t < s <= 255 && High(k, s) > 0 ==> Neighbours(High(k, s), g, inv, A, n)
  }

  /** Both pairs of a step at once. */
  lemma StepStands(l: Ladder, c: int, m: nat, g: Point, b: int, inv: int -> int, A: int, n: Modulus)
    requires IsField(inv, n) && A == 4 * c + 2 && FoldsAssociate(g, inv, A, n)
    requires g.Affine? && Legal(g, A, n) && g.x % n != 0 && g.y != 0 && (b == 0 || b == 1)
    requires m > 0 ==> Neighbours(m, g, inv, A, n)
    requires Stands(l.x2, l.z2, Fold(m, g, inv, A, n), n) && Stands(l.x3, l.z3, Fold(m + 1, g, inv, A, n), n)
    ensures var r := Swap(StepMod(Swap(l, b), g.x, c, n), b);
            Stands(r.x2, r.z2, Fold(2 * m + b, g, inv, A, n), n)
            && Stands(r.x3, r.z3, Fold(2 * m + b + 1, g, inv, A, n), n)
  {
    hide IsField, StepMod, Fold, FoldsAssociate, Stands, Legal, Sum;
    var p, q, u := Fold(m, g, inv, A, n), Fold(m + 1, g, inv, A, n), g.x;
    FoldStays(m, g, inv, A, n);
    FoldStays(m + 1, g, inv, A, n);
    FoldAdd(m, m, g, inv, A, n);
    FoldAdd(m, m + 1, g, inv, A, n);
    FoldAdd(m + 1, m + 1, g, inv, A, n);
    FirstFolds(g, inv, A, n);
    var v := Swap(l, b);
    DoubledStands(v, u, c, if b == 1 then q else p, inv, A, n);
    if m == 0 {
      AddedToInfinity(v, u, c, g, b == 0, inv, n);
    } else {
      AddedStands(v, u, c, p, q, g, b == 1, inv, A, n);
    }
  }

  lemma FirstFolds(g: Point, inv: int -> int, A: int, n: Modulus)
    ensures Fold(0, g, inv, A, n) == Infinity && Fold(1, g, inv, A, n) == g
  {
    NextFold(0, g, inv, A, n);
  }

  /** The ladder stands for k g and (k + 1) g. */
  lemma {:induction false} LadderStands(k: nat, t: nat, g: Point, c: int, inv: int -> int, A: int, n: Modulus)
    requires IsField(inv, n) && A == 4 * c + 2 && FoldsAssociate(g, inv, A, n) && k < Pow(2, 255)
    requires g.Affine? && Legal(g, A, n) && g.x % n != 0 && g.y != 0
    requires t <= 255 && Along(k, t, g, inv, A, n)
    ensures var l, m := PlainMod(k, g.x, t, c, n), High(k, t);
            Stands(l.x2, l.z2, Fold(m, g, inv, A, n), n) && Stands(l.x3, l.z3, Fold(m + 1, g, inv, A, n), n)
    decreases 255 - t
  {
    hide IsField, StepMod, Fold, FoldsAssociate, Legal, Neighbours, High, Bit, Pow;
    if t == 255 {
      DropLowBits(k, 255);
      FirstFolds(g, inv, A, n);
      ModSmall(0, n);
      ModSmall(1, n);
    } else {
      LadderStands(k, t + 1, g, c, inv, A, n);
      HighStep(k, t);
      hide Stands;
      StepStands(PlainMod(k, g.x, t + 1, c, n), c, High(k, t + 1), g, Bit(k, t), inv, A, n);
    }
  }

  /** x2 / z2 at the end is the u-coordinate of k g. */
  lemma LadderAnswers(k: nat, g: Point, c: int, inv: int -> int, A: int, n: Modulus)
    requires IsField(inv, n) && A == 4 * c + 2 && FoldsAssociate(g, inv, A, n) && k < Pow(2, 255)
    requires g.Affine? && Legal(g, A, n) && g.x % n != 0 && g.y != 0
    requires Along(k, 0, g, inv, A, n) && Fold(k, g, inv, A, n).Affine?
    ensures var l := PlainMod(k, g.x, 0, c, n); l.x2 * inv(l.z2) % n == Fold(k, g, inv, A, n).x
  {
    hide IsField, PlainMod, Fold, FoldsAssociate, Along, Pow;
    LadderStands(k, 0, g, c, inv, A, n);
    AllBits(k);
    FoldStays(k, g, inv, A, n);
    var l, u := PlainMod(k, g.x, 0, c, n), Fold(k, g, inv, A, n).x;
    CongMul(l.x2, u * l.z2, inv(l.z2), inv(l.z2), n);
    Unit(l.z2, inv, n);
    CongMul(u, u, l.z2 * inv(l.z2), 1, n);
    assert u * l.z2 * inv(l.z2) == u * (l.z2 * inv(l.z2));
    ModSmall(u, n);
  }

  // ----- with the constants of the source -----

  /** Inverses are powers, as they are modulo a prime. */
  ghost predicate InvertsByPower(inv: int -> int, e: nat, n: Modulus) {
    IsField(inv, n) && forall z :: inv(z) == Pow(z, e) % n
  }

  lemma ScalarBelow(k: seq<uint8>)
    requires |k| == 32
    ensures DecodeScalar(k) < Pow(2, 255)
  {
    hide Pow;
    Exchange.Pow2Of255();
  }

  /** The number X25519 of section 5 of RFC 7748 is the u-coordinate of the
      multiple of the input point that the scalar asks for. */
  lemma X25519IsMultiple(k: seq<uint8>, u: seq<uint8>, g: Point, inv: int -> int)
    requires |k| == 32 && InvertsByPower(inv, P25519 - 2, P25519) && FoldsAssociate(g, inv, 486662, P25519)
    requires g.Affine? && g.x == DecodeU(u) && Legal(g, 486662, P25519) && g.x != 0 && g.y != 0
    requires Along(DecodeScalar(k), 0, g, inv, 486662, P25519)
    requires Fold(DecodeScalar(k), g, inv, 486662, P25519).Affine?
    ensures X25519(k, u) == Fold(DecodeScalar(k), g, inv, 486662, P25519).x
  {
    hide Pow, Fold, FoldsAssociate, Along, Legal, DecodeScalar, DecodeU, PlainMod, Plain, Iterate, Bit, IsField;
    var e := DecodeScalar(k);
    ScalarBelow(k);
    SwapFlagIsBookkeeping(e, g.x, 0);
    PlainIsPlainMod(e, g.x, 0);
    InRange(g);
    LadderAnswers(e, g, 121665, inv, 486662, P25519);
  }

  lemma InRange(g: Point)
    requires g.Affine? && Legal(g, 486662, P25519) && g.x != 0
    ensures g.x % P25519 != 0
  {
    hide OnMontgomery;
    ModSmall(g.x, P25519);
  }
}
