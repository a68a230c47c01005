/** P-256 in Jacobian coordinates (tools/zz9k-crypto-soft.c). */
module P256Curve {
  import opened Words
  import opened ModArith

  /** The field prime. */
  const P256: int := 0xffff_ffff_0000_0001_0000_0000_0000_0000_0000_0000_ffff_ffff_ffff_ffff_ffff_ffff

  /** Nothing below uses that the prime is prime: the formulas are studied for
      any modulus n > 1 and any coefficient coef for b, P-256 being one instance. */
  type Modulus = n: int | n > 1 witness 2

  function FpAdd(a: int, b: int, n: Modulus): int { (a + b) % n }
  function FpSub(a: int, b: int, n: Modulus): int { (a - b) % n }
  function FpMul(a: int, b: int, n: Modulus): int { a * b % n }

  /** X, Y and Z; the affine point is (X / Z^2, Y / Z^3), infinity has Z = 0. */
  datatype Jacobian = Jacobian(x: int, y: int, z: int)

  const INFINITY: Jacobian := Jacobian(1, 1, 0)

  predicate Reduced(p: Jacobian, n: Modulus) {
    0 <= p.x < n && 0 <= p.y < n && 0 <= p.z < n
  }

  /** Over the integers, the point misses Y^2 = X^3 - 3 X Z^4 + b Z^6 by `gap`. */
  ghost predicate Misses(p: Jacobian, gap: int, coef: int) {
    var z2 := p.z * p.z;
    p.y * p.y - Cubic(p.x, -3 * (z2 * z2), coef * (z2 * z2 * z2)) == gap
  }

  /** Y^2 = X^3 - 3 X Z^4 + b Z^6 modulo p. */
  ghost predicate OnCurve(p: Jacobian, coef: int, n: Modulus) {
    forall gap :: Misses(p, gap, coef) ==> gap % n == 0
  }

  /** p256_double. */
  function Double(p: Jacobian, n: Modulus): (r: Jacobian)
    ensures Reduced(r, n)
  {
    if p.z == 0 || p.y == 0 then INFINITY
    else
      var y2 := FpMul(p.y, p.y, n);
      var s0 := FpMul(p.x, y2, n);
      var s1 := FpAdd(s0, s0, n);
      var s := FpAdd(s1, s1, n);
      var zz := FpMul(p.z, p.z, n);
      var m0 := FpMul(FpSub(p.x, zz, n), FpAdd(p.x, zz, n), n);
      var m := FpAdd(FpAdd(m0, m0, n), m0, n);
      var x3 := FpSub(FpSub(FpMul(m, m, n), s, n), s, n);
      var t := FpMul(y2, y2, n);
      var t2 := FpAdd(t, t, n);
      var t4 := FpAdd(t2, t2, n);
      var y3 := FpSub(FpMul(m, FpSub(s, x3, n), n), FpAdd(t4, t4, n), n);
      var yz := FpMul(p.y, p.z, n);
      Jacobian(x3, y3, FpAdd(yz, yz, n))
  }

  /** p256_add. */
  function Add(p: Jacobian, q: Jacobian, n: Modulus): (r: Jacobian)
    ensures Reduced(p, n) && Reduced(q, n) ==> Reduced(r, n)
  {
    if p.z == 0 then q
    else if q.z == 0 then p
    else
      var z1z1, z2z2 := FpMul(p.z, p.z, n), FpMul(q.z, q.z, n);
      var u1, u2 := FpMul(p.x, z2z2, n), FpMul(q.x, z1z1, n);
      var s1, s2 := FpMul(FpMul(p.y, q.z, n), z2z2, n), FpMul(FpMul(q.y, p.z, n), z1z1, n);
      if u1 == u2 then (if s1 != s2 then INFINITY else Double(p, n))
      else AddDistinct(p, q, u1, u2, s1, s2, n)
  }

  function AddDistinct(p: Jacobian, q: Jacobian, u1: int, u2: int, s1: int, s2: int, n: Modulus): (r: Jacobian)
    ensures Reduced(r, n)
  {
    var h, r := FpSub(u2, u1, n), FpSub(s2, s1, n);
    var h2 := FpMul(h, h, n);
    var h3 := FpMul(h2, h, n);
    var u1h2 := FpMul(u1, h2, n);
    var x3 := FpSub(FpSub(FpSub(FpMul(r, r, n), h3, n), u1h2, n), u1h2, n);
    var y3 := FpSub(FpMul(r, FpSub(u1h2, x3, n), n), FpMul(s1, h3, n), n);
    Jacobian(x3, y3, FpMul(FpMul(h, p.z, n), q.z, n))
  }

  /** x^3 + a x + b. */
  function Cubic(x: int, a: int, b: int): int {
    x * x * x + a * x + b
  }

  function Quad(u: int, v: int): int {
    u * u + u * v + v * v
  }

  /** Reflecting the third intersection of a line with the cubic: with
      x3 = m^2 - u - v and y3 = m (u - x3) - s, the point (x3, y3) misses the
      cubic by what (u, s) misses it by, plus a multiple of `gap`, which is
      zero when v is the other root. */
  lemma LineMeetsCubic(u: int, v: int, s: int, m: int, a: int, b: int)
    ensures var x3 := m * m - u - v;
            var y3 := m * (u - x3) - s;
            var gap := m * ((v - u) * m + 2 * s) - (Quad(u, v) + a);
            y3 * y3 - Cubic(x3, a, b) == s * s - Cubic(u, a, b) + (x3 - u) * gap
  {
    var x3 := m * m - u - v;
    var d := x3 - u;
    var y3 := m * (u - x3) - s;
    LineSquared(m, d, s);
    assert y3 == -(m * d + s);
    CubicAlongLine(x3, u, a, b);
    var gap := m * ((v - u) * m + 2 * s) - (Quad(u, v) + a);
    ThirdRoot(u, v, m, x3);
    var e, c := m * m * d + 2 * m * s, x3 * x3 + x3 * u + u * u + a;
    assert e - c == gap;
    assert d * e - d * c == d * (e - c);
  }

  lemma LineSquared(m: int, d: int, s: int)
    ensures -(m * d + s) * -(m * d + s) == d * (m * m * d + 2 * m * s) + s * s
  {}

  lemma CubicAlongLine(x: int, u: int, a: int, b: int)
    ensures Cubic(x, a, b) - Cubic(u, a, b) == (x - u) * (x * x + x * u + u * u + a)
  {}

  lemma ThirdRoot(u: int, v: int, m: int, x: int)
    requires x == m * m - u - v
    ensures m * m * (x - u) - (x * x + x * u + u * u) == m * ((v - u) * m) - (u * u + u * v + v * v)
  {}

  lemma AddC(a: int, x: int, b: int, y: int, n: Modulus)
    requires Cong(a, x, n) && Cong(b, y, n)
    ensures Cong(FpAdd(a, b, n), x + y, n)
  {
    CongAdd(a, x, b, y, n);
    CongMod(a + b, n);
  }

  lemma SubC(a: int, x: int, b: int, y: int, n: Modulus)
    requires Cong(a, x, n) && Cong(b, y, n)
    ensures Cong(FpSub(a, b, n), x - y, n)
  {
    CongSub(a, x, b, y, n);
    CongMod(a - b, n);
  }

  lemma MulC(a: int, x: int, b: int, y: int, n: Modulus)
    requires Cong(a, x, n) && Cong(b, y, n)
    ensures Cong(FpMul(a, b, n), x * y, n)
  {
    CongMul(a, x, b, y, n);
    CongMod(a * b, n);
  }

  /** The coordinates agree modulo m. */
  ghost predicate SameMod(p: Jacobian, q: Jacobian, m: int)
    requires m > 0
  {
    Cong(p.x, q.x, m) && Cong(p.y, q.y, m) && Cong(p.z, q.z, m)
  }

  ghost predicate Same(p: Jacobian, q: Jacobian, n: Modulus) {
    SameMod(p, q, n)
  }

  lemma CubicC(x: int, x': int, a: int, a': int, b: int, b': int, m: int)
    requires m > 0 && Cong(x, x', m) && Cong(a, a', m) && Cong(b, b', m)
    ensures Cong(Cubic(x, a, b), Cubic(x', a', b'), m)
  {
    CongMul(x, x', x, x', m);
    CongMul(x * x, x' * x', x, x', m);
    CongMul(a, a', x, x', m);
    CongAdd(x * x * x, x' * x' * x', a * x, a' * x', m);
    CongAdd(x * x * x + a * x, x' * x' * x' + a' * x', b, b', m);
  }

  /** The coefficients a Z^4 and b Z^6. */
  function CoeffA(z: int): int { -3 * (z * z * (z * z)) }
  function CoeffB(z: int, coef: int): int { coef * (z * z * (z * z) * (z * z)) }

  lemma CoeffC(z: int, z': int, m: int, coef: int)
    requires m > 0 && Cong(z, z', m)
    ensures Cong(CoeffA(z), CoeffA(z'), m) && Cong(CoeffB(z, coef), CoeffB(z', coef), m)
  {
    CongMul(z, z', z, z', m);
    CongMul(z * z, z' * z', z * z, z' * z', m);
    CongMul(z * z * (z * z), z' * z' * (z' * z'), z * z, z' * z', m);
    CongMul(-3, -3, z * z * (z * z), z' * z' * (z' * z'), m);
    CongMul(coef, coef, z * z * (z * z) * (z * z), z' * z' * (z' * z') * (z' * z'), m);
  }

  /** Being on the curve is a property of the residues. */
  lemma SameOnCurve(p: Jacobian, q: Jacobian, coef: int, n: Modulus)
    requires Same(p, q, n) && OnCurve(q, coef, n)
    ensures OnCurve(p, coef, n)
  {
    hide Cubic, CoeffA, CoeffB;
    OnCurveMeans(q, coef, n);
    CoeffC(p.z, q.z, n, coef);
    CubicC(p.x, q.x, CoeffA(p.z), CoeffA(q.z), CoeffB(p.z, coef), CoeffB(q.z, coef), n);
    CongMul(p.y, q.y, p.y, q.y, n);
    OnCurveMeans(p, coef, n);
  }

  lemma OnCurveMeans(p: Jacobian, coef: int, n: Modulus)
    ensures OnCurve(p, coef, n) <==> Cong(p.y * p.y, Cubic(p.x, CoeffA(p.z), CoeffB(p.z, coef)), n)
  {
    hide Cubic;
    var y2, c := p.y * p.y, Cubic(p.x, CoeffA(p.z), CoeffB(p.z, coef));
    assert Misses(p, y2 - c, coef) by {
      assert c == Cubic(p.x, -3 * (p.z * p.z * (p.z * p.z)), coef * (p.z * p.z * (p.z * p.z) * (p.z * p.z)));
    }
    MultipleIsCong(y2, c, n);
  }

  lemma MultipleIsCong(x: int, y: int, m: int)
    requires m > 0
    ensures (x - y) % m == 0 <==> Cong(x, y, m)
  {
    if Cong(x, y, m) {
      CongSub(x, y, y, y, m);
      ModSmall(0, m);
    }
    if (x - y) % m == 0 {
      var k := (x - y) / m;
      assert x == y + k * m;
      CongIntro(x, y, m, k);
    }
  }

  /** p256_double over the integers. */
  function PlainDouble(p: Jacobian): Jacobian {
    var y2 := p.y * p.y;
    var s := 4 * (p.x * y2);
    var m := 3 * (p.x * p.x) + CoeffA(p.z);
    var x3 := m * m - s - s;
    Jacobian(x3, m * (s - x3) - 8 * (y2 * y2), 2 * (p.y * p.z))
  }

  lemma DoubleIsPlain(p: Jacobian, n: Modulus)
    requires p.z != 0 && p.y != 0
    ensures Same(Double(p, n), PlainDouble(p), n)
  {
    hide FpAdd, FpSub, FpMul;
    var x, y, z := p.x, p.y, p.z;
    var y2 := FpMul(y, y, n);
    MulC(y, y, y, y, n);
    var s0 := FpMul(x, y2, n);
    MulC(x, x, y2, y * y, n);
    var s1 := FpAdd(s0, s0, n);
    AddC(s0, x * (y * y), s0, x * (y * y), n);
    var s := FpAdd(s1, s1, n);
    AddC(s1, x * (y * y) + x * (y * y), s1, x * (y * y) + x * (y * y), n);
    var S := 4 * (x * (y * y));
    assert Cong(s, S, n);
    var zz := FpMul(z, z, n);
    MulC(z, z, z, z, n);
    SubC(x, x, zz, z * z, n);
    AddC(x, x, zz, z * z, n);
    var m0 := FpMul(FpSub(x, zz, n), FpAdd(x, zz, n), n);
    MulC(FpSub(x, zz, n), x - z * z, FpAdd(x, zz, n), x + z * z, n);
    var M0 := (x - z * z) * (x + z * z);
    AddC(m0, M0, m0, M0, n);
    var m := FpAdd(FpAdd(m0, m0, n), m0, n);
    AddC(FpAdd(m0, m0, n), M0 + M0, m0, M0, n);
    var M := 3 * (x * x) + CoeffA(z);
    assert M0 + M0 + M0 == M;
    MulC(m, M, m, M, n);
    SubC(FpMul(m, m, n), M * M, s, S, n);
    SubC(FpSub(FpMul(m, m, n), s, n), M * M - S, s, S, n);
    var x3, X3 := FpSub(FpSub(FpMul(m, m, n), s, n), s, n), M * M - S - S;
    SubC(s, S, x3, X3, n);
    MulC(m, M, FpSub(s, x3, n), S - X3, n);
    var t := FpMul(y2, y2, n);
    MulC(y2, y * y, y2, y * y, n);
    var T := y * y * (y * y);
    AddC(t, T, t, T, n);
    var t2 := FpAdd(t, t, n);
    AddC(t2, T + T, t2, T + T, n);
    var t4 := FpAdd(t2, t2, n);
    AddC(t4, T + T + (T + T), t4, T + T + (T + T), n);
    SubC(FpMul(m, FpSub(s, x3, n), n), M * (S - X3), FpAdd(t4, t4, n), T + T + (T + T) + (T + T + (T + T)), n);
    MulC(y, y, z, z, n);
    AddC(FpMul(y, z, n), y * z, FpMul(y, z, n), y * z, n);
  }

  /** The doubled point stays on the curve: exactly, not only modulo p, it
      misses the curve by a multiple of what the point misses it by. */
  lemma PlainDoubleMisses(p: Jacobian, coef: int)
    ensures var d := PlainDouble(p);
            var y2 := p.y * p.y;
            d.y * d.y - Cubic(d.x, CoeffA(d.z), CoeffB(d.z, coef))
            == 64 * (y2 * y2 * y2) * (y2 - Cubic(p.x, CoeffA(p.z), CoeffB(p.z, coef)))
  {
    var y2 := p.y * p.y;
    var a, b := CoeffA(p.z), CoeffB(p.z, coef);
    var s := 4 * (p.x * y2);
    var m := 3 * (p.x * p.x) + a;
    DoubledCoefficients(p.y, p.z, coef);
    TangentGap(p.x, y2, a, b);
    LineMeetsCubic(s, s, 8 * (y2 * y2), m, 16 * (y2 * y2) * a, 64 * (y2 * y2 * y2) * b);
  }

  lemma DoubledCoefficients(y: int, z: int, coef: int)
    ensures CoeffA(2 * (y * z)) == 16 * (y * y * (y * y)) * CoeffA(z)
    ensures CoeffB(2 * (y * z), coef) == 64 * (y * y * (y * y) * (y * y)) * CoeffB(z, coef)
  {
    var w := 2 * (y * z);
    var y2, z2 := y * y, z * z;
    assert w * w == 4 * (y2 * z2);
    assert w * w * (w * w) == 16 * (y2 * y2 * (z2 * z2));
    assert w * w * (w * w) * (w * w) == 64 * (y2 * y2 * y2 * (z2 * z2 * z2));
  }

  lemma TangentGap(x: int, y2: int, a: int, b: int)
    ensures var s, m, t := 4 * (x * y2), 3 * (x * x) + a, 8 * (y2 * y2);
            var a', b' := 16 * (y2 * y2) * a, 64 * (y2 * y2 * y2) * b;
            m * ((s - s) * m + 2 * t) - (Quad(s, s) + a') == 0
            && t * t - Cubic(s, a', b') == 64 * (y2 * y2 * y2) * (y2 - Cubic(x, a, b))
  {
    var s, m, t := 4 * (x * y2), 3 * (x * x) + a, 8 * (y2 * y2);
    var y4 := y2 * y2;
    TangentPowers(x, y2, y4, a);
    FourTerms(64 * (y4 * y2), y2, x * x * x, a * x, b);
  }

  lemma TangentPowers(x: int, y2: int, y4: int, a: int)
    requires y4 == y2 * y2
    ensures var s := 4 * (x * y2);
            (3 * (x * x) + a) * (2 * (8 * y4)) == 3 * (s * s) + 16 * y4 * a
            && s * s * s == 64 * (y4 * y2) * (x * x * x) && 16 * y4 * a * s == 64 * (y4 * y2) * (a * x)
            && 8 * y4 * (8 * y4) == 64 * (y4 * y2) * y2
  {
    SquareOfFour(x, y2);
    CubeOfFour(x, y2);
    assert 16 * y4 * a * (4 * (x * y2)) == 64 * (y4 * y2) * (a * x);
    assert y4 * y4 == y4 * y2 * y2;
  }

  lemma SquareOfFour(x: int, y: int)
    ensures 4 * (x * y) * (4 * (x * y)) == 16 * (x * x * (y * y))
  {}

  lemma CubeOfFour(x: int, y: int)
    ensures 4 * (x * y) * (4 * (x * y)) * (4 * (x * y)) == 64 * (y * y * y) * (x * x * x)
  {
    var w := x * y;
    assert w * w * w == y * y * y * (x * x * x);
  }

  lemma FourTerms(k: int, p: int, q: int, r: int, s: int)
    ensures k * (p - (q + r + s)) == k * p - k * q - k * r - k * s
  {}

  /** p256_double maps curve points to curve points. */
  lemma DoubleOnCurve(p: Jacobian, coef: int, n: Modulus)
    requires OnCurve(p, coef, n)
    ensures OnCurve(Double(p, n), coef, n)
  {
    hide Cubic, CoeffA, CoeffB, PlainDouble;
    if p.z == 0 || p.y == 0 {
      InfinityOnCurve(coef, n);
    } else {
      var d, y2 := PlainDouble(p), p.y * p.y;
      var c := Cubic(p.x, CoeffA(p.z), CoeffB(p.z, coef));
      PlainDoubleMisses(p, coef);
      OnCurveMeans(p, coef, n);
      MultipleOfZero(64 * (y2 * y2 * y2), y2, c, d.y * d.y, Cubic(d.x, CoeffA(d.z), CoeffB(d.z, coef)), n);
      OnCurveMeans(d, coef, n);
      DoubleIsPlain(p, n);
      SameOnCurve(Double(p, n), d, coef, n);
    }
  }

  lemma InfinityOnCurve(coef: int, n: Modulus)
    ensures OnCurve(INFINITY, coef, n)
  {
    assert coef * 0 == 0 && Cubic(1, 0, 0) == 1;
    ModSmall(0, n);
  }

  lemma MultipleOfZero(k: int, y2: int, c: int, l: int, r: int, n: Modulus)
    requires Cong(y2, c, n) && l - r == k * (y2 - c)
    ensures Cong(l, r, n)
  {
    var j := CongElim(y2, c, n);
    assert k * (j * n) == (k * j) * n;
    CongIntro(l, r, n, k * j);
  }

  /** The four scaled coordinates p256_add compares. */
  function ScaledU(x: int, z: int): int { x * (z * z) }
  function ScaledS(y: int, z: int): int { y * z * (z * z) }

  /** p256_add for different x-coordinates, over the integers. */
  function PlainAdd(u1: int, u2: int, s1: int, s2: int, z1: int, z2: int): Jacobian {
    var h, r := u2 - u1, s2 - s1;
    var h2 := h * h;
    var x3 := r * r - h2 * h - u1 * h2 - u1 * h2;
    Jacobian(x3, r * (u1 * h2 - x3) - s1 * (h2 * h), h * z1 * z2)
  }

  lemma AddIsPlain(p: Jacobian, q: Jacobian, u1: int, u2: int, s1: int, s2: int, U1: int, U2: int, S1: int,
                   S2: int, n: Modulus)
    requires Cong(u1, U1, n) && Cong(u2, U2, n) && Cong(s1, S1, n) && Cong(s2, S2, n)
    ensures Same(AddDistinct(p, q, u1, u2, s1, s2, n), PlainAdd(U1, U2, S1, S2, p.z, q.z), n)
  {
    hide FpAdd, FpSub, FpMul;
    var h, H := FpSub(u2, u1, n), U2 - U1;
    SubC(u2, U2, u1, U1, n);
    var r, R := FpSub(s2, s1, n), S2 - S1;
    SubC(s2, S2, s1, S1, n);
    var h2, H2 := FpMul(h, h, n), H * H;
    MulC(h, H, h, H, n);
    var h3 := FpMul(h2, h, n);
    MulC(h2, H2, h, H, n);
    var uh := FpMul(u1, h2, n);
    MulC(u1, U1, h2, H2, n);
    MulC(r, R, r, R, n);
    SubC(FpMul(r, r, n), R * R, h3, H2 * H, n);
    SubC(FpSub(FpMul(r, r, n), h3, n), R * R - H2 * H, uh, U1 * H2, n);
    var x3, X3 := FpSub(FpSub(FpSub(FpMul(r, r, n), h3, n), uh, n), uh, n), R * R - H2 * H - U1 * H2 - U1 * H2;
    SubC(FpSub(FpSub(FpMul(r, r, n), h3, n), uh, n), R * R - H2 * H - U1 * H2, uh, U1 * H2, n);
    SubC(uh, U1 * H2, x3, X3, n);
    MulC(r, R, FpSub(uh, x3, n), U1 * H2 - X3, n);
    MulC(s1, S1, h3, H2 * H, n);
    SubC(FpMul(r, FpSub(uh, x3, n), n), R * (U1 * H2 - X3), FpMul(s1, h3, n), S1 * (H2 * H), n);
    MulC(h, H, p.z, p.z, n);
    MulC(FpMul(h, p.z, n), H * p.z, q.z, q.z, n);
  }

  /** Scaling a point by another's Z scales what it misses the curve by. */
  lemma ScaledMisses(x: int, y: int, z: int, w: int, coef: int)
    ensures var u, s := ScaledU(x, w), ScaledS(y, w);
            s * s - Cubic(u, CoeffA(z * w), CoeffB(z * w, coef))
            == w * w * (w * w) * (w * w) * (y * y - Cubic(x, CoeffA(z), CoeffB(z, coef)))
  {
    hide Cubic, CoeffA, CoeffB;
    ScaledCoefficients(z, w, coef);
    ScaledByH(x, y, w, CoeffA(z), CoeffB(z, coef));
    assert y * w * (w * w) == y * (w * w * w);
  }

  lemma ScaledCoefficients(z: int, w: int, coef: int)
    ensures CoeffA(z * w) == w * w * (w * w) * CoeffA(z)
    ensures CoeffB(z * w, coef) == w * w * (w * w) * (w * w) * CoeffB(z, coef)
  {
    var v := z * w;
    var z2, w2 := z * z, w * w;
    assert v * v == z2 * w2;
    assert v * v * (v * v) == z2 * z2 * (w2 * w2);
    assert v * v * (v * v) * (v * v) == z2 * z2 * z2 * (w2 * w2 * w2);
  }

  lemma ChordGap(u1: int, u2: int, s1: int, s2: int, a: int, b: int)
    ensures var h, r := u2 - u1, s2 - s1;
            var h2 := h * h;
            var u, v, s := u1 * h2, u1 * h2 + h2 * h, s1 * (h2 * h);
            r * ((v - u) * r + 2 * s) - (Quad(u, v) + h2 * h2 * a)
            == h2 * h * ((s2 * s2 - Cubic(u2, a, b)) - (s1 * s1 - Cubic(u1, a, b)))
  {
    hide Cubic, Quad;
    var h, r := u2 - u1, s2 - s1;
    var h2 := h * h;
    var g, k := h2 * h, Quad(u1, u2) + a;
    var u, v := u1 * h2, u1 * h2 + g;
    assert v == u2 * h2;
    CubicDifference(u1, u2, a, b);
    SlopeTerm(g, r, s1, s2);
    SquareTerm(u1, u2, h2, a);
    Associate(h, k);
    GapGlue(r * (g * r + 2 * (s1 * g)), Quad(u, v) + h2 * h2 * a, g, h * k, s2 * s2, s1 * s1, Cubic(u2, a, b),
            Cubic(u1, a, b));
  }

  lemma Associate(h: int, k: int)
    ensures h * h * (h * h) * k == h * h * h * (h * k)
  {}

  lemma GapGlue(t: int, q: int, g: int, d: int, e2: int, e1: int, c2: int, c1: int)
    requires t == g * (e2 - e1) && q == g * d && c2 - c1 == d
    ensures t - q == g * ((e2 - c2) - (e1 - c1))
  {
    assert g * (e2 - e1) - g * d == g * (e2 - e1 - d);
  }

  lemma CubicDifference(u1: int, u2: int, a: int, b: int)
    ensures Cubic(u2, a, b) - Cubic(u1, a, b) == (u2 - u1) * (Quad(u1, u2) + a)
  {}

  lemma SlopeTerm(g: int, r: int, s1: int, s2: int)
    requires r == s2 - s1
    ensures r * (g * r + 2 * (s1 * g)) == g * (s2 * s2 - s1 * s1)
  {
    assert r * (g * r + 2 * (s1 * g)) == g * (r * (r + 2 * s1));
    assert r * (r + 2 * s1) == s2 * s2 - s1 * s1;
  }

  lemma SquareTerm(u1: int, u2: int, e: int, a: int)
    ensures Quad(u1 * e, u2 * e) + e * e * a == e * e * (Quad(u1, u2) + a)
  {
    assert u1 * e * (u1 * e) == e * e * (u1 * u1);
    assert u1 * e * (u2 * e) == e * e * (u1 * u2);
    assert u2 * e * (u2 * e) == e * e * (u2 * u2);
  }

  lemma ScaledByH(u1: int, s1: int, h: int, a: int, b: int)
    ensures var h2 := h * h;
            var u, s := u1 * h2, s1 * (h2 * h);
            s * s - Cubic(u, h2 * h2 * a, h2 * h2 * h2 * b) == h2 * h2 * h2 * (s1 * s1 - Cubic(u1, a, b))
  {
    var h2 := h * h;
    var h6 := h2 * h2 * h2;
    var u, s := u1 * h2, s1 * (h2 * h);
    assert s * s == h6 * (s1 * s1);
    assert u * u * u == h6 * (u1 * u1 * u1);
    assert h2 * h2 * a * u == h6 * (a * u1);
    assert h6 * (s1 * s1 - (u1 * u1 * u1 + a * u1 + b))
           == h6 * (s1 * s1) - h6 * (u1 * u1 * u1) - h6 * (a * u1) - h6 * b;
  }

  /** The sum misses the curve by a combination of what the summands miss it
      by. */
  lemma PlainAddMisses(u1: int, u2: int, s1: int, s2: int, z1: int, z2: int, coef: int)
    ensures var d := PlainAdd(u1, u2, s1, s2, z1, z2);
            var a, b, h := CoeffA(z1 * z2), CoeffB(z1 * z2, coef), u2 - u1;
            var e1, e2 := s1 * s1 - Cubic(u1, a, b), s2 * s2 - Cubic(u2, a, b);
            var h2 := h * h;
            d.y * d.y - Cubic(d.x, CoeffA(d.z), CoeffB(d.z, coef))
            == h2 * h2 * h2 * e1 + (d.x - u1 * h2) * (h2 * h * (e2 - e1))
  {
    hide CoeffA, CoeffB, Cubic, Quad;
    var a, b, h, r := CoeffA(z1 * z2), CoeffB(z1 * z2, coef), u2 - u1, s2 - s1;
    var h2 := h * h;
    var u, v := u1 * h2, u1 * h2 + h2 * h;
    assert h * z1 * z2 == z1 * z2 * h;
    ScaledCoefficients(z1 * z2, h, coef);
    ChordGap(u1, u2, s1, s2, a, b);
    ScaledByH(u1, s1, h, a, b);
    LineMeetsCubic(u, v, s1 * (h2 * h), r, h2 * h2 * a, h2 * h2 * h2 * b);
    var gap := r * ((v - u) * r + 2 * (s1 * (h2 * h))) - (Quad(u, v) + h2 * h2 * a);
    assert gap == h2 * h * ((s2 * s2 - Cubic(u2, a, b)) - (s1 * s1 - Cubic(u1, a, b)));
    assert PlainAdd(u1, u2, s1, s2, z1, z2).x == r * r - u - v;
  }

  lemma CombinationOfZeros(l: int, r: int, k1: int, e1: int, k2: int, k3: int, e2: int, n: Modulus)
    requires Cong(e1, 0, n) && Cong(e2, 0, n)
    requires l - r == k1 * e1 + k2 * (k3 * (e2 - e1))
    ensures Cong(l, r, n)
  {
    var i := CongElim(e1, 0, n);
    var j := CongElim(e2, 0, n);
    assert k1 * (i * n) == (k1 * i) * n;
    assert k2 * (k3 * (j * n - i * n)) == (k2 * (k3 * (j - i))) * n;
    CongIntro(l, r, n, k1 * i + k2 * (k3 * (j - i)));
  }

  lemma ScaledPointOnScaledCurve(x: int, y: int, z: int, w: int, coef: int, n: Modulus)
    requires OnCurve(Jacobian(x, y, z), coef, n)
    ensures var u, s := ScaledU(x, w), ScaledS(y, w);
            Cong(s * s - Cubic(u, CoeffA(z * w), CoeffB(z * w, coef)), 0, n)
  {
    hide Cubic, CoeffA, CoeffB;
    OnCurveMeans(Jacobian(x, y, z), coef, n);
    ScaledMisses(x, y, z, w, coef);
    var c := Cubic(x, CoeffA(z), CoeffB(z, coef));
    var k := w * w * (w * w) * (w * w);
    var u, s := ScaledU(x, w), ScaledS(y, w);
    MultipleOfZero(k, y * y, c, s * s - Cubic(u, CoeffA(z * w), CoeffB(z * w, coef)), 0, n);
  }

  /** p256_add maps curve points to curve points, in every branch. */
  lemma AddOnCurve(p: Jacobian, q: Jacobian, coef: int, n: Modulus)
    requires OnCurve(p, coef, n) && OnCurve(q, coef, n)
    ensures OnCurve(Add(p, q, n), coef, n)
  {
    hide Cubic, CoeffA, CoeffB, PlainAdd, FpAdd, FpSub, FpMul, AddDistinct, OnCurve, Double;
    if p.z != 0 && q.z != 0 {
      var z1z1, z2z2 := FpMul(p.z, p.z, n), FpMul(q.z, q.z, n);
      var u1, u2 := FpMul(p.x, z2z2, n), FpMul(q.x, z1z1, n);
      var s1, s2 := FpMul(FpMul(p.y, q.z, n), z2z2, n), FpMul(FpMul(q.y, p.z, n), z1z1, n);
      InfinityOnCurve(coef, n);
      DoubleOnCurve(p, coef, n);
      DistinctOnCurve(p, q, u1, u2, s1, s2, coef, n) by {
        MulC(p.z, p.z, p.z, p.z, n);
        MulC(q.z, q.z, q.z, q.z, n);
        MulC(p.x, p.x, z2z2, q.z * q.z, n);
        MulC(q.x, q.x, z1z1, p.z * p.z, n);
        MulC(p.y, p.y, q.z, q.z, n);
        MulC(q.y, q.y, p.z, p.z, n);
        MulC(FpMul(p.y, q.z, n), p.y * q.z, z2z2, q.z * q.z, n);
        MulC(FpMul(q.y, p.z, n), q.y * p.z, z1z1, p.z * p.z, n);
      }
    }
  }

  lemma DistinctOnCurve(p: Jacobian, q: Jacobian, u1: int, u2: int, s1: int, s2: int, coef: int, n: Modulus)
    requires OnCurve(p, coef, n) && OnCurve(q, coef, n)
    requires Cong(u1, ScaledU(p.x, q.z), n) && Cong(u2, ScaledU(q.x, p.z), n)
    requires Cong(s1, ScaledS(p.y, q.z), n) && Cong(s2, ScaledS(q.y, p.z), n)
    ensures OnCurve(AddDistinct(p, q, u1, u2, s1, s2, n), coef, n)
  {
    hide Cubic, CoeffA, CoeffB, PlainAdd, AddDistinct, ScaledU, ScaledS, OnCurve;
    var U1, U2, S1, S2 := ScaledU(p.x, q.z), ScaledU(q.x, p.z), ScaledS(p.y, q.z), ScaledS(q.y, p.z);
    ScaledPointOnScaledCurve(p.x, p.y, p.z, q.z, coef, n);
    ScaledPointOnScaledCurve(q.x, q.y, q.z, p.z, coef, n);
    assert q.z * p.z == p.z * q.z;
    PlainAddMisses(U1, U2, S1, S2, p.z, q.z, coef);
    var d := PlainAdd(U1, U2, S1, S2, p.z, q.z);
    var a, b, h := CoeffA(p.z * q.z), CoeffB(p.z * q.z, coef), U2 - U1;
    CombinationOfZeros(d.y * d.y, Cubic(d.x, CoeffA(d.z), CoeffB(d.z, coef)), h * h * (h * h) * (h * h),
                       S1 * S1 - Cubic(U1, a, b),
                       d.x - U1 * (h * h), h * h * h, S2 * S2 - Cubic(U2, a, b), n);
    OnCurveMeans(d, coef, n);
    AddIsPlain(p, q, u1, u2, s1, s2, U1, U2, S1, S2, n);
    SameOnCurve(AddDistinct(p, q, u1, u2, s1, s2, n), d, coef, n);
  }

  /** The Jacobian point stands for the affine point (x, y). */
  ghost predicate Represents(p: Jacobian, x: int, y: int, n: Modulus) {
    Cong(p.x, ScaledU(x, p.z), n) && Cong(p.y, ScaledY(y, p.z), n)
  }

  function ScaledY(y: int, z: int): int { y * (z * z * z) }

  /** The x-coordinates p256_add compares. */
  function U1(p: Jacobian, q: Jacobian, n: Modulus): int { FpMul(p.x, FpMul(q.z, q.z, n), n) }

  /** p256_add for points with different x-coordinates is the chord rule: with
      slope l, the sum is (l^2 - x1 - x2, l (x1 - x3) - y1). */
  lemma AddIsChordRule(p: Jacobian, q: Jacobian, x1: int, y1: int, x2: int, y2: int, l: int, n: Modulus)
    requires p.z != 0 && q.z != 0 && U1(p, q, n) != U1(q, p, n)
    requires Represents(p, x1, y1, n) && Represents(q, x2, y2, n)
    requires Cong(l * (x2 - x1), y2 - y1, n)
    ensures var x3 := l * l - x1 - x2;
            Represents(Add(p, q, n), x3, l * (x1 - x3) - y1, n)
  {
    hide FpMul, AddDistinct, PlainAdd, ScaledU, ScaledY, Double;
    var z1z1, z2z2 := FpMul(p.z, p.z, n), FpMul(q.z, q.z, n);
    var w := p.z * q.z;
    ScaledCoordinate(p, q, x1, y1, n);
    ScaledCoordinate(q, p, x2, y2, n);
    assert q.z * p.z == w;
    var u1, u2, s1, s2 := ScaledU(x1, w), ScaledU(x2, w), ScaledY(y1, w), ScaledY(y2, w);
    AddIsPlain(p, q, FpMul(p.x, z2z2, n), FpMul(q.x, z1z1, n), FpMul(FpMul(p.y, q.z, n), z2z2, n),
               FpMul(FpMul(q.y, p.z, n), z1z1, n), u1, u2, s1, s2, n);
    var d := PlainAdd(u1, u2, s1, s2, p.z, q.z);
    ChordRule(x1, y1, x2, y2, l, p.z, q.z, n);
    SameRepresents(Add(p, q, n), d, l * l - x1 - x2, l * (x1 - (l * l - x1 - x2)) - y1, n);
  }

  lemma SameRepresents(p: Jacobian, d: Jacobian, x: int, y: int, n: Modulus)
    requires Same(p, d, n) && Represents(d, x, y, n)
    ensures Represents(p, x, y, n)
  {
    CongMul(p.z, d.z, p.z, d.z, n);
    CongMul(p.z * p.z, d.z * d.z, p.z, d.z, n);
    CongMul(x, x, p.z * p.z, d.z * d.z, n);
    CongMul(y, y, p.z * p.z * p.z, d.z * d.z * d.z, n);
  }

  lemma ScaledCoordinate(p: Jacobian, q: Jacobian, x: int, y: int, n: Modulus)
    requires Represents(p, x, y, n)
    ensures Cong(FpMul(p.x, FpMul(q.z, q.z, n), n), ScaledU(x, p.z * q.z), n)
    ensures Cong(FpMul(FpMul(p.y, q.z, n), FpMul(q.z, q.z, n), n), ScaledY(y, p.z * q.z), n)
  {
    hide FpMul;
    var z, w := p.z, q.z;
    MulC(w, w, w, w, n);
    MulC(p.x, x * (z * z), FpMul(w, w, n), w * w, n);
    PowersOfProduct(w, z);
    assert w * z == z * w;
    Regroup(x, z * z, w * w);
    MulC(p.y, y * (z * z * z), w, w, n);
    MulC(FpMul(p.y, w, n), y * (z * z * z) * w, FpMul(w, w, n), w * w, n);
    Regroup(y * (z * z * z), w, w * w);
    assert w * (w * w) == w * w * w;
    Regroup(y, z * z * z, w * w * w);
  }

  lemma ChordRule(x1: int, y1: int, x2: int, y2: int, l: int, z1: int, z2: int, n: Modulus)
    requires Cong(l * (x2 - x1), y2 - y1, n)
    ensures var w, x3 := z1 * z2, l * l - x1 - x2;
            Represents(PlainAdd(ScaledU(x1, w), ScaledU(x2, w), ScaledY(y1, w), ScaledY(y2, w), z1, z2), x3,
                       l * (x1 - x3) - y1, n)
  {
    var w, x3 := z1 * z2, l * l - x1 - x2;
    var h, g := (x2 - x1) * (w * w), ScaledY(y2, w) - ScaledY(y1, w);
    var z := h * w;
    assert ScaledU(x2, w) - ScaledU(x1, w) == h;
    assert h * z1 * z2 == z;
    CongMul(l * (x2 - x1), y2 - y1, w * w * w, w * w * w, n);
    assert (y2 - y1) * (w * w * w) == g;
    assert l * (x2 - x1) * (w * w * w) == l * z;
    ChordX(x1, x2, l, w, h, z, g, n);
    var X := g * g - h * h * h - ScaledU(x1, w) * (h * h) - ScaledU(x1, w) * (h * h);
    ChordY(x1, y1, x3, l, w, h, z, g, X, n);
  }

  lemma ChordX(x1: int, x2: int, l: int, w: int, h: int, z: int, g: int, n: Modulus)
    requires h == (x2 - x1) * (w * w) && z == h * w && Cong(g, l * z, n)
    ensures Cong(g * g - h * h * h - ScaledU(x1, w) * (h * h) - ScaledU(x1, w) * (h * h),
                 ScaledU(l * l - x1 - x2, z), n)
  {
    var u := ScaledU(x1, w);
    CongMul(g, l * z, g, l * z, n);
    var c := h * h * h + u * (h * h) + u * (h * h);
    CongSub(g * g, l * z * (l * z), c, c, n);
    assert h * h * h == (x2 - x1) * (z * z) by {
      assert h * h * h == h * h * ((x2 - x1) * (w * w));
      assert h * h * ((x2 - x1) * (w * w)) == (x2 - x1) * (h * w * (h * w));
    }
    assert u * (h * h) == x1 * (z * z);
    assert l * z * (l * z) == l * l * (z * z);
    assert (l * l - x1 - x2) * (z * z) == l * l * (z * z) - x1 * (z * z) - x2 * (z * z);
    assert (x2 - x1) * (z * z) == x2 * (z * z) - x1 * (z * z);
  }

  lemma Regroup(a: int, b: int, c: int)
    ensures a * b * c == a * (b * c)
  {}

  lemma PowersOfProduct(h: int, w: int)
    ensures w * w * (h * h) == h * w * (h * w)
    ensures w * w * w * (h * h * h) == h * w * (h * w) * (h * w)
  {
    assert w * w * (h * h) == h * w * (h * w);
    Regroup(w * w, w, h * h * h);
    assert w * (h * h * h) == h * h * (h * w);
    assert w * w * (h * h * (h * w)) == w * w * (h * h) * (h * w);
  }

  lemma FactorSlope(l: int, z: int, a: int, b: int, z2: int, y: int)
    ensures l * z * (a * z2 - b * z2) - y * (z2 * z) == (l * (a - b) - y) * (z2 * z)
  {
    var k := z2 * z;
    assert l * z * (a * z2 - b * z2) == l * (a - b) * k;
  }

  lemma ChordY(x1: int, y1: int, x3: int, l: int, w: int, h: int, z: int, g: int, X: int, n: Modulus)
    requires z == h * w && Cong(g, l * z, n) && Cong(X, ScaledU(x3, z), n)
    ensures Cong(g * (ScaledU(x1, w) * (h * h) - X) - ScaledY(y1, w) * (h * h * h), ScaledY(l * (x1 - x3) - y1, z), n)
  {
    PowersOfProduct(h, w);
    Regroup(x1, w * w, h * h);
    Regroup(y1, w * w * w, h * h * h);
    ReflectedY(x1, y1, x3, l, z, g, X, ScaledU(x1, w) * (h * h), ScaledY(y1, w) * (h * h * h), n);
  }

  lemma ReflectedY(x1: int, y1: int, x3: int, l: int, z: int, g: int, X: int, u: int, c: int, n: Modulus)
    requires Cong(g, l * z, n) && Cong(X, ScaledU(x3, z), n) && u == x1 * (z * z) && c == y1 * (z * z * z)
    ensures Cong(g * (u - X) - c, ScaledY(l * (x1 - x3) - y1, z), n)
  {
    var z2 := z * z;
    CongSub(u, u, X, x3 * z2, n);
    CongMul(g, l * z, u - X, x1 * z2 - x3 * z2, n);
    CongSub(g * (u - X), l * z * (x1 * z2 - x3 * z2), c, c, n);
    FactorSlope(l, z, x1, x3, z2, y1);
  }

  /** p256_double is the tangent rule: the slope l satisfies
      2 y l = 3 x^2 - 3. */
  lemma DoubleIsTangentRule(p: Jacobian, x: int, y: int, l: int, n: Modulus)
    requires p.z != 0 && p.y != 0 && Represents(p, x, y, n)
    requires Cong(2 * y * l, 3 * (x * x) - 3, n)
    ensures var x3 := l * l - x - x;
            Represents(Double(p, n), x3, l * (x - x3) - y, n)
  {
    hide PlainDouble, ScaledU, ScaledY, Double;
    var e := Jacobian(ScaledU(x, p.z), ScaledY(y, p.z), p.z);
    DoubleIsPlain(p, n);
    PlainDoubleC(p, e, n);
    TangentRule(x, y, l, p.z, n);
    var x3 := l * l - x - x;
    SameRepresents(Double(p, n), PlainDouble(e), x3, l * (x - x3) - y, n);
  }

  lemma PlainDoubleC(p: Jacobian, q: Jacobian, n: int)
    requires n > 0 && SameMod(p, q, n)
    ensures SameMod(PlainDouble(p), PlainDouble(q), n)
  {
    hide CoeffA;
    var y2, y2' := p.y * p.y, q.y * q.y;
    CongMul(p.y, q.y, p.y, q.y, n);
    CongMul(p.x, q.x, y2, y2', n);
    CongMul(4, 4, p.x * y2, q.x * y2', n);
    CoeffC(p.z, q.z, n, 0);
    CongMul(p.x, q.x, p.x, q.x, n);
    CongMul(3, 3, p.x * p.x, q.x * q.x, n);
    CongAdd(3 * (p.x * p.x), 3 * (q.x * q.x), CoeffA(p.z), CoeffA(q.z), n);
    var m, m' := 3 * (p.x * p.x) + CoeffA(p.z), 3 * (q.x * q.x) + CoeffA(q.z);
    var s, s' := 4 * (p.x * y2), 4 * (q.x * y2');
    CongMul(m, m', m, m', n);
    CongSub(m * m, m' * m', s, s', n);
    CongSub(m * m - s, m' * m' - s', s, s', n);
    CongSub(s, s', m * m - s - s, m' * m' - s' - s', n);
    CongMul(m, m', s - (m * m - s - s), s' - (m' * m' - s' - s'), n);
    CongMul(y2, y2', y2, y2', n);
    CongMul(8, 8, y2 * y2, y2' * y2', n);
    CongSub(m * (s - (m * m - s - s)), m' * (s' - (m' * m' - s' - s')), 8 * (y2 * y2), 8 * (y2' * y2'), n);
    CongMul(p.y, q.y, p.z, q.z, n);
    CongMul(2, 2, p.y * p.z, q.y * q.z, n);
  }

  lemma TangentRule(x: int, y: int, l: int, z: int, n: Modulus)
    requires Cong(2 * y * l, 3 * (x * x) - 3, n)
    ensures var x3 := l * l - x - x;
            Represents(PlainDouble(Jacobian(ScaledU(x, z), ScaledY(y, z), z)), x3, l * (x - x3) - y, n)
  {
    hide ScaledY, ScaledU;
    var X, Y := ScaledU(x, z), ScaledY(y, z);
    var z4 := z * z * (z * z);
    var t := 2 * (Y * z);
    var m := 3 * (X * X) + CoeffA(z);
    TangentParts(x, y, z, l);
    CongMul(2 * y * l, 3 * (x * x) - 3, z4, z4, n);
    assert Cong(m, l * t, n);
    var s := 4 * (X * (Y * Y));
    var x3 := l * l - x - x;
    TangentX(x, l, m, t, s, n);
    ReflectedY(x, y, x3, l, t, m, m * m - s - s, s, 8 * (Y * Y * (Y * Y)), n);
  }

  lemma TangentParts(x: int, y: int, z: int, l: int)
    ensures var X, Y, z4 := ScaledU(x, z), ScaledY(y, z), z * z * (z * z);
            var t := 2 * (Y * z);
            t == 2 * (y * z4) && 2 * y * l * z4 == l * t
            && (3 * (x * x) - 3) * z4 == 3 * (X * X) + CoeffA(z)
            && 4 * (X * (Y * Y)) == x * (t * t) && 8 * (Y * Y * (Y * Y)) == y * (t * t * t)
  {
    var z2 := z * z;
    var z4 := z2 * z2;
    assert y * (z2 * z) * z == y * z4;
    assert x * z2 * (x * z2) == x * x * z4;
    SlopeParts(x, y, z4, l);
    CubeParts(x, y, z, ScaledU(x, z), ScaledY(y, z));
  }

  lemma SlopeParts(x: int, y: int, z4: int, l: int)
    ensures 2 * y * l * z4 == l * (2 * (y * z4))
    ensures (3 * (x * x) - 3) * z4 == 3 * (x * x * z4) + -3 * z4
  {}

  lemma CubeParts(x: int, y: int, z: int, X: int, Y: int)
    requires X == x * (z * z) && Y == y * (z * z * z)
    ensures var t := 2 * (Y * z);
            4 * (X * (Y * Y)) == x * (t * t) && 8 * (Y * Y * (Y * Y)) == y * (t * t * t)
  {
    var v := Y * z;
    SquarePart(x, z, Y, v);
    CubePart(y, z, Y, v);
    Twice(x, y, v);
    Regroup(Y * Y, Y, Y);
  }

  lemma SquarePart(x: int, z: int, Y: int, v: int)
    requires v == Y * z
    ensures x * (z * z) * (Y * Y) == x * (v * v)
  {
    assert v * v == z * z * (Y * Y);
    Regroup(x, z * z, Y * Y);
  }

  lemma CubePart(y: int, z: int, Y: int, v: int)
    requires v == Y * z && Y == y * (z * z * z)
    ensures y * (v * v * v) == Y * Y * Y * Y
  {
    var w, c := z * z * z, Y * Y * Y;
    assert v * v * v == c * w;
    assert y * (c * w) == c * (y * w);
  }

  lemma Twice(x: int, y: int, v: int)
    ensures x * (2 * v * (2 * v)) == 4 * (x * (v * v)) && y * (2 * v * (2 * v) * (2 * v)) == 8 * (y * (v * v * v))
  {
    assert 2 * v * (2 * v) == 4 * (v * v);
    assert 2 * v * (2 * v) * (2 * v) == 8 * (v * v * v);
  }

  lemma TangentX(x: int, l: int, m: int, t: int, s: int, n: Modulus)
    requires Cong(m, l * t, n) && s == x * (t * t)
    ensures Cong(m * m - s - s, ScaledU(l * l - x - x, t), n)
  {
    CongMul(m, l * t, m, l * t, n);
    CongSub(m * m, l * t * (l * t), s + s, s + s, n);
    assert l * t * (l * t) == l * l * (t * t);
    assert (l * l - x - x) * (t * t) == l * l * (t * t) - x * (t * t) - x * (t * t);
  }

  /** The accumulator of p256_scalar after the bits 255 down to i. */
  function Scalar(k: nat, p: Jacobian, i: nat, n: Modulus): Jacobian
    requires i <= 256
    decreases 256 - i
  {
    if i == 256 then INFINITY
    else
      var d := Double(Scalar(k, p, i + 1, n), n);
      if Bit(k, i) == 1 then Add(d, p, n) else d
  }

  lemma {:induction false} ScalarOnCurve(k: nat, p: Jacobian, i: nat, coef: int, n: Modulus)
    requires i <= 256 && Reduced(p, n) && OnCurve(p, coef, n)
    ensures Reduced(Scalar(k, p, i, n), n) && OnCurve(Scalar(k, p, i, n), coef, n)
    decreases 256 - i
  {
    hide Double, Add, OnCurve, Bit;
    if i == 256 {
      InfinityOnCurve(coef, n);
    } else {
      ScalarOnCurve(k, p, i + 1, coef, n);
      var s := Scalar(k, p, i + 1, n);
      DoubleOnCurve(s, coef, n);
      AddOnCurve(Double(s, n), p, coef, n);
    }
  }

  /** n times an element. */
  ghost function Times<G>(op: (G, G) -> G, zero: G, n: nat, g: G): G {
    if n == 0 then zero else op(Times(op, zero, n - 1, g), g)
  }

  ghost predicate IsMonoid<G(!new)>(op: (G, G) -> G, zero: G) {
    (forall a, b, c :: op(op(a, b), c) == op(a, op(b, c))) && (forall a :: op(zero, a) == a && op(a, zero) == a)
  }

  lemma {:induction false} TimesAdd<G(!new)>(op: (G, G) -> G, zero: G, m: nat, n: nat, g: G)
    requires IsMonoid(op, zero)
    ensures Times(op, zero, m + n, g) == op(Times(op, zero, m, g), Times(op, zero, n, g))
  {
    if n == 0 {
    } else {
      TimesAdd(op, zero, m, n - 1, g);
      assert Times(op, zero, m + n, g) == op(Times(op, zero, m + n - 1, g), g);
    }
  }

  /** On curve points, `rep` turns the formulas into the group operation. */
  ghost predicate FormulasAre<G(!new)>(rep: Jacobian -> G, op: (G, G) -> G, zero: G, coef: int, n: Modulus) {
    && rep(INFINITY) == zero
    && (forall p :: Reduced(p, n) && OnCurve(p, coef, n) ==> rep(Double(p, n)) == op(rep(p), rep(p)))
    && (forall p, q :: Reduced(p, n) && OnCurve(p, coef, n) && Reduced(q, n) && OnCurve(q, coef, n) ==>
        rep(Add(p, q, n)) == op(rep(p), rep(q)))
  }

  lemma DoubleIs<G(!new)>(rep: Jacobian -> G, op: (G, G) -> G, zero: G, p: Jacobian, coef: int, n: Modulus)
    requires FormulasAre(rep, op, zero, coef, n) && Reduced(p, n) && OnCurve(p, coef, n)
    ensures rep(Double(p, n)) == op(rep(p), rep(p)) && rep(INFINITY) == zero
  {}

  lemma AddIs<G(!new)>(rep: Jacobian -> G, op: (G, G) -> G, zero: G, p: Jacobian, q: Jacobian, coef: int, n: Modulus)
    requires FormulasAre(rep, op, zero, coef, n) && Reduced(p, n) && OnCurve(p, coef, n) && Reduced(q, n)
             && OnCurve(q, coef, n)
    ensures rep(Add(p, q, n)) == op(rep(p), rep(q))
  {}

  /** Wherever the formulas are the group operation, double-and-add over the
      256 scalar bits yields k times the point. */
  lemma {:induction false} ScalarMultiplies<G(!new)>(rep: Jacobian -> G, op: (G, G) -> G, zero: G, k: nat,
                                                     p: Jacobian, i: nat, coef: int, n: Modulus)
    requires IsMonoid(op, zero) && FormulasAre(rep, op, zero, coef, n)
    requires i <= 256 && Reduced(p, n) && OnCurve(p, coef, n) && k < Pow(2, 256)
    ensures rep(Scalar(k, p, i, n)) == Times(op, zero, High(k, i), rep(p))
    decreases 256 - i
  {
    hide Double, Add, OnCurve, Reduced, FormulasAre, IsMonoid, High, Bit, Pow;
    var g := rep(p);
    if i == 256 {
      DropLowBits(k, 256);
      ScalarBase(rep, op, zero, p, coef, n);
    } else {
      ScalarMultiplies(rep, op, zero, k, p, i + 1, coef, n);
      ScalarOnCurve(k, p, i + 1, coef, n);
      HighStep(k, i);
      var s, half := Scalar(k, p, i + 1, n), High(k, i + 1);
      DoubleIs(rep, op, zero, s, coef, n);
      TimesAdd(op, zero, half, half, g);
      DoubleOnCurve(s, coef, n);
      assert Reduced(Double(s, n), n);
      if Bit(k, i) == 1 {
        AddIs(rep, op, zero, Double(s, n), p, coef, n);
        assert Times(op, zero, 2 * half + 1, g) == op(Times(op, zero, 2 * half, g), g);
      }
    }
  }

  lemma ScalarBase<G(!new)>(rep: Jacobian -> G, op: (G, G) -> G, zero: G, p: Jacobian, coef: int, n: Modulus)
    requires FormulasAre(rep, op, zero, coef, n)
    ensures rep(Scalar(0, p, 256, n)) == zero && rep(INFINITY) == zero
  {}
}

module P256Point {
  import opened Words
  import opened ModArith
  import opened BigNum
  import opened P256Curve

  /** Eight limbs holding a field element. */
  ghost predicate Fe(a: array<uint32>, v: int)
    reads a
  {
    a.Length == 8 && Val(a[..]) == v && v < P256
  }

  /** The table p256_p. */
  method Prime() returns (p: array<uint32>)
    ensures fresh(p) && p.Length == 8 && Val(p[..]) == P256
  {
    p := new uint32[8];
    p[0], p[1], p[2], p[3] := 0xffff_ffff, 0xffff_ffff, 0xffff_ffff, 0;
    p[4], p[5], p[6], p[7] := 0, 0, 1, 0xffff_ffff;
    ValOfEight(p[..]);
  }

  lemma ValOfEight(s: seq<uint32>)
    requires |s| == 8
    ensures Val(s) == s[0] as int
            + BASE * (s[1] as int
                      + BASE * (s[2] as int
                                + BASE * (s[3] as int
                                          + BASE * (s[4] as int
                                                    + BASE * (s[5] as int
                                                    + BASE * (s[6] as int + BASE * s[7] as int))))))
  {
    hide Val, Weight;
    ValOfFour(s[..4]);
    ValOfFour(s[4..]);
    ValAppend(s[..4], s[4..]);
    assert s == s[..4] + s[4..];
    WeightOf4();
  }

  lemma ValOfFour(s: seq<uint32>)
    requires |s| == 4
    ensures Val(s) == s[0] as int + BASE * (s[1] as int + BASE * (s[2] as int + BASE * s[3] as int))
  {
    assert s[1..][1..] == s[2..] && s[2..][1..] == s[3..] && s[3..][1..] == [];
    assert Val(s[3..]) == s[3] as nat + BASE * Val([]);
    assert Val(s[2..]) == s[2] as nat + BASE * Val(s[3..]);
    assert Val(s[1..]) == s[1] as nat + BASE * Val(s[2..]);
  }

  lemma WeightOf4()
    ensures Weight(4) == 0x1_0000_0000_0000_0000_0000_0000_0000_0000
  {
    assert Weight(0) == 1;
    WeightStep(0);
    WeightStep(1);
    WeightStep(2);
    WeightStep(3);
  }

  lemma WeightOf8()
    ensures Weight(8) == 0x1_0000_0000_0000_0000_0000_0000_0000_0000_0000_0000_0000_0000_0000_0000_0000_0000
  {
    WeightOf4();
    WeightAdd(4, 4);
  }

  lemma FeMeans(a: array<uint32>, v: int)
    requires Fe(a, v)
    ensures a.Length == 8 && a[..8] == a[..] && Val(a[..8]) == v && 0 <= v < P256 < Weight(8)
  {
    WeightOf8();
  }

  lemma FeIs(a: array<uint32>, v: int)
    requires a.Length == 8 && Val(a[..8]) == v && 0 <= v < P256
    ensures Fe(a, v)
  {
    assert a[..8] == a[..];
  }

  /** fp_add; `r` may be `a` or `b`. */
  method AddFe(r: array<uint32>, a: array<uint32>, b: array<uint32>, ghost x: int, ghost y: int)
    requires Fe(a, x) && Fe(b, y) && r.Length == 8
    modifies r
    ensures Fe(r, FpAdd(x, y, P256))
  {
    hide Val, Weight, Fe;
    FeMeans(a, x);
    FeMeans(b, y);
    var t := new uint32[8];
    var p := Prime();
    assert p[..8] == p[..];
    var c := AddLimbs(t, a, b, 8);
    ghost var v := Val(t[..8]);
    var cmp := Cmp(t, p, 8);
    if c == 1 || cmp >= 0 {
      var borrow := SubLimbs(t, t, p, 8);
      ValBound(t[..8]);
      ReducedSum(x, y, v, c as int, Val(t[..8]), borrow as int, Weight(8));
    }
    SumResidue(x, y);
    CopyLimbs(r, t, 8);
    FeIs(r, FpAdd(x, y, P256));
  }

  lemma SumResidue(x: int, y: int)
    requires 0 <= x < P256 && 0 <= y < P256
    ensures FpAdd(x, y, P256) == if x + y < P256 then x + y else x + y - P256
  {
    if x + y < P256 {
      ModSmall(x + y, P256);
    } else {
      DivModUnique(x + y, P256, 1, x + y - P256);
    }
  }

  lemma ReducedSum(x: int, y: int, v: int, c: int, v': int, borrow: int, w: int)
    requires 0 <= x < P256 < w && 0 <= y < P256 && 0 <= c <= 1 && 0 <= borrow <= 1
    requires v + w * c == x + y && v' - w * borrow == v - P256
    requires c == 1 || v >= P256
    requires 0 <= v' < w
    ensures v' == x + y - P256
  {
    assert w * c == (if c == 1 then w else 0) && w * borrow == (if borrow == 1 then w else 0);
  }

  /** fp_sub; `r` may be `a` or `b`. */
  method SubFe(r: array<uint32>, a: array<uint32>, b: array<uint32>, ghost x: int, ghost y: int)
    requires Fe(a, x) && Fe(b, y) && r.Length == 8
    modifies r
    ensures Fe(r, FpSub(x, y, P256))
  {
    hide Val, Weight, Fe;
    FeMeans(a, x);
    FeMeans(b, y);
    var t := new uint32[8];
    var p := Prime();
    assert p[..8] == p[..];
    var borrow := SubLimbs(t, a, b, 8);
    ghost var v := Val(t[..8]);
    ValBound(t[..8]);
    if borrow == 1 {
      var c := AddLimbs(t, t, p, 8);
      ValBound(t[..8]);
      Borrowed(x, y, v, c as int, Val(t[..8]), Weight(8));
    }
    DifferenceResidue(x, y);
    CopyLimbs(r, t, 8);
    FeIs(r, FpSub(x, y, P256));
  }

  lemma DifferenceResidue(x: int, y: int)
    requires 0 <= x < P256 && 0 <= y < P256
    ensures FpSub(x, y, P256) == if x >= y then x - y else x - y + P256
  {
    if x >= y {
      ModSmall(x - y, P256);
    } else {
      DivModUnique(x - y, P256, -1, x - y + P256);
    }
  }

  lemma Borrowed(x: int, y: int, v: int, c: int, v': int, w: int)
    requires 0 <= x < P256 < w && 0 <= y < P256 && 0 <= c <= 1 && 0 <= v < w && 0 <= v' < w
    requires v - w == x - y && v' + w * c == v + P256
    ensures v' == x - y + P256 && x < y
  {
    assert w * c == (if c == 1 then w else 0);
  }

  /** fp_mul and fp_sqr; `r` may be `a` or `b`. */
  method MulFe(r: array<uint32>, a: array<uint32>, b: array<uint32>, ghost x: int, ghost y: int)
    requires Fe(a, x) && Fe(b, y) && r.Length == 8
    modifies r
    ensures Fe(r, FpMul(x, y, P256))
  {
    hide Val, Weight, Fe;
    FeMeans(a, x);
    FeMeans(b, y);
    var p := Prime();
    assert p[..8] == p[..];
    MulMod(r, a, b, p, 8);
    FeIs(r, FpMul(x, y, P256));
  }

  /** fp_is_zero: the or of all limbs is zero. */
  method IsZero(a: array<uint32>, ghost x: int) returns (z: bool)
    requires Fe(a, x)
    ensures z <==> x == 0
  {
    hide Val;
    z := true;
    for i := 0 to 8
      invariant z <==> forall k :: 0 <= k < i ==> a[k] == 0
    {
      z := z && a[i] == 0;
    }
    if x == 0 {
      ValZeroConverse(a[..]);
      assert forall k :: 0 <= k < 8 ==> a[k] == a[..][k];
    }
    if z {
      ValZeros(a[..]);
    }
  }

  /** A point: three field elements. */
  class Point {
    const X: array<uint32>
    const Y: array<uint32>
    const Z: array<uint32>

    constructor ()
      ensures fresh(X) && fresh(Y) && fresh(Z) && Shaped()
    {
      X, Y, Z := new uint32[8], new uint32[8], new uint32[8];
    }

    predicate Shaped() {
      X.Length == 8 && Y.Length == 8 && Z.Length == 8 && X != Y && X != Z && Y != Z
    }

    /** The point's coordinates are j. */
    ghost predicate Is(j: Jacobian)
      reads X, Y, Z
    {
      Shaped() && Fe(X, j.x) && Fe(Y, j.y) && Fe(Z, j.z)
    }

    /** The three closing copies of p256_double and p256_add. */
    method Store(x: array<uint32>, y: array<uint32>, z: array<uint32>, ghost j: Jacobian)
      requires Shaped() && Fe(x, j.x) && Fe(y, j.y) && Fe(z, j.z)
      requires x != Y && x != Z && y != X && y != Z && z != X && z != Y
      modifies X, Y, Z
      ensures Is(j)
    {
      hide Fe;
      CopyFe(X, x, j.x);
      CopyFe(Y, y, j.y);
      CopyFe(Z, z, j.z);
    }

    /** p256_set_infinity. */
    method SetInfinity()
      requires Shaped()
      modifies X, Y, Z
      ensures Is(INFINITY)
    {
      for i := 0 to 8
        invariant forall k :: 0 <= k < i ==> X[k] == 0 && Y[k] == 0 && Z[k] == 0
      {
        X[i], Y[i], Z[i] := 0, 0, 0;
      }
      X[0] := 1;
      Y[0] := 1;
      ValOne(X[..]);
      ValOne(Y[..]);
      ValZeros(Z[..]);
    }
  }

  method CopyFe(r: array<uint32>, a: array<uint32>, ghost v: int)
    requires Fe(a, v) && r.Length == 8
    modifies r
    ensures Fe(r, v)
  {
    hide Val;
    FeMeans(a, v);
    CopyLimbs(r, a, 8);
    FeIs(r, v);
  }

  /** Y^2 and S = 4 X Y^2. */
  method DoubleS(X: array<uint32>, Y: array<uint32>, ghost x: int, ghost y: int)
    returns (Y2: array<uint32>, S: array<uint32>)
    requires Fe(X, x) && Fe(Y, y)
    ensures fresh(Y2) && fresh(S)
    ensures var y2 := FpMul(y, y, P256);
            var s0 := FpMul(x, y2, P256);
            var s1 := FpAdd(s0, s0, P256);
            Fe(Y2, y2) && Fe(S, FpAdd(s1, s1, P256))
  {
    hide Fe, FpAdd, FpSub, FpMul;
    Y2, S := new uint32[8], new uint32[8];
    ghost var y2 := FpMul(y, y, P256);
    ghost var s0 := FpMul(x, y2, P256);
    MulFe(Y2, Y, Y, y, y);
    MulFe(S, X, Y2, x, y2);
    AddFe(S, S, S, s0, s0);
    AddFe(S, S, S, FpAdd(s0, s0, P256), FpAdd(s0, s0, P256));
  }

  /** M = 3 (X - Z^2)(X + Z^2). */
  method DoubleM(X: array<uint32>, Z: array<uint32>, ghost x: int, ghost z: int) returns (M: array<uint32>)
    requires Fe(X, x) && Fe(Z, z)
    ensures fresh(M)
    ensures var zz := FpMul(z, z, P256);
            var m0 := FpMul(FpSub(x, zz, P256), FpAdd(x, zz, P256), P256);
            Fe(M, FpAdd(FpAdd(m0, m0, P256), m0, P256))
  {
    hide Fe, FpAdd, FpSub, FpMul;
    M := new uint32[8];
    var t1, t2 := new uint32[8], new uint32[8];
    ghost var zz := FpMul(z, z, P256);
    ghost var m0 := FpMul(FpSub(x, zz, P256), FpAdd(x, zz, P256), P256);
    MulFe(t1, Z, Z, z, z);
    SubFe(t2, X, t1, x, zz);
    AddFe(t1, X, t1, x, zz);
    MulFe(M, t2, t1, FpSub(x, zz, P256), FpAdd(x, zz, P256));
    AddFe(t1, M, M, m0, m0);
    AddFe(M, t1, M, FpAdd(m0, m0, P256), m0);
  }

  /** Eight times the square, by doubling. */
  method EightSquares(Y2: array<uint32>, ghost y2: int) returns (t2: array<uint32>)
    requires Fe(Y2, y2)
    ensures fresh(t2)
    ensures var t := FpMul(y2, y2, P256);
            var t4 := FpAdd(FpAdd(t, t, P256), FpAdd(t, t, P256), P256);
            Fe(t2, FpAdd(t4, t4, P256))
  {
    hide Fe, FpAdd, FpSub, FpMul;
    t2 := new uint32[8];
    ghost var t := FpMul(y2, y2, P256);
    ghost var t4 := FpAdd(FpAdd(t, t, P256), FpAdd(t, t, P256), P256);
    MulFe(t2, Y2, Y2, y2, y2);
    AddFe(t2, t2, t2, t, t);
    AddFe(t2, t2, t2, FpAdd(t, t, P256), FpAdd(t, t, P256));
    AddFe(t2, t2, t2, t4, t4);
  }

  /** X3 = M^2 - 2 S and Y3 = M (S - X3) - 8 Y^4. */
  method DoubleXY(Y2: array<uint32>, S: array<uint32>, M: array<uint32>, ghost y2: int, ghost s: int, ghost m: int)
    returns (X3: array<uint32>, Y3: array<uint32>)
    requires Fe(Y2, y2) && Fe(S, s) && Fe(M, m)
    ensures fresh(X3) && fresh(Y3)
    ensures var x3 := FpSub(FpSub(FpMul(m, m, P256), s, P256), s, P256);
            var t := FpMul(y2, y2, P256);
            var t2 := FpAdd(t, t, P256);
            var t4 := FpAdd(t2, t2, P256);
            Fe(X3, x3) && Fe(Y3, FpSub(FpMul(m, FpSub(s, x3, P256), P256), FpAdd(t4, t4, P256), P256))
  {
    hide Fe, FpAdd, FpSub, FpMul;
    X3, Y3 := new uint32[8], new uint32[8];
    var t1 := new uint32[8];
    ghost var x3 := FpSub(FpSub(FpMul(m, m, P256), s, P256), s, P256);
    ghost var t := FpMul(y2, y2, P256);
    ghost var t4 := FpAdd(FpAdd(t, t, P256), FpAdd(t, t, P256), P256);
    MulFe(X3, M, M, m, m);
    SubFe(X3, X3, S, FpMul(m, m, P256), s);
    SubFe(X3, X3, S, FpSub(FpMul(m, m, P256), s, P256), s);
    SubFe(t1, S, X3, s, x3);
    MulFe(Y3, M, t1, m, FpSub(s, x3, P256));
    var t2 := EightSquares(Y2, y2);
    SubFe(Y3, Y3, t2, FpMul(m, FpSub(s, x3, P256), P256), FpAdd(t4, t4, P256));
  }

  /** p256_double; `out` may be `P`. */
  method DoublePoint(out: Point, P: Point, ghost j: Jacobian)
    requires out.Shaped() && P.Is(j)
    modifies out.X, out.Y, out.Z
    ensures out.Is(Double(j, P256))
  {
    hide Fe, FpAdd, FpSub, FpMul;
    var z0 := IsZero(P.Z, j.z);
    var y0 := IsZero(P.Y, j.y);
    if z0 || y0 {
      out.SetInfinity();
      return;
    }
    var Y2, S := DoubleS(P.X, P.Y, j.x, j.y);
    var M := DoubleM(P.X, P.Z, j.x, j.z);
    ghost var y2, zz := FpMul(j.y, j.y, P256), FpMul(j.z, j.z, P256);
    ghost var s0 := FpMul(j.x, y2, P256);
    ghost var m0 := FpMul(FpSub(j.x, zz, P256), FpAdd(j.x, zz, P256), P256);
    var X3, Y3 := DoubleXY(Y2, S, M, y2, FpAdd(FpAdd(s0, s0, P256), FpAdd(s0, s0, P256), P256),
                           FpAdd(FpAdd(m0, m0, P256), m0, P256));
    var Z3 := new uint32[8];
    MulFe(Z3, P.Y, P.Z, j.y, j.z);
    AddFe(Z3, Z3, Z3, FpMul(j.y, j.z, P256), FpMul(j.y, j.z, P256));
    out.Store(X3, Y3, Z3, Double(j, P256));
  }

  /** The scaled coordinates p256_add compares. */
  method ScaledPair(X: array<uint32>, Y: array<uint32>, Z: array<uint32>, ghost x: int, ghost y: int, ghost z: int)
    returns (U: array<uint32>, S: array<uint32>)
    requires Fe(X, x) && Fe(Y, y) && Fe(Z, z)
    ensures fresh(U) && fresh(S)
    ensures Fe(U, FpMul(x, FpMul(z, z, P256), P256)) && Fe(S, FpMul(FpMul(y, z, P256), FpMul(z, z, P256), P256))
  {
    hide Fe, FpMul;
    U, S := new uint32[8], new uint32[8];
    var ZZ := new uint32[8];
    MulFe(ZZ, Z, Z, z, z);
    MulFe(U, X, ZZ, x, FpMul(z, z, P256));
    MulFe(S, Y, Z, y, z);
    MulFe(S, S, ZZ, FpMul(y, z, P256), FpMul(z, z, P256));
  }

  method EqualFe(a: array<uint32>, b: array<uint32>, ghost x: int, ghost y: int) returns (e: bool)
    requires Fe(a, x) && Fe(b, y)
    ensures e <==> x == y
  {
    hide Val;
    FeMeans(a, x);
    FeMeans(b, y);
    var c := Cmp(a, b, 8);
    e := c == 0;
  }

  /** X3 and Y3 for points with different x-coordinates. */
  method AddXY(U1H2: array<uint32>, R: array<uint32>, H3: array<uint32>, S1: array<uint32>,
               ghost uh: int, ghost r: int, ghost h3: int, ghost s1: int) returns (X3: array<uint32>, Y3: array<uint32>)
    requires Fe(U1H2, uh) && Fe(R, r) && Fe(H3, h3) && Fe(S1, s1)
    ensures fresh(X3) && fresh(Y3)
    ensures var x3 := FpSub(FpSub(FpSub(FpMul(r, r, P256), h3, P256), uh, P256), uh, P256);
            Fe(X3, x3) && Fe(Y3, FpSub(FpMul(r, FpSub(uh, x3, P256), P256), FpMul(s1, h3, P256), P256))
  {
    hide Fe, FpAdd, FpSub, FpMul;
    X3, Y3 := new uint32[8], new uint32[8];
    var t := new uint32[8];
    ghost var x3 := FpSub(FpSub(FpSub(FpMul(r, r, P256), h3, P256), uh, P256), uh, P256);
    MulFe(X3, R, R, r, r);
    SubFe(X3, X3, H3, FpMul(r, r, P256), h3);
    SubFe(X3, X3, U1H2, FpSub(FpMul(r, r, P256), h3, P256), uh);
    SubFe(X3, X3, U1H2, FpSub(FpSub(FpMul(r, r, P256), h3, P256), uh, P256), uh);
    SubFe(t, U1H2, X3, uh, x3);
    MulFe(Y3, R, t, r, FpSub(uh, x3, P256));
    MulFe(t, S1, H3, s1, h3);
    SubFe(Y3, Y3, t, FpMul(r, FpSub(uh, x3, P256), P256), FpMul(s1, h3, P256));
  }

  /** H, R, H^3 and U1 H^2. */
  method AddSlope(Ua: array<uint32>, Ub: array<uint32>, Sa: array<uint32>, Sb: array<uint32>, ghost u1: int,
                  ghost u2: int, ghost s1: int, ghost s2: int)
    returns (H: array<uint32>, R: array<uint32>, H3: array<uint32>, U1H2: array<uint32>)
    requires Fe(Ua, u1) && Fe(Ub, u2) && Fe(Sa, s1) && Fe(Sb, s2)
    ensures fresh(H) && fresh(R) && fresh(H3) && fresh(U1H2)
    ensures var h := FpSub(u2, u1, P256);
            Fe(H, h) && Fe(R, FpSub(s2, s1, P256)) && Fe(H3, FpMul(FpMul(h, h, P256), h, P256))
                && Fe(U1H2, FpMul(u1, FpMul(h, h, P256), P256))
  {
    hide Fe, FpSub, FpMul;
    H, R, H3, U1H2 := new uint32[8], new uint32[8], new uint32[8], new uint32[8];
    var H2 := new uint32[8];
    ghost var h := FpSub(u2, u1, P256);
    SubFe(H, Ub, Ua, u2, u1);
    SubFe(R, Sb, Sa, s2, s1);
    MulFe(H2, H, H, h, h);
    MulFe(H3, H2, H, FpMul(h, h, P256), h);
    MulFe(U1H2, Ua, H2, u1, FpMul(h, h, P256));
  }

  /** Struct assignment. */
  method CopyPoint(out: Point, P: Point, ghost j: Jacobian)
    requires out.Shaped() && P.Is(j)
    requires out == P || (P.X != out.X && P.X != out.Y && P.X != out.Z && P.Y != out.X && P.Y != out.Y
                          && P.Y != out.Z && P.Z != out.X && P.Z != out.Y && P.Z != out.Z)
    modifies out.X, out.Y, out.Z
    ensures out.Is(j)
  {
    hide Fe;
    if out != P {
      out.Store(P.X, P.Y, P.Z, j);
    }
  }

  /** Two points share no limbs. */
  ghost predicate Apart(p: Point, q: Point) {
    p.X != q.X && p.X != q.Y && p.X != q.Z && p.Y != q.X && p.Y != q.Y && p.Y != q.Z && p.Z != q.X && p.Z != q.Y
        && p.Z != q.Z
  }

  /** p256_add; `out` may be `P` or `Q`. */
  method AddPoints(out: Point, P: Point, Q: Point, ghost j: Jacobian, ghost k: Jacobian)
    requires out.Shaped() && P.Is(j) && Q.Is(k)
    requires out == P || Apart(P, out)
    requires out == Q || Apart(Q, out)
    modifies out.X, out.Y, out.Z
    ensures out.Is(Add(j, k, P256))
  {
    hide Fe, FpAdd, FpSub, FpMul, Double;
    var zp := IsZero(P.Z, j.z);
    if zp {
      CopyPoint(out, Q, k);
      return;
    }
    var zq := IsZero(Q.Z, k.z);
    if zq {
      CopyPoint(out, P, j);
      return;
    }
    var Ua, Sa := ScaledPair(P.X, P.Y, Q.Z, j.x, j.y, k.z);
    var Ub, Sb := ScaledPair(Q.X, Q.Y, P.Z, k.x, k.y, j.z);
    ghost var zz1, zz2 := FpMul(j.z, j.z, P256), FpMul(k.z, k.z, P256);
    ghost var u1, u2 := FpMul(j.x, zz2, P256), FpMul(k.x, zz1, P256);
    ghost var s1, s2 := FpMul(FpMul(j.y, k.z, P256), zz2, P256), FpMul(FpMul(k.y, j.z, P256), zz1, P256);
    var sameU := EqualFe(Ua, Ub, u1, u2);
    if sameU {
      var sameS := EqualFe(Sa, Sb, s1, s2);
      if !sameS {
        out.SetInfinity();
      } else {
        DoublePoint(out, P, j);
      }
      return;
    }
    AddDifferent(out, P.Z, Q.Z, Ua, Ub, Sa, Sb, j, k, u1, u2, s1, s2);
  }

  method AddDifferent(out: Point, PZ: array<uint32>, QZ: array<uint32>, Ua: array<uint32>, Ub: array<uint32>,
                      Sa: array<uint32>, Sb: array<uint32>,
                      ghost j: Jacobian, ghost k: Jacobian, ghost u1: int, ghost u2: int, ghost s1: int, ghost s2: int)
    requires out.Shaped() && Fe(PZ, j.z) && Fe(QZ, k.z) && Fe(Ua, u1) && Fe(Ub, u2) && Fe(Sa, s1) && Fe(Sb, s2)
    modifies out.X, out.Y, out.Z
    ensures out.Is(AddDistinct(j, k, u1, u2, s1, s2, P256))
  {
    hide Fe, FpAdd, FpSub, FpMul;
    var H, R, H3, U1H2 := AddSlope(Ua, Ub, Sa, Sb, u1, u2, s1, s2);
    ghost var h := FpSub(u2, u1, P256);
    var X3, Y3 := AddXY(U1H2, R, H3, Sa, FpMul(u1, FpMul(h, h, P256), P256), FpSub(s2, s1, P256),
                        FpMul(FpMul(h, h, P256), h, P256), s1);
    var Z3 := new uint32[8];
    MulFe(Z3, H, PZ, h, j.z);
    MulFe(Z3, Z3, QZ, FpMul(h, j.z, P256), k.z);
    out.Store(X3, Y3, Z3, AddDistinct(j, k, u1, u2, s1, s2, P256));
  }

  /** p256_scalar: left-to-right double-and-add over 256 bits. */
  method ScalarPoint(out: Point, k: array<uint32>, P: Point, ghost j: Jacobian)
    requires out.Shaped() && P.Is(j) && k.Length == 8
    modifies out.X, out.Y, out.Z
    ensures out.Is(Scalar(old(Val(k[..])), j, 0, P256))
  {
    hide Fe, Double, Add, Val;
    ghost var v := Val(k[..]);
    assert k[..8] == k[..];
    var acc := new Point();
    acc.SetInfinity();
    var i := 255;
    while i >= 0
      invariant -1 <= i <= 255
      invariant acc.Is(Scalar(v, j, i + 1, P256))
      modifies acc.X, acc.Y, acc.Z
    {
      ghost var s := Scalar(v, j, i + 1, P256);
      DoublePoint(acc, acc, s);
      assert k[..8] == old(k[..8]);
      var bit := BitAt(k, 8, i);
      if bit == 1 {
        AddPoints(acc, acc, P, Double(s, P256), j);
      }
      i := i - 1;
    }
    CopyPoint(out, acc, Scalar(v, j, 0, P256));
  }
}
