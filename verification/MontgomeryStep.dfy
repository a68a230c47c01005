/** One iteration of the X25519 ladder (tools/zz9k-crypto-soft.c) as arithmetic
    on the points of y^2 = x^3 + A x^2 + x modulo n: it applies the tangent
    rule to the first of two points and the chord rule to both, knowing only
    u-coordinates and that of their difference. */
module MontgomeryStep {
  import opened ModArith
  import opened Field25519
  import opened Rfc7748
  import opened P256Curve

  /** Rfc7748.Step for any modulus n and any constant k, A being 4k + 2. */
  function StepMod(l: Ladder, u: int, k: int, n: Modulus): Ladder {
    var A := FpAdd(l.x2, l.z2, n);
    var AA := FpMul(A, A, n);
    var B := FpSub(l.x2, l.z2, n);
    var BB := FpMul(B, B, n);
    var E := FpSub(AA, BB, n);
    var C := FpAdd(l.x3, l.z3, n);
    var D := FpSub(l.x3, l.z3, n);
    var DA := FpMul(D, A, n);
    var CB := FpMul(C, B, n);
    var sum, diff := FpAdd(DA, CB, n), FpSub(DA, CB, n);
    Ladder(FpMul(AA, BB, n), FpMul(E, FpAdd(AA, FpMul(E, k, n), n), n), FpMul(sum, sum, n),
           FpMul(FpMul(diff, diff, n), u, n))
  }

  /** The constants of the ladder: A = 486662 = 4 * 121665 + 2. */
  lemma StepIsStepMod(l: Ladder, u: int)
    ensures Step(l, u) == StepMod(l, u, 121665, P25519) && 486662 == 4 * 121665 + 2
  {}

  ghost predicate OnMontgomery(x: int, y: int, A: int, n: Modulus) {
    Cong(y * y, x * x * x + A * (x * x) + x, n)
  }

  // ----- the step over the integers -----

  /** The first pair of a step, for any integers congruent to the pair before. */
  lemma DoubledPair(l: Ladder, u: int, k: int, x: int, z: int, n: Modulus)
    requires Cong(l.x2, x, n) && Cong(l.z2, z, n)
    ensures var s, d := x + z, x - z;
            var e := s * s - d * d;
            Cong(StepMod(l, u, k, n).x2, s * s * (d * d), n) && Cong(StepMod(l, u, k, n).z2, e * (s * s + e * k), n)
  {
    hide FpAdd, FpSub, FpMul;
    var f, b := FpAdd(l.x2, l.z2, n), FpSub(l.x2, l.z2, n);
    AddC(l.x2, x, l.z2, z, n);
    SubC(l.x2, x, l.z2, z, n);
    var ff, bb := FpMul(f, f, n), FpMul(b, b, n);
    MulC(f, x + z, f, x + z, n);
    MulC(b, x - z, b, x - z, n);
    var s2, d2 := (x + z) * (x + z), (x - z) * (x - z);
    SubC(ff, s2, bb, d2, n);
    var e := FpSub(ff, bb, n);
    MulC(e, s2 - d2, k, k, n);
    AddC(ff, s2, FpMul(e, k, n), (s2 - d2) * k, n);
    MulC(ff, s2, bb, d2, n);
    MulC(e, s2 - d2, FpAdd(ff, FpMul(e, k, n), n), s2 + (s2 - d2) * k, n);
  }

  /** The second pair. */
  lemma AddedPair(l: Ladder, u: int, k: int, x2: int, z2: int, x3: int, z3: int, n: Modulus)
    requires Cong(l.x2, x2, n) && Cong(l.z2, z2, n) && Cong(l.x3, x3, n) && Cong(l.z3, z3, n)
    ensures var p, q := (x3 - z3) * (x2 + z2), (x3 + z3) * (x2 - z2);
            Cong(StepMod(l, u, k, n).x3, (p + q) * (p + q), n)
            && Cong(StepMod(l, u, k, n).z3, (p - q) * (p - q) * u, n)
  {
    hide FpAdd, FpSub, FpMul;
    AddC(l.x2, x2, l.z2, z2, n);
    SubC(l.x2, x2, l.z2, z2, n);
    AddC(l.x3, x3, l.z3, z3, n);
    SubC(l.x3, x3, l.z3, z3, n);
    var f, b := FpAdd(l.x2, l.z2, n), FpSub(l.x2, l.z2, n);
    var g, d := FpAdd(l.x3, l.z3, n), FpSub(l.x3, l.z3, n);
    var da, cb := FpMul(d, f, n), FpMul(g, b, n);
    MulC(d, x3 - z3, f, x2 + z2, n);
    MulC(g, x3 + z3, b, x2 - z2, n);
    var p, q := (x3 - z3) * (x2 + z2), (x3 + z3) * (x2 - z2);
    AddC(da, p, cb, q, n);
    SubC(da, p, cb, q, n);
    MulC(FpAdd(da, cb, n), p + q, FpAdd(da, cb, n), p + q, n);
    MulC(FpSub(da, cb, n), p - q, FpSub(da, cb, n), p - q, n);
    MulC(FpMul(FpSub(da, cb, n), FpSub(da, cb, n), n), (p - q) * (p - q), u, u, n);
  }

  lemma SumAndDifference(a: int, c: int, z2: int, z3: int, p: int, q: int)
    requires p == (c * z3 - z3) * (a * z2 + z2) && q == (c * z3 + z3) * (a * z2 - z2)
    ensures var w := z3 * z2;
            (p + q) * (p + q) == 4 * (w * w) * ((a * c - 1) * (a * c - 1))
            && (p - q) * (p - q) == 4 * (w * w) * ((c - a) * (c - a))
  {
    var w := z3 * z2;
    Factored(a, c, z2, z3);
    assert p + q == 2 * w * (a * c - 1);
    assert p - q == 2 * w * (c - a);
    SquareOfProduct(w, a * c - 1);
    SquareOfProduct(w, c - a);
  }

  lemma Factored(a: int, c: int, z2: int, z3: int)
    ensures (c * z3 - z3) * (a * z2 + z2) == (c - 1) * (a + 1) * (z3 * z2)
    ensures (c * z3 + z3) * (a * z2 - z2) == (c + 1) * (a - 1) * (z3 * z2)
    ensures (c - 1) * (a + 1) * (z3 * z2) + (c + 1) * (a - 1) * (z3 * z2) == 2 * (z3 * z2) * (a * c - 1)
    ensures (c - 1) * (a + 1) * (z3 * z2) - (c + 1) * (a - 1) * (z3 * z2) == 2 * (z3 * z2) * (c - a)
  {
    assert (c * z3 - z3) * (a * z2 + z2) == (c - 1) * z3 * ((a + 1) * z2);
    assert (c * z3 + z3) * (a * z2 - z2) == (c + 1) * z3 * ((a - 1) * z2);
  }

  lemma SquareOfProduct(w: int, k: int)
    ensures 2 * w * k * (2 * w * k) == 4 * (w * w) * (k * k)
  {}

  // ----- doubling -----

  /** With slope t of the tangent at (a, b), the doubled point has
      u-coordinate t^2 - A - 2a. */
  lemma StepDoubles(l: Ladder, u: int, k: int, a: int, b: int, t: int, A: int, n: Modulus)
    requires Cong(l.x2, a * l.z2, n) && OnMontgomery(a, b, A, n)
    requires Cong(2 * b * t, 3 * (a * a) + 2 * A * a + 1, n) && A == 4 * k + 2
    ensures Cong(StepMod(l, u, k, n).x2, (t * t - A - 2 * a) * StepMod(l, u, k, n).z2, n)
  {
    hide StepMod;
    var z := l.z2;
    DoubledPair(l, u, k, a * z, z, n);
    DoubledOverZ(a, z, k, A);
    var d, z4, f := t * t - A - 2 * a, z * z * (z * z), a * a * a + A * (a * a) + a;
    TangentSquared(a, b, t, A, n);
    hide OnMontgomery;
    DividedThrough(f, d, z4, (a * a - 1) * (a * a - 1), StepMod(l, u, k, n).x2, StepMod(l, u, k, n).z2, n);
  }

  lemma DividedThrough(f: int, d: int, w: int, q: int, x: int, z: int, n: Modulus)
    requires Cong(x, q * w, n) && Cong(z, 4 * f * w, n) && Cong(4 * (f * d), q, n)
    ensures Cong(x, d * z, n)
  {
    CongMul(4 * (f * d), q, w, w, n);
    CongMul(d, d, z, 4 * f * w, n);
    Regrouped(f, d, w);
  }

  lemma Regrouped(f: int, d: int, w: int)
    ensures 4 * (f * d) * w == d * (4 * f * w)
  {
    var g := 4 * f;
    assert g * d * w == d * (g * w);
  }

  lemma DoubledOverZ(a: int, z: int, k: int, A: int)
    requires A == 4 * k + 2
    ensures var s, d, z4 := a * z + z, a * z - z, z * z * (z * z);
            var e := s * s - d * d;
            s * s * (d * d) == (a * a - 1) * (a * a - 1) * z4
            && e * (s * s + e * k) == 4 * (a * a * a + A * (a * a) + a) * z4
  {
    FactoredSquares(a, z);
    OverSquare(a, z * z, k, A);
  }

  lemma FactoredSquares(a: int, z: int)
    ensures (a * z + z) * (a * z + z) == (a + 1) * (a + 1) * (z * z)
    ensures (a * z - z) * (a * z - z) == (a - 1) * (a - 1) * (z * z)
  {}

  lemma OverSquare(a: int, z: int, k: int, A: int)
    requires A == 4 * k + 2
    ensures var s, d := (a + 1) * (a + 1) * z, (a - 1) * (a - 1) * z;
            s * d == (a * a - 1) * (a * a - 1) * (z * z)
            && (s - d) * (s + (s - d) * k) == 4 * (a * a * a + A * (a * a) + a) * (z * z)
  {
    Squares(a + 1, a - 1, z);
    assert (a + 1) * (a - 1) == a * a - 1;
    SquaresApart(a, z);
    Denominator(a, z, k, A);
    Products(4 * a, a * a + A * a + 1, z);
    CubicFactor(a, A);
  }

  lemma SquaresApart(a: int, z: int)
    ensures (a + 1) * (a + 1) * z - (a - 1) * (a - 1) * z == 4 * a * z
  {}

  lemma Denominator(a: int, z: int, k: int, A: int)
    requires A == 4 * k + 2
    ensures (a + 1) * (a + 1) * z + 4 * a * z * k == (a * a + A * a + 1) * z
  {
    assert 4 * a * z * k == 4 * k * a * z;
  }

  lemma CubicFactor(a: int, A: int)
    ensures 4 * a * (a * a + A * a + 1) == 4 * (a * a * a + A * (a * a) + a)
  {}

  lemma Squares(x: int, y: int, z: int)
    ensures x * x * z * (y * y * z) == x * y * (x * y) * (z * z)
  {
    assert x * x * z * (y * y * z) == x * x * (y * y) * (z * z);
    assert x * x * (y * y) == x * y * (x * y);
  }

  lemma Products(x: int, y: int, z: int)
    ensures x * z * (y * z) == x * y * (z * z)
  {}

  /** 4 f (t^2 - A - 2a) = (a^2 - 1)^2 where f is the value of the cubic. */
  lemma TangentSquared(a: int, b: int, t: int, A: int, n: Modulus)
    requires OnMontgomery(a, b, A, n) && Cong(2 * b * t, 3 * (a * a) + 2 * A * a + 1, n)
    ensures var f := a * a * a + A * (a * a) + a;
            Cong(4 * (f * (t * t - A - 2 * a)), (a * a - 1) * (a * a - 1), n)
  {
    DoublingIdentity(a, A);
    var f, m, q := a * a * a + A * (a * a) + a, 3 * (a * a) + 2 * A * a + 1, (a * a - 1) * (a * a - 1);
    SlopeSquared(f, m, b, t, A + 2 * a, q, n);
    assert t * t - (A + 2 * a) == t * t - A - 2 * a;
  }

  lemma SlopeSquared(f: int, m: int, b: int, t: int, k: int, q: int, n: Modulus)
    requires Cong(b * b, f, n) && Cong(2 * b * t, m, n) && m * m - 4 * f * k == q
    ensures Cong(4 * (f * (t * t - k)), q, n)
  {
    CongMul(2 * b * t, m, 2 * b * t, m, n);
    SquareOfProduct(b, t);
    CongMul(b * b, f, 4 * (t * t), 4 * (t * t), n);
    assert b * b * (4 * (t * t)) == 4 * (b * b) * (t * t);
    CongSub(f * (4 * (t * t)), m * m, 4 * f * k, 4 * f * k, n);
    Spread(f, t * t, k);
  }

  lemma Spread(f: int, t: int, k: int)
    ensures f * (4 * t) - 4 * f * k == 4 * (f * (t - k))
  {}

  lemma DoublingIdentity(a: int, A: int)
    ensures var f, m := a * a * a + A * (a * a) + a, 3 * (a * a) + 2 * A * a + 1;
            m * m - 4 * f * (A + 2 * a) == (a * a - 1) * (a * a - 1)
  {}

  // ----- adding -----

  /** Points (a, b) and (c, e) with different u-coordinates, v inverting their
      distance: if u belongs to the difference of the points, the third
      coordinate pair belongs to their sum. */
  lemma StepAdds(l: Ladder, u: int, k: int, a: int, b: int, c: int, e: int, v: int, A: int, n: Modulus)
    requires Cong(l.x2, a * l.z2, n) && Cong(l.x3, c * l.z3, n)
    requires OnMontgomery(a, b, A, n) && OnMontgomery(c, e, A, n) && Cong((c - a) * v, 1, n)
    requires Cong(u, ChordU(a, c, (e + b) * v, A), n)
    ensures Cong(StepMod(l, u, k, n).x3, ChordU(a, c, (e - b) * v, A) * StepMod(l, u, k, n).z3, n)
  {
    hide StepMod, ChordU;
    AddedPair(l, u, k, a * l.z2, l.z2, c * l.z3, l.z3, n);
    SumAndDifference(a, c, l.z2, l.z3, (c * l.z3 - l.z3) * (a * l.z2 + l.z2), (c * l.z3 + l.z3) * (a * l.z2 - l.z2));
    ProductOfChords(a, b, c, e, v, A, n);
    hide OnMontgomery;
    Multiplied(ChordU(a, c, (e - b) * v, A), ChordU(a, c, (e + b) * v, A), (c - a) * (c - a), (a * c - 1) * (a * c - 1),
               4 * (l.z3 * l.z2 * (l.z3 * l.z2)), u, StepMod(l, u, k, n).x3, StepMod(l, u, k, n).z3, n);
  }

  lemma Multiplied(p: int, q: int, h: int, k: int, w: int, u: int, x: int, z: int, n: Modulus)
    requires Cong(x, w * k, n) && Cong(z, w * h * u, n) && Cong(p * q * h, k, n) && Cong(u, q, n)
    ensures Cong(x, p * z, n)
  {
    CongMul(w, w, p * q * h, k, n);
    CongMul(p * (w * h), p * (w * h), u, q, n);
    CongMul(p, p, z, w * h * u, n);
    Reordered(p, w, h, u, q);
  }

  lemma Reordered(p: int, w: int, h: int, u: int, q: int)
    ensures p * (w * h * u) == p * (w * h) * u && p * (w * h) * q == w * (p * q * h)
  {
    var g := w * h;
    assert p * (g * u) == p * g * u;
    assert p * g * q == p * q * g;
    assert p * q * (w * h) == w * (p * q * h);
  }

  /** The u-coordinate of the third point on a line with slope m. */
  function ChordU(a: int, c: int, m: int, A: int): int {
    m * m - A - a - c
  }

  /** The u-coordinates of sum and difference multiply to
      ((a c - 1) / (c - a))^2. */
  lemma ProductOfChords(a: int, b: int, c: int, e: int, v: int, A: int, n: Modulus)
    requires OnMontgomery(a, b, A, n) && OnMontgomery(c, e, A, n) && Cong((c - a) * v, 1, n)
    ensures var p, q := ChordU(a, c, (e - b) * v, A), ChordU(a, c, (e + b) * v, A);
            Cong(p * q * ((c - a) * (c - a)), (a * c - 1) * (a * c - 1), n)
  {
    var s, m, d := (e - b) * v, (e + b) * v, c - a;
    var f, g := a * a * a + A * (a * a) + a, c * c * c + A * (c * c) + c;
    var k, r := A + a + c, c * c + c * a + a * a + A * (c + a) + 1;
    SlopeProduct(a, b, c, e, v, A, n);
    SlopeSquares(a, b, c, e, v, A, n);
    CongMul(s * m * d, r, s * m * d, r, n);
    CongMul(k, k, (s * s + m * m) * (d * d), 2 * (f + g), n);
    CongSub(s * m * d * (s * m * d), r * r, k * ((s * s + m * m) * (d * d)), k * (2 * (f + g)), n);
    CongAdd(s * m * d * (s * m * d) - k * ((s * s + m * m) * (d * d)), r * r - k * (2 * (f + g)),
            k * k * (d * d), k * k * (d * d), n);
    Expanded(s, m, k, d);
    AddingIdentity(a, c, A);
  }

  lemma Expanded(s: int, m: int, k: int, d: int)
    ensures (s * s - k) * (m * m - k) * (d * d)
            == s * m * d * (s * m * d) - k * ((s * s + m * m) * (d * d)) + k * k * (d * d)
  {
    var h, x, y := d * d, s * s, m * m;
    SquareOfThree(s, m, d);
    TwoFactors(x, y, k);
    Distributed(x * y, k, x + y, h);
  }

  lemma SquareOfThree(s: int, m: int, d: int)
    ensures s * m * d * (s * m * d) == s * s * (m * m) * (d * d)
  {
    var g := s * m;
    assert g * d * (g * d) == g * g * (d * d);
    assert g * g == s * s * (m * m);
  }

  lemma TwoFactors(x: int, y: int, k: int)
    ensures (x - k) * (y - k) == x * y - k * (x + y) + k * k
  {}

  lemma Distributed(g: int, k: int, t: int, h: int)
    ensures (g - k * t + k * k) * h == g * h - k * (t * h) + k * k * h
  {}

  lemma AddingIdentity(a: int, c: int, A: int)
    ensures var f, g := a * a * a + A * (a * a) + a, c * c * c + A * (c * c) + c;
            var k, r := A + a + c, c * c + c * a + a * a + A * (c + a) + 1;
            r * r - k * (2 * (f + g)) + k * k * ((c - a) * (c - a)) == (a * c - 1) * (a * c - 1)
  {
    SumOfCubics(a, c, A);
    InSumAndProduct(a, c, A);
    SymmetricIdentity(a + c, A + a + c, a * c, 1 - a * c);
    Opposite(1 - a * c);
  }

  lemma InSumAndProduct(a: int, c: int, A: int)
    ensures (c - a) * (c - a) == (a + c) * (a + c) - 4 * (a * c)
    ensures c * c + c * a + a * a + A * (c + a) + 1 == (a + c) * (A + a + c) + (1 - a * c)
  {
    var t := a + c;
    assert t * (A + t) == A * t + t * t;
  }

  lemma Opposite(x: int)
    ensures x * x == -x * -x
  {}

  /** Both cubics together, in terms of t = a + c and p = a c. */
  lemma SumOfCubics(a: int, c: int, A: int)
    ensures var t, p, k := a + c, a * c, A + a + c;
            a * a * a + A * (a * a) + a + (c * c * c + A * (c * c) + c) == k * (t * t - 2 * p) + t * (1 - p)
  {
    var t, p := a + c, a * c;
    var q := t * t - 2 * p;
    assert a * a + c * c == q;
    SumOfCubes(a, c);
    assert A * (a * a) + A * (c * c) == A * q;
    assert (A + t) * q == A * q + t * q;
  }

  lemma SumOfCubes(a: int, c: int)
    ensures var t, p := a + c, a * c; a * a * a + c * c * c == t * (t * t - 2 * p) - t * p
  {}

  lemma SymmetricIdentity(t: int, k: int, p: int, w: int)
    ensures (t * k + w) * (t * k + w) - k * (2 * (k * (t * t - 2 * p) + t * w)) + k * k * (t * t - 4 * p) == w * w
  {
    var x, y := t * k, k * k;
    assert (x + w) * (x + w) == x * x + 2 * (x * w) + w * w;
    assert x * x == y * (t * t);
    assert k * (k * (t * t - 2 * p)) == y * (t * t) - 2 * (y * p);
    assert k * (t * w) == x * w;
    assert y * (t * t - 4 * p) == y * (t * t) - 4 * (y * p);
  }

  /** (e - b)(e + b) / (c - a) is a polynomial in a and c. */
  lemma SlopeProduct(a: int, b: int, c: int, e: int, v: int, A: int, n: Modulus)
    requires OnMontgomery(a, b, A, n) && OnMontgomery(c, e, A, n) && Cong((c - a) * v, 1, n)
    ensures Cong((e - b) * v * ((e + b) * v) * (c - a), c * c + c * a + a * a + A * (c + a) + 1, n)
  {
    var d, r := c - a, c * c + c * a + a * a + A * (c + a) + 1;
    var f, g := a * a * a + A * (a * a) + a, c * c * c + A * (c * c) + c;
    CongSub(e * e, g, b * b, f, n);
    CubicsApart(a, c, A);
    hide OnMontgomery;
    CongMul(d * v, 1, d * v, 1, n);
    CongMul(e * e - b * b, d * r, v * (d * v), v * (d * v), n);
    CongMul(d * v * (d * v), 1, r, r, n);
    DifferenceOfSquares(e, b);
    Pulled(e - b, e + b, v, d);
    Gathered(d, r, v);
  }

  lemma DifferenceOfSquares(e: int, b: int)
    ensures (e - b) * (e + b) == e * e - b * b
  {}

  lemma Pulled(x: int, y: int, v: int, d: int)
    ensures x * v * (y * v) * d == x * y * (v * (d * v))
  {
    assert x * v * (y * v) == x * y * (v * v);
    assert x * y * (v * v) * d == x * y * (v * v * d);
    assert v * v * d == v * (d * v);
  }

  lemma Gathered(d: int, r: int, v: int)
    ensures d * r * (v * (d * v)) == d * v * (d * v) * r
  {
    var g := d * v;
    assert d * r * (v * g) == g * g * r;
  }

  lemma CubicsApart(a: int, c: int, A: int)
    ensures c * c * c + A * (c * c) + c - (a * a * a + A * (a * a) + a)
            == (c - a) * (c * c + c * a + a * a + A * (c + a) + 1)
  {
    DifferenceOfCubes(a, c);
    DifferenceOfSquares(c, a);
    SpreadFactor(c - a, c * c + c * a + a * a, c + a, A);
    Distribute(A, c * c, a * a);
  }

  lemma Distribute(A: int, x: int, y: int)
    ensures A * (x - y) == A * x - A * y
  {}

  lemma DifferenceOfCubes(a: int, c: int)
    ensures (c - a) * (c * c + c * a + a * a) == c * c * c - a * a * a
  {}

  lemma SpreadFactor(d: int, q: int, t: int, A: int)
    ensures d * (q + A * t + 1) == d * q + A * (d * t) + d
  {}

  lemma SlopeSquares(a: int, b: int, c: int, e: int, v: int, A: int, n: Modulus)
    requires OnMontgomery(a, b, A, n) && OnMontgomery(c, e, A, n) && Cong((c - a) * v, 1, n)
    ensures var s, m, d := (e - b) * v, (e + b) * v, c - a;
            Cong((s * s + m * m) * (d * d),
                 2 * (a * a * a + A * (a * a) + a + (c * c * c + A * (c * c) + c)), n)
  {
    var s, m, d := (e - b) * v, (e + b) * v, c - a;
    var f, g := a * a * a + A * (a * a) + a, c * c * c + A * (c * c) + c;
    CongAdd(b * b, f, e * e, g, n);
    CongMul(2, 2, b * b + e * e, f + g, n);
    CongMul(d * v, 1, d * v, 1, n);
    CongMul(2 * (b * b + e * e), 2 * (b * b + e * e), d * v * (d * v), 1, n);
    SumOfSquares(b, e, v);
    Scattered(b * b + e * e, v, d);
  }

  lemma SumOfSquares(b: int, e: int, v: int)
    ensures (e - b) * v * ((e - b) * v) + (e + b) * v * ((e + b) * v) == 2 * (b * b + e * e) * (v * v)
  {
    SquaredPart(e - b, v);
    SquaredPart(e + b, v);
    assert (e - b) * (e - b) + (e + b) * (e + b) == 2 * (b * b + e * e);
    assert (e - b) * (e - b) * (v * v) + (e + b) * (e + b) * (v * v)
           == ((e - b) * (e - b) + (e + b) * (e + b)) * (v * v);
  }

  lemma SquaredPart(x: int, v: int)
    ensures x * v * (x * v) == x * x * (v * v)
  {}

  lemma Scattered(t: int, v: int, d: int)
    ensures 2 * t * (v * v) * (d * d) == 2 * t * (d * v * (d * v))
  {
    SquaredPart(d, v);
    assert 2 * t * (v * v) * (d * d) == 2 * t * (v * v * (d * d));
  }
}
