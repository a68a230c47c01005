/** Congruences modulo a positive number. */
module ModArith {

  /** x and y leave the same remainder. */
  ghost predicate Cong(x: int, y: int, m: int)
    requires m > 0
  {
    x % m == y % m
  }

  lemma QuotientZero(q: int, r: int, m: int)
    requires m > 0 && -m < r < m && q * m == r
    ensures q == 0
  {
    assert q >= 1 ==> q * m >= m;
    assert q <= -1 ==> q * m <= -m;
  }

  /** Quotient and remainder are unique. */
  lemma DivModUnique(x: int, m: int, q: int, r: int)
    requires m > 0 && 0 <= r < m && x == q * m + r
    ensures x / m == q && x % m == r
  {
    var q', r' := x / m, x % m;
    assert x == m * q' + r';
    assert (q' - q) * m == r - r';
    QuotientZero(q' - q, r - r', m);
  }

  lemma MulMono(a: int, b: int, c: int)
    requires a <= b && 0 <= c
    ensures a * c <= b * c && c * a <= c * b
  {}

  lemma DivDivUnique(y: int, s: int, q: int, r: int, a: int, b: int, c: int)
    requires a > 0 && b > 0 && c == a * b > 0
    requires 0 <= s < a && 0 <= r < b && y == b * q + r
    ensures (a * y + s) / c == q && (a * y + s) % c == a * r + s
  {
    MulMono(r, b - 1, a);
    MulMono(0, r, a);
    assert a * y == q * c + a * r;
    DivModUnique(a * y + s, c, q, a * r + s);
  }

  /** Dividing by a and then by b is dividing by c, their product. */
  lemma DivDiv(x: int, a: int, b: int, c: int)
    requires a > 0 && b > 0 && c == a * b > 0
    ensures x / a / b == x / c
    ensures x % c == a * (x / a % b) + x % a
  {
    var y, s := x / a, x % a;
    var q, r := y / b, y % b;
    assert x == a * y + s;
    DivDivUnique(y, s, q, r, a, b, c);
  }

  lemma CongIntro(x: int, y: int, m: int, k: int)
    requires m > 0 && x == y + k * m
    ensures Cong(x, y, m)
  {
    var q, r := y / m, y % m;
    assert y == m * q + r;
    assert x == (q + k) * m + r;
    DivModUnique(x, m, q + k, r);
  }

  lemma CongElim(x: int, y: int, m: int) returns (k: int)
    requires m > 0 && Cong(x, y, m)
    ensures x == y + k * m
  {
    k := x / m - y / m;
    assert x == m * (x / m) + x % m && y == m * (y / m) + y % m;
    assert k * m == m * (x / m) - m * (y / m);
  }

  lemma CongAdd(a: int, b: int, c: int, d: int, m: int)
    requires m > 0 && Cong(a, b, m) && Cong(c, d, m)
    ensures Cong(a + c, b + d, m)
  {
    var j := CongElim(a, b, m);
    var k := CongElim(c, d, m);
    assert (j + k) * m == j * m + k * m;
    CongIntro(a + c, b + d, m, j + k);
  }

  lemma CongSub(a: int, b: int, c: int, d: int, m: int)
    requires m > 0 && Cong(a, b, m) && Cong(c, d, m)
    ensures Cong(a - c, b - d, m)
  {
    var j := CongElim(a, b, m);
    var k := CongElim(c, d, m);
    assert (j - k) * m == j * m - k * m;
    CongIntro(a - c, b - d, m, j - k);
  }

  lemma CongMul(a: int, b: int, c: int, d: int, m: int)
    requires m > 0 && Cong(a, b, m) && Cong(c, d, m)
    ensures Cong(a * c, b * d, m)
  {
    var j := CongElim(a, b, m);
    var k := CongElim(c, d, m);
    var n := j * d + b * k + j * k * m;
    assert a * c == (b + j * m) * (d + k * m);
    assert (b + j * m) * (d + k * m) == b * d + n * m;
    CongIntro(a * c, b * d, m, n);
  }

  /** Reducing first changes nothing. */
  lemma CongMod(x: int, m: int)
    requires m > 0
    ensures Cong(x % m, x, m) && 0 <= x % m < m
  {
    assert x == m * (x / m) + x % m;
    CongIntro(x, x % m, m, x / m);
  }

  lemma ModSmall(x: int, m: int)
    requires 0 <= x < m
    ensures x % m == x
  {
    DivModUnique(x, m, 0, x);
  }
}
