/** Polynomials over the field of two elements, lowest coefficient first, and
    arithmetic modulo x^128 + x^7 + x^2 + x + 1 (section 6.3 of NIST SP
    800-38D). */
module Gf128 {

  type Poly = seq<bool>

  const N: nat := 128

  function Zeros(n: nat): (z: Poly)
    ensures |z| == n
  {
    seq(n, _ => false)
  }

  /** Coefficient by coefficient. */
  function Add(a: Poly, b: Poly): (c: Poly)
    requires |a| == |b|
    ensures |c| == |a|
    ensures forall i :: 0 <= i < |a| ==> c[i] == (a[i] != b[i])
  {
    seq(|a|, i requires 0 <= i < |a| => a[i] != b[i])
  }

  function Scale(c: bool, b: Poly): (r: Poly)
    ensures |r| == |b|
  {
    if c then b else Zeros(|b|)
  }

  /** p times x. */
  function TimesX(p: Poly): (r: Poly)
    ensures |r| == |p| + 1
  {
    [false] + p
  }

  /** The product without any reduction. */
  function Mul(a: Poly, b: Poly): (p: Poly)
    ensures |p| == |a| + |b|
  {
    if a == [] then Zeros(|b|)
    else Add(Scale(a[0], b) + Zeros(|a|), TimesX(Mul(a[1..], b)))
  }

  /** x^7 + x^2 + x + 1, which is what x^128 is congruent to. */
  function Low(): (p: Poly)
    ensures |p| == N
  {
    [true, true, true, false, false, false, false, true] + Zeros(120)
  }

  /** Its exponents. */
  lemma LowExponents(i: nat)
    requires i < N
    ensures Low()[i] <==> i in {0, 1, 2, 7}
  {}

  /** Long division from the top coefficient down: what is left below x^128. */
  function Rem(p: Poly): (r: Poly)
    requires |p| >= N
    ensures |r| == N
    decreases |p|
  {
    if |p| == N then p else Rem(DropTop(p))
  }

  /** One step of the division: the top coefficient is replaced by its
      remainder, shifted into place. */
  function DropTop(p: Poly): (r: Poly)
    requires |p| > N
    ensures |r| == |p| - 1
  {
    Add(p[..|p| - 1], Scale(p[|p| - 1], Zeros(|p| - 1 - N) + Low()))
  }

  /** The product in the field. */
  function Product(a: Poly, b: Poly): (r: Poly)
    requires |a| == |b| == N
    ensures |r| == N
  {
    Rem(Mul(a, b))
  }

  /** Multiplication by x in the field. */
  function Step(v: Poly): (r: Poly)
    requires |v| == N
    ensures |r| == N
  {
    Rem(TimesX(v))
  }

  // ----- addition -----

  lemma AddSwap(a: Poly, b: Poly, c: Poly, d: Poly)
    requires |a| == |b| == |c| == |d|
    ensures Add(Add(a, b), Add(c, d)) == Add(Add(a, c), Add(b, d))
  {}

  lemma AddAssoc(a: Poly, b: Poly, c: Poly)
    requires |a| == |b| == |c|
    ensures Add(Add(a, b), c) == Add(a, Add(b, c))
  {}

  lemma AddZero(a: Poly)
    ensures Add(a, Zeros(|a|)) == a && Add(Zeros(|a|), a) == a && Add(a, a) == Zeros(|a|)
  {}

  lemma ScaleAdd(c: bool, d: bool, a: Poly, b: Poly)
    requires |a| == |b|
    ensures Scale(c, Add(a, b)) == Add(Scale(c, a), Scale(c, b))
    ensures Scale(c != d, a) == Add(Scale(c, a), Scale(d, a))
  {}

  lemma PadAdd(a: Poly, b: Poly, n: nat)
    requires |a| == |b|
    ensures Add(a, b) + Zeros(n) == Add(a + Zeros(n), b + Zeros(n))
  {}

  lemma TimesXAdd(a: Poly, b: Poly)
    requires |a| == |b|
    ensures TimesX(Add(a, b)) == Add(TimesX(a), TimesX(b))
  {}

  // ----- the product is linear in each factor -----

  lemma {:induction false} MulAddLeft(a: Poly, a': Poly, b: Poly)
    requires |a| == |a'|
    ensures Mul(Add(a, a'), b) == Add(Mul(a, b), Mul(a', b))
  {
    if a == [] {
      AddZero(Zeros(|b|));
    } else {
      var s := Add(a, a');
      assert s[1..] == Add(a[1..], a'[1..]);
      MulAddLeft(a[1..], a'[1..], b);
      TimesXAdd(Mul(a[1..], b), Mul(a'[1..], b));
      ScaleAdd(a[0], a'[0], b, b);
      PadAdd(Scale(a[0], b), Scale(a'[0], b), |a|);
      AddSwap(Scale(a[0], b) + Zeros(|a|), Scale(a'[0], b) + Zeros(|a|),
              TimesX(Mul(a[1..], b)), TimesX(Mul(a'[1..], b)));
    }
  }

  lemma {:induction false} MulAddRight(a: Poly, b: Poly, b': Poly)
    requires |b| == |b'|
    ensures Mul(a, Add(b, b')) == Add(Mul(a, b), Mul(a, b'))
  {
    if a == [] {
      AddZero(Zeros(|b|));
    } else {
      MulAddRight(a[1..], b, b');
      TimesXAdd(Mul(a[1..], b), Mul(a[1..], b'));
      ScaleAdd(a[0], a[0], b, b');
      PadAdd(Scale(a[0], b), Scale(a[0], b'), |a|);
      AddSwap(Scale(a[0], b) + Zeros(|a|), Scale(a[0], b') + Zeros(|a|),
              TimesX(Mul(a[1..], b)), TimesX(Mul(a[1..], b')));
    }
  }

  lemma {:induction false} RemAdd(p: Poly, q: Poly)
    requires |p| == |q| >= N
    ensures Rem(Add(p, q)) == Add(Rem(p), Rem(q))
    decreases |p|
  {
    if |p| > N {
      var n := |p| - 1;
      var low := Zeros(n - N) + Low();
      ScaleAdd(p[n], q[n], low, low);
      assert Add(p, q)[..n] == Add(p[..n], q[..n]);
      AddSwap(p[..n], Scale(p[n], low), q[..n], Scale(q[n], low));
      RemAdd(DropTop(p), DropTop(q));
    }
  }

  lemma ProductAddLeft(a: Poly, a': Poly, b: Poly)
    requires |a| == |a'| == |b| == N
    ensures Product(Add(a, a'), b) == Add(Product(a, b), Product(a', b))
  {
    MulAddLeft(a, a', b);
    RemAdd(Mul(a, b), Mul(a', b));
  }

  lemma ProductAddRight(a: Poly, b: Poly, b': Poly)
    requires |a| == |b| == |b'| == N
    ensures Product(a, Add(b, b')) == Add(Product(a, b), Product(a, b'))
  {
    MulAddRight(a, b, b');
    RemAdd(Mul(a, b), Mul(a, b'));
  }

  // ----- multiplying by x before or after reducing -----

  /** Reducing first does not matter when multiplying by x. */
  lemma {:induction false} RemTimesX(p: Poly)
    requires |p| >= N
    ensures Rem(TimesX(p)) == Step(Rem(p))
    decreases |p|
  {
    if |p| > N {
      TimesXDropTop(p);
      RemTimesX(DropTop(p));
    }
  }

  lemma TimesXDropTop(p: Poly)
    requires |p| > N
    ensures DropTop(TimesX(p)) == TimesX(DropTop(p))
  {
    hide Low;
    var n := |p| - 1;
    var q, low := TimesX(p), Zeros(n - N) + Low();
    assert q[..n + 1] == TimesX(p[..n]) && q[n + 1] == p[n];
    assert Scale(p[n], Zeros(n + 1 - N) + Low()) == TimesX(Scale(p[n], low));
    TimesXAdd(p[..n], Scale(p[n], low));
  }

  lemma StepAdd(a: Poly, b: Poly)
    requires |a| == |b| == N
    ensures Step(Add(a, b)) == Add(Step(a), Step(b))
  {
    TimesXAdd(a, b);
    RemAdd(TimesX(a), TimesX(b));
  }

  lemma {:induction false} RemZeros(n: nat)
    requires n >= N
    ensures Rem(Zeros(n)) == Zeros(N)
  {
    if n > N {
      assert DropTop(Zeros(n)) == Zeros(n - 1);
      RemZeros(n - 1);
    }
  }

  lemma {:induction false} RemPad(b: Poly, n: nat)
    requires |b| == N
    ensures Rem(b + Zeros(n)) == b
  {
    if n == 0 {
      assert b + Zeros(0) == b;
    } else {
      var p := b + Zeros(n);
      assert p[..|p| - 1] == b + Zeros(n - 1) && !p[|p| - 1];
      AddZero(b + Zeros(n - 1));
      RemPad(b, n - 1);
    }
  }

  /** The polynomial 1 is neutral on the right. */
  lemma TimesOne(a: Poly)
    requires |a| == N
    ensures Product(a, [true] + Zeros(N - 1)) == a
  {
    hide Mul, Rem;
    MulOne(a);
    RemPad(a, N);
  }

  lemma {:induction false} MulOne(a: Poly)
    ensures Mul(a, [true] + Zeros(N - 1)) == a + Zeros(N)
  {
    var one := [true] + Zeros(N - 1);
    if a == [] {
      assert [] + Zeros(N) == Zeros(N);
    } else {
      MulOne(a[1..]);
      var head := Scale(a[0], one) + Zeros(|a|);
      var tail := TimesX(a[1..] + Zeros(N));
      forall i | 0 <= i < |a| + N
        ensures Add(head, tail)[i] == (a + Zeros(N))[i]
      {
        assert head[i] == (a[0] && i == 0);
        assert tail[i] == (if i == 0 then false else (a[1..] + Zeros(N))[i - 1]);
      }
    }
  }

  lemma StepScale(c: bool, v: Poly)
    requires |v| == N
    ensures Step(Scale(c, v)) == Scale(c, Step(v))
  {
    hide Step;
    if !c {
      StepOfZeros();
    }
  }

  /** Horner's step: the lowest coefficient, plus x times the rest. */
  lemma RemMul(a: Poly, v: Poly)
    requires |v| == N && a != []
    ensures Rem(Mul(a, v)) == Add(Scale(a[0], v), Step(Rem(Mul(a[1..], v))))
  {
    var s := Scale(a[0], v);
    RemAdd(s + Zeros(|a|), TimesX(Mul(a[1..], v)));
    RemPad(s, |a|);
    RemTimesX(Mul(a[1..], v));
  }

  /** The factor x can be moved onto the second factor. */
  lemma {:induction false} StepMoves(a: Poly, v: Poly)
    requires |v| == N
    ensures Step(Rem(Mul(a, v))) == Rem(Mul(a, Step(v)))
  {
    hide Step, Rem, Mul, Scale;
    if a == [] {
      StepOfNothing(v);
    } else {
      var rest := Rem(Mul(a[1..], v));
      RemMul(a, v);
      StepAdd(Scale(a[0], v), Step(rest));
      StepScale(a[0], v);
      StepMoves(a[1..], v);
      RemMul(a, Step(v));
    }
  }

  lemma StepOfNothing(v: Poly)
    requires |v| == N
    ensures Step(Rem(Mul([], v))) == Rem(Mul([], Step(v)))
  {
    StepOfZeros();
    RemZeros(N);
    hide Step, Rem;
    assert Mul([], v) == Zeros(N) && Mul([], Step(v)) == Zeros(N);
  }

  lemma StepOfZeros()
    ensures Step(Zeros(N)) == Zeros(N)
  {
    hide Rem;
    RemZeros(N + 1);
    assert TimesX(Zeros(N)) == Zeros(N + 1);
  }

  /** What one round of the bit loop does to the product. */
  lemma NextBit(a: Poly, v: Poly)
    requires |v| == N && a != []
    ensures Rem(Mul(a, v)) == Add(Scale(a[0], v), Rem(Mul(a[1..], Step(v))))
  {
    hide Step, Rem, Mul, Scale;
    RemMul(a, v);
    StepMoves(a[1..], v);
  }

  // ----- the division is a division -----

  /** The modulus. */
  function Modulus(): (m: Poly)
    ensures |m| == N + 1
  {
    Low() + [true]
  }

  /** The quotient of the long division. */
  function Quotient(p: Poly): (q: Poly)
    requires |p| >= N
    ensures |q| == |p| - N
    decreases |p|
  {
    if |p| == N then [] else Quotient(DropTop(p)) + [p[|p| - 1]]
  }

  lemma AddSnoc(a: Poly, b: Poly)
    requires |a| == |b|
    ensures Add(a + [false], b + [false]) == Add(a, b) + [false]
  {}

  lemma TimesXSnoc(p: Poly)
    ensures TimesX(p + [false]) == TimesX(p) + [false]
  {}

  lemma TimesXShift(k: nat, s: Poly)
    ensures TimesX(Zeros(k) + s + [false]) == Zeros(k + 1) + s + [false]
  {}

  lemma PadSnoc(s: Poly, k: nat)
    ensures s + Zeros(k + 1) == s + Zeros(k) + [false]
  {}

  /** Multiplying by one more top coefficient. */
  lemma {:induction false} MulTop(q: Poly, c: bool, m: Poly)
    ensures Mul(q + [c], m) == Add(Mul(q, m) + [false], Zeros(|q|) + Scale(c, m) + [false])
  {
    if q == [] {
      MulConstant(c, m);
    } else {
      var k, rest := |q|, q[1..];
      var head, low, s := Scale(q[0], m), Mul(rest, m), Scale(c, m);
      assert (q + [c])[1..] == rest + [c] && (q + [c])[0] == q[0];
      MulTop(rest, c, m);
      assert Mul(q, m) == Add(head + Zeros(k), TimesX(low));
      assert Mul(q + [c], m) == Add(head + Zeros(k + 1), TimesX(Mul(rest + [c], m)));
      hide Mul, Add, TimesX, Scale, Zeros;
      TimesXAdd(low + [false], Zeros(k - 1) + s + [false]);
      TimesXShift(k - 1, s);
      TimesXSnoc(low);
      PadSnoc(head, k);
      AddAssoc(head + Zeros(k) + [false], TimesX(low) + [false], Zeros(k) + s + [false]);
      AddSnoc(head + Zeros(k), TimesX(low));
    }
  }

  lemma MulConstant(c: bool, m: Poly)
    ensures Mul([] + [c], m) == Add(Mul([], m) + [false], Zeros(0) + Scale(c, m) + [false])
  {
    assert [] + [c] == [c] && [c][1..] == [];
    assert Mul([c], m) == Add(Scale(c, m) + Zeros(1), TimesX(Zeros(|m|)));
    assert TimesX(Zeros(|m|)) == Zeros(|m|) + [false];
    assert Zeros(0) + Scale(c, m) + [false] == Scale(c, m) + Zeros(1);
  }

  /** p = q m + r with r below x^128: Rem is the remainder. */
  lemma {:induction false} RemIsRemainder(p: Poly)
    requires |p| >= N
    ensures Add(Mul(Quotient(p), Modulus()), Rem(p) + Zeros(|p| - N) + [false]) == p + [false]
    decreases |p|
  {
    if |p| == N {
      assert Mul([], Modulus()) == Zeros(N + 1);
      assert Rem(p) + Zeros(0) + [false] == p + [false];
      AddZero(p + [false]);
    } else {
      var n := |p| - 1;
      var d := DropTop(p);
      RemIsRemainder(d);
      var q, m, r := Quotient(d), Modulus(), Rem(d);
      assert Quotient(p) == q + [p[n]] && Rem(p) == r;
      hide Mul, Add, DropTop, Scale, Zeros, Quotient, Rem, Modulus;
      var low := Zeros(n - N) + Scale(p[n], m) + [false];
      MulTop(q, p[n], m);
      PadSnoc(r, n - N);
      AddMiddle(Mul(q, m) + [false], low, r + Zeros(n - N) + [false] + [false]);
      AddSnoc(Mul(q, m), r + Zeros(n - N) + [false]);
      TopRestored(p);
    }
  }

  lemma AddMiddle(a: Poly, b: Poly, c: Poly)
    requires |a| == |b| == |c|
    ensures Add(Add(a, b), c) == Add(Add(a, c), b)
  {}

  /** Adding the shifted modulus back undoes DropTop. */
  lemma TopRestored(p: Poly)
    requires |p| > N
    ensures Add(DropTop(p) + [false] + [false], Zeros(|p| - 1 - N) + Scale(p[|p| - 1], Modulus()) + [false])
            == p + [false]
  {
    var n := |p| - 1;
    var low := Zeros(n - N) + Low();
    assert Zeros(n - N) + Scale(p[n], Modulus()) + [false] == Scale(p[n], low) + [p[n]] + [false];
    assert Add(Add(p[..n], Scale(p[n], low)), Scale(p[n], low)) == p[..n];
    assert p == p[..n] + [p[n]];
  }
}
