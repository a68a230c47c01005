/** The CRC register (tools/zz9k-archive.c) as a remainder: what the shifts and
    xors compute is division of the message by the generator polynomial. */
module CrcPolynomial {
  import opened ModArith
  import opened Words
  import opened Bitwise
  import opened Gf128
  import opened Ghash
  import opened Crc

  const W: nat := 32

  /** The register is reflected: its bit 31 - i is the coefficient of x^i. */
  function RegisterPoly(v: uint32): (p: Poly)
    ensures |p| == W
  {
    seq(W, i requires 0 <= i < W => Bit(v as nat, 31 - i) == 1)
  }

  /** The generator: x^32 and what the constant stands for. */
  function Generator(): (p: Poly)
    ensures |p| == W + 1 && p[W]
  {
    RegisterPoly(0xedb8_8320) + [true]
  }

  /** The exponents of the CRC-32 generator. */
  const EXPONENTS: set<nat> := {0, 1, 2, 4, 5, 7, 8, 10, 11, 12, 16, 22, 23, 26, 32}

  lemma GeneratorExponents(i: nat)
    requires i <= W
    ensures Generator()[i] <==> i in EXPONENTS
  {
    if i < W {
      hide Pow;
      HalvedIsQuotient(0xedb8_8320, 31 - i);
      ConstantBits(31 - i);
    }
  }

  lemma ConstantBits(t: nat)
    requires t < 32
    ensures Halved(0xedb8_8320, t) % 2 == 1 <==> 31 - t in EXPONENTS
  {
    hide Halved;
    if t < 8 {
      Byte0(t);
    } else {
      DropByte(0xedb8_8320, t);
      if t < 16 {
        Byte1(t - 8);
      } else {
        DropByte(0xed_b883, t - 8);
        if t < 24 {
          Byte2(t - 16);
        } else {
          DropByte(0xedb8, t - 16);
          Byte3(t - 24);
        }
      }
    }
  }

  lemma DropByte(x: nat, t: nat)
    requires t >= 8
    ensures Halved(x, t) == Halved(x / 0x100, t - 8)
  {
    HalvedAdd(x, 8, t - 8);
    HalvedIsQuotient(x, 8);
    WordPowers();
  }

  lemma Byte0(t: nat)
    requires t < 8
    ensures Halved(0xedb8_8320, t) % 2 == 1 <==> t in {5}
  {
    assert Halved(0xedb8_8320, 0) % 2 == 0 && Halved(0xedb8_8320, 1) % 2 == 0;
    assert Halved(0xedb8_8320, 2) % 2 == 0 && Halved(0xedb8_8320, 3) % 2 == 0;
    assert Halved(0xedb8_8320, 4) % 2 == 0 && Halved(0xedb8_8320, 5) % 2 == 1;
    assert Halved(0xedb8_8320, 6) % 2 == 0 && Halved(0xedb8_8320, 7) % 2 == 0;
  }

  lemma Byte1(t: nat)
    requires t < 8
    ensures Halved(0xed_b883, t) % 2 == 1 <==> t in {0, 1, 7}
  {
    assert Halved(0xed_b883, 0) % 2 == 1 && Halved(0xed_b883, 1) % 2 == 1;
    assert Halved(0xed_b883, 2) % 2 == 0 && Halved(0xed_b883, 3) % 2 == 0;
    assert Halved(0xed_b883, 4) % 2 == 0 && Halved(0xed_b883, 5) % 2 == 0;
    assert Halved(0xed_b883, 6) % 2 == 0 && Halved(0xed_b883, 7) % 2 == 1;
  }

  lemma Byte2(t: nat)
    requires t < 8
    ensures Halved(0xedb8, t) % 2 == 1 <==> t in {3, 4, 5, 7}
  {
    assert Halved(0xedb8, 0) % 2 == 0 && Halved(0xedb8, 1) % 2 == 0;
    assert Halved(0xedb8, 2) % 2 == 0 && Halved(0xedb8, 3) % 2 == 1;
    assert Halved(0xedb8, 4) % 2 == 1 && Halved(0xedb8, 5) % 2 == 1;
    assert Halved(0xedb8, 6) % 2 == 0 && Halved(0xedb8, 7) % 2 == 1;
  }

  lemma Byte3(t: nat)
    requires t < 8
    ensures Halved(0xed, t) % 2 == 1 <==> t in {0, 2, 3, 5, 6, 7}
  {
    assert Halved(0xed, 0) % 2 == 1 && Halved(0xed, 1) % 2 == 0;
    assert Halved(0xed, 2) % 2 == 1 && Halved(0xed, 3) % 2 == 1;
    assert Halved(0xed, 4) % 2 == 0 && Halved(0xed, 5) % 2 == 1;
    assert Halved(0xed, 6) % 2 == 1 && Halved(0xed, 7) % 2 == 1;
  }

  lemma {:induction false} HalvedAdd(x: nat, s: nat, t: nat)
    ensures Halved(x, s + t) == Halved(Halved(x, s), t)
  {
    if s > 0 {
      HalvedAdd(x / 2, s - 1, t);
    }
  }

  function Halved(x: nat, t: nat): nat {
    if t == 0 then x else Halved(x / 2, t - 1)
  }

  lemma {:induction false} HalvedIsQuotient(x: nat, t: nat)
    ensures Pow(2, t) > 0 && Halved(x, t) == x / Pow(2, t)
  {
    PowPositive(2, t);
    if t > 0 {
      HalvedIsQuotient(x / 2, t - 1);
      DivDiv(x, 2, Pow(2, t - 1), Pow(2, t));
    }
  }

  /** The message, its first bit as the highest coefficient; in each byte the
      low bit comes first. */
  function Message(data: seq<uint8>): (p: Poly)
    ensures |p| == 8 * |data|
  {
    if data == [] then [] else ByteBits(data[|data| - 1]) + Message(data[..|data| - 1])
  }

  /** x^32 times the message, with the initial register on its first 32 bits. */
  function Dividend(crc: uint32, data: seq<uint8>): (p: Poly)
    ensures |p| == W + 8 * |data|
  {
    Add(Zeros(W) + Message(data), Zeros(8 * |data|) + RegisterPoly(crc))
  }

  /** d = q times the generator plus r. */
  predicate Divides(d: Poly, q: Poly, r: Poly) {
    |r| == W && |d| == W + |q| && Add(Mul(q, Generator()), r + Zeros(|q|) + [false]) == d + [false]
  }

  // ----- one bit -----

  /** The register times x, reduced. */
  function StepPoly(r: Poly): (s: Poly)
    requires |r| == W
    ensures |s| == W
  {
    Add([false] + r[..W - 1], Scale(r[W - 1], RegisterPoly(0xedb8_8320)))
  }

  lemma ShiftBitIsStep(v: uint32)
    ensures RegisterPoly(ShiftBit(v)) == StepPoly(RegisterPoly(v))
  {
    hide Bit, XorBits;
    WordPowers();
    var half := (v as int / 2) as uint32;
    forall i | 0 <= i < W
      ensures RegisterPoly(ShiftBit(v))[i] == StepPoly(RegisterPoly(v))[i]
    {
      Parity(v as nat);
      BitOfHalf(v as nat, 32 - i);
      if i == 0 {
        TopBitOut(v as nat);
      }
      XorBitAt(half as nat, 0xedb8_8320, 32, 31 - i);
      BitOfHalf(v as nat, 32 - i);
    }
  }

  lemma TopBitOut(x: nat)
    requires x < 0x1_0000_0000
    ensures Bit(x, 32) == 0
  {
    WordPowers();
    DropLowBits(x, 32);
  }

  /** One more bit: the quotient gets a coefficient, the rest is stepped. */
  lemma DivideStep(d: Poly, q: Poly, r: Poly)
    requires Divides(d, q, r)
    ensures Divides([false] + d, [r[W - 1]] + q, StepPoly(r))
  {
    var c, g, n := r[W - 1], Generator(), |q|;
    var m := Mul(q, g);
    assert ([c] + q)[1..] == q;
    assert Mul([c] + q, g) == Add(Scale(c, g) + Zeros(n + 1), TimesX(m));
    hide Mul, Generator;
    StepOnePlace(r, n);
    var s := StepPoly(r) + Zeros(n + 1) + [false];
    var low, shifted := Scale(c, g) + Zeros(n + 1), [false] + r + Zeros(n) + [false];
    assert Add(low, s) == shifted;
    Swapped(low, TimesX(m), s);
    TimesXAdd(m, r + Zeros(n) + [false]);
    assert TimesX(r + Zeros(n) + [false]) == shifted;
    assert TimesX(d + [false]) == [false] + d + [false];
    assert Zeros(|[c] + q|) == Zeros(n + 1);
  }

  lemma Swapped(a: Poly, b: Poly, c: Poly)
    requires |a| == |b| == |c|
    ensures Add(Add(a, b), c) == Add(b, Add(a, c))
  {}

  lemma StepOnePlace(r: Poly, n: nat)
    requires |r| == W
    ensures Add(Scale(r[W - 1], Generator()) + Zeros(n + 1), StepPoly(r) + Zeros(n + 1) + [false])
            == [false] + r + Zeros(n) + [false]
  {
    var c, p := r[W - 1], RegisterPoly(0xedb8_8320);
    hide RegisterPoly;
    var left := Add(Scale(c, Generator()) + Zeros(n + 1), StepPoly(r) + Zeros(n + 1) + [false]);
    var right := [false] + r + Zeros(n) + [false];
    assert |left| == |right| == W + n + 2;
    forall i | 0 <= i < W + n + 2
      ensures left[i] == right[i]
    {
      if i < W {
        assert StepPoly(r)[i] == (([false] + r[..W - 1])[i] != Scale(c, p)[i]);
      }
    }
  }

  // ----- one byte -----

  /** Adding below the dividend adds to the rest. */
  lemma DivideAdd(d: Poly, q: Poly, r: Poly, e: Poly)
    requires Divides(d, q, r) && |e| == W
    ensures Divides(Add(d, e + Zeros(|q|)), q, Add(r, e))
  {
    hide Mul, Generator;
    var n := |q|;
    AddAssoc(Mul(q, Generator()), r + Zeros(n) + [false], e + Zeros(n) + [false]);
    assert Add(r + Zeros(n) + [false], e + Zeros(n) + [false]) == Add(r, e) + Zeros(n) + [false];
    assert Add(d + [false], e + Zeros(n) + [false]) == Add(d, e + Zeros(n)) + [false];
  }

  lemma {:induction false} DivideSteps(d: Poly, q: Poly, v: uint32, bits: nat) returns (q': Poly)
    requires Divides(d, q, RegisterPoly(v))
    ensures Divides(Zeros(bits) + d, q', RegisterPoly(ShiftBits(v, bits)))
  {
    hide Divides, RegisterPoly, ShiftBit;
    if bits == 0 {
      assert Zeros(0) + d == d;
      q' := q;
    } else {
      q' := DivideSteps(d, q, v, bits - 1);
      var w := ShiftBits(v, bits - 1);
      DivideStep(Zeros(bits - 1) + d, q', RegisterPoly(w));
      ShiftBitIsStep(w);
      q' := [RegisterPoly(w)[W - 1]] + q';
      assert [false] + (Zeros(bits - 1) + d) == Zeros(bits) + d;
    }
  }

  lemma ByteInRegister(v: uint32, b: uint8)
    ensures RegisterPoly(Xor32(v, b as uint32)) == Add(RegisterPoly(v), Zeros(24) + ByteBits(b))
  {
    hide Bit, XorBits;
    WordPowers();
    forall i | 0 <= i < W
      ensures RegisterPoly(Xor32(v, b as uint32))[i] == Add(RegisterPoly(v), Zeros(24) + ByteBits(b))[i]
    {
      XorBitAt(v as nat, b as nat, 32, 31 - i);
      if i < 24 {
        NoHighBit(b, 31 - i);
      }
    }
  }

  lemma NoHighBit(b: uint8, t: nat)
    requires t >= 8
    ensures Bit(b as nat, t) == 0
  {
    hide Pow;
    WordPowers();
    PowMono(8, t);
    DropLowBits(b as nat, t);
  }

  lemma ByteInDividend(crc: uint32, data: seq<uint8>, b: uint8)
    ensures Zeros(8) + Add(Dividend(crc, data), Zeros(24) + ByteBits(b) + Zeros(8 * |data|))
            == Dividend(crc, data + [b])
  {
    var n, s, m := 8 * |data|, RegisterPoly(crc), Message(data);
    hide RegisterPoly;
    assert (data + [b])[..|data|] == data && (data + [b])[|data|] == b;
    assert Message(data + [b]) == ByteBits(b) + m;
    hide Message, ByteBits;
    var left := Zeros(8) + Add(Dividend(crc, data), Zeros(24) + ByteBits(b) + Zeros(n));
    var right := Add(Zeros(W) + (ByteBits(b) + m), Zeros(n + 8) + s);
    forall i | 0 <= i < W + n + 8
      ensures left[i] == right[i]
    {
      if i >= 8 {
        assert Dividend(crc, data)[i - 8] == ((Zeros(W) + m)[i - 8] != (Zeros(n) + s)[i - 8]);
      }
    }
  }

  // ----- the whole message -----

  /** The register after the data is what division of the dividend leaves. */
  lemma {:induction false} RegisterIsRemainder(crc: uint32, data: seq<uint8>) returns (q: Poly)
    ensures Divides(Dividend(crc, data), q, RegisterPoly(Register(crc, data)))
  {
    hide RegisterPoly, Divides, Dividend, ShiftBits, Xor32, ByteBits;
    if data == [] {
      q := [];
      NothingDivided(crc);
    } else {
      var init, b := data[..|data| - 1], data[|data| - 1];
      q := RegisterIsRemainder(crc, init);
      QuotientLength(Dividend(crc, init), q, RegisterPoly(Register(crc, init)));
      DivideAdd(Dividend(crc, init), q, RegisterPoly(Register(crc, init)), Zeros(24) + ByteBits(b));
      ByteInRegister(Register(crc, init), b);
      q := DivideSteps(Add(Dividend(crc, init), Zeros(24) + ByteBits(b) + Zeros(8 * |init|)), q,
                       Xor32(Register(crc, init), b as uint32), 8);
      ByteInDividend(crc, init, b);
      assert init + [b] == data;
    }
  }

  lemma QuotientLength(d: Poly, q: Poly, r: Poly)
    requires Divides(d, q, r)
    ensures |d| == W + |q|
  {}

  lemma NothingDivided(crc: uint32)
    ensures Divides(Dividend(crc, []), [], RegisterPoly(crc))
  {
    hide RegisterPoly;
    assert Mul([], Generator()) == Zeros(W + 1);
    assert Zeros(W) + Message([]) == Zeros(W);
  }

  // ----- there is only one remainder -----

  lemma {:induction false} TopCoefficient(q: Poly, k: nat)
    requires k < |q| && q[k] && forall j :: k < j < |q| ==> !q[j]
    ensures Mul(q, Generator())[k + W]
  {
    var g, rest := Generator(), q[1..];
    hide Generator;
    assert Mul(q, g)[k + W] == ((Scale(q[0], g) + Zeros(|q|))[k + W] != TimesX(Mul(rest, g))[k + W]);
    if k == 0 {
      NothingTimes(rest, g);
    } else {
      TopCoefficient(rest, k - 1);
    }
  }

  lemma {:induction false} NothingTimes(q: Poly, g: Poly)
    requires forall j :: 0 <= j < |q| ==> !q[j]
    ensures Mul(q, g) == Zeros(|q| + |g|)
  {
    if q != [] {
      NothingTimes(q[1..], g);
    }
  }

  lemma {:induction false} HighestSet(q: Poly, n: nat) returns (k: nat)
    requires n <= |q| && exists j :: 0 <= j < n && q[j]
    ensures k < n && q[k] && forall j :: k < j < n ==> !q[j]
  {
    k := n - 1;
    if !q[k] {
      k := HighestSet(q, n - 1);
    }
  }

  /** Different quotients show above the remainder. */
  lemma ProductsDiffer(q: Poly, q': Poly) returns (i: nat)
    requires |q| == |q'| && q != q'
    ensures W <= i < W + |q| && Mul(q, Generator())[i] != Mul(q', Generator())[i]
  {
    var diff := Add(q, q');
    assert exists j :: 0 <= j < |q| && diff[j] by {
      var j :| 0 <= j < |q| && q[j] != q'[j];
      assert diff[j];
    }
    var k := HighestSet(diff, |q|);
    TopCoefficient(diff, k);
    MulAddLeft(q, q', Generator());
    i := k + W;
  }

  lemma RemainderUnique(d: Poly, q: Poly, r: Poly, q': Poly, r': Poly)
    requires Divides(d, q, r) && Divides(d, q', r')
    ensures q == q' && r == r'
  {
    var g, n := Generator(), |q|;
    hide Generator;
    assert forall i :: W <= i < W + n ==> Mul(q, g)[i] == d[i] == Mul(q', g)[i] by {
      forall i | W <= i < W + n
        ensures Mul(q, g)[i] == d[i] == Mul(q', g)[i]
      {
        assert Add(Mul(q, g), r + Zeros(n) + [false])[i] == d[i] == Add(Mul(q', g), r' + Zeros(n) + [false])[i];
      }
    }
    if q != q' {
      var i := ProductsDiffer(q, q');
      assert false;
    }
    SameRest(Mul(q, g), r, r', Zeros(n) + [false]);
    assert r + (Zeros(n) + [false]) == r + Zeros(n) + [false];
    assert r' + (Zeros(n) + [false]) == r' + Zeros(n) + [false];
  }

  lemma SameRest(m: Poly, r: Poly, r': Poly, z: Poly)
    requires |r| == |r'| && |m| == |r| + |z|
    ensures Add(m, r + z) == Add(m, r' + z) ==> r == r'
  {
    if Add(m, r + z) == Add(m, r' + z) {
      forall i | 0 <= i < |r|
        ensures r[i] == r'[i]
      {
        assert Add(m, r + z)[i] == Add(m, r' + z)[i];
      }
    }
  }

  lemma RegisterPolyInjective(v: uint32, w: uint32)
    requires RegisterPoly(v) == RegisterPoly(w)
    ensures v == w
  {
    hide Bit, XorBits;
    WordPowers();
    var x := XorBits(v as nat, w as nat, 32);
    forall t | 0 <= t < 32
      ensures Bit(x, t) != 1
    {
      assert RegisterPoly(v)[31 - t] == RegisterPoly(w)[31 - t];
      XorBitAt(v as nat, w as nat, 32, t);
    }
    NoBits(x, 32);
    XorBitsZero(v as nat, w as nat, 32);
  }

  /** archive_crc32: complement the register, divide, complement what is left;
      no other value will do. */
  lemma CrcIsRemainder(crc: uint32, data: seq<uint8>, r: uint32)
    ensures (exists q :: Divides(Dividend(Xor32(crc, ONES), data), q, RegisterPoly(r)))
            <==> Crc32(crc, data) == Xor32(r, ONES)
  {
    hide Divides, Dividend, RegisterPoly, Register, Xor32;
    var start := Xor32(crc, ONES);
    var d, s := Dividend(start, data), Register(start, data);
    var q := RegisterIsRemainder(start, data);
    OnesTwice(s);
    OnesTwice(r);
    if q' :| Divides(d, q', RegisterPoly(r)) {
      RemainderUnique(d, q, RegisterPoly(s), q', RegisterPoly(r));
      RegisterPolyInjective(s, r);
    }
  }
}
