/** GHASH (tools/zz9k-crypto-soft.c) against sections 6.3 and 6.4 of NIST SP
    800-38D. */
module Ghash {
  import opened Words
  import opened ModArith
  import opened Bitwise
  import opened Gf128

  // ----- bytes as polynomials, most significant bit first -----

  function ByteBits(b: uint8): (p: Poly)
    ensures |p| == 8
  {
    seq(8, r requires 0 <= r < 8 => Bit(b as nat, 7 - r) == 1)
  }

  function Bits(s: seq<uint8>): (p: Poly)
    ensures |p| == 8 * |s|
  {
    if s == [] then [] else ByteBits(s[0]) + Bits(s[1..])
  }

  lemma {:induction false} BitAt(s: seq<uint8>, i: nat)
    requires i < 8 * |s|
    ensures Bits(s)[i] == (Bit(s[i / 8] as nat, 7 - i % 8) == 1)
  {
    hide Bit;
    if i >= 8 {
      BitAt(s[1..], i - 8);
      assert (i - 8) / 8 == i / 8 - 1 && (i - 8) % 8 == i % 8;
    }
  }

  lemma ByteBitsXor(a: uint8, b: uint8)
    ensures ByteBits(Xor8(a, b)) == Add(ByteBits(a), ByteBits(b))
  {
    hide Bit, XorBits;
    WordPowers();
    forall r | 0 <= r < 8
      ensures ByteBits(Xor8(a, b))[r] == (ByteBits(a)[r] != ByteBits(b)[r])
    {
      XorBitAt(a as nat, b as nat, 8, 7 - r);
    }
  }

  /** Exclusive or of bytes is addition of polynomials. */
  lemma {:induction false} BitsXor(a: seq<uint8>, b: seq<uint8>)
    requires |a| == |b|
    ensures Bits(XorSeq(a, b)) == Add(Bits(a), Bits(b))
  {
    hide ByteBits, Xor8;
    if a != [] {
      assert XorSeq(a, b)[1..] == XorSeq(a[1..], b[1..]);
      BitsXor(a[1..], b[1..]);
      ByteBitsXor(a[0], b[0]);
      assert Add(ByteBits(a[0]) + Bits(a[1..]), ByteBits(b[0]) + Bits(b[1..]))
          == Add(ByteBits(a[0]), ByteBits(b[0])) + Add(Bits(a[1..]), Bits(b[1..]));
    }
  }

  /** `(b >> 1) | (c << 7)` with c the low bit of the byte before. */
  function ShiftIn(b: uint8, c: bool): uint8 {
    (b as int / 2 + if c then 0x80 else 0) as uint8
  }

  lemma SmallPowers()
    ensures Pow(2, 0) == 1 && Pow(2, 1) == 2 && Pow(2, 2) == 4 && Pow(2, 3) == 8
    ensures Pow(2, 4) == 16 && Pow(2, 5) == 32 && Pow(2, 6) == 64 && Pow(2, 7) == 128
  {
    assert Pow(2, 4) == 16;
    PowAdd(2, 4, 1);
    PowAdd(2, 4, 2);
    PowAdd(2, 4, 3);
  }

  lemma HighBitOf(x: nat, c: bool, t: nat)
    requires x < 0x80 && t < 7
    ensures Bit(x + if c then 0x80 else 0, t) == Bit(x, t)
  {
    SmallPowers();
    var p, q := Pow(2, t), Pow(2, 6 - t);
    PowAdd(2, t, 6 - t);
    assert 0x80 == 2 * q * p;
    if c {
      DivModUnique(x + 0x80, p, x / p + 2 * q, x % p);
      DivModUnique(x / p + 2 * q, 2, x / p / 2 + q, x / p % 2);
    }
  }

  lemma ByteBitsShift(b: uint8, c: bool)
    ensures ByteBits(ShiftIn(b, c)) == [c] + ByteBits(b)[..7]
    ensures ByteBits(b)[7] == (b % 2 == 1)
  {
    var x := b as int / 2;
    hide Bit;
    SeventhBit(x, c);
    Parity(b as nat);
    forall r | 0 <= r < 8
      ensures ByteBits(ShiftIn(b, c))[r] == ([c] + ByteBits(b)[..7])[r]
    {
      if r > 0 {
        HighBitOf(x, c, 7 - r);
        BitOfHalf(b as nat, 8 - r);
      }
    }
  }

  /** A byte string shifted right by one bit, c coming in at the front. */
  function ShiftSeq(s: seq<uint8>, c: bool): (r: seq<uint8>)
    ensures |r| == |s|
  {
    if s == [] then [] else [ShiftIn(s[0], c)] + ShiftSeq(s[1..], s[0] % 2 == 1)
  }

  lemma {:induction false} ShiftSeqAt(s: seq<uint8>, c: bool, j: nat)
    requires j < |s|
    ensures ShiftSeq(s, c)[j] == ShiftIn(s[j], if j == 0 then c else s[j - 1] % 2 == 1)
  {
    hide ShiftIn;
    if j > 0 {
      ShiftSeqAt(s[1..], s[0] % 2 == 1, j - 1);
    }
  }

  lemma {:induction false} BitsShift(s: seq<uint8>, c: bool)
    ensures Bits(ShiftSeq(s, c)) == ([c] + Bits(s))[..8 * |s|]
  {
    hide ByteBits, ShiftIn;
    if s != [] {
      var low := s[0] % 2 == 1;
      BitsShift(s[1..], low);
      ByteBitsShift(s[0], c);
      Carry(c, ByteBits(s[0]), low, Bits(s[1..]));
    }
  }

  lemma Carry(c: bool, p: Poly, low: bool, q: Poly)
    requires |p| == 8 && p[7] == low
    ensures ([c] + (p + q))[..8 + |q|] == [c] + p[..7] + ([low] + q)[..|q|]
  {}

  lemma LastBit(s: seq<uint8>)
    requires s != []
    ensures Bits(s)[8 * |s| - 1] == (s[|s| - 1] % 2 == 1)
  {
    hide Bits, Bit;
    BitAt(s, 8 * |s| - 1);
    LastPlace(|s|);
    Parity(s[|s| - 1] as nat);
  }

  lemma LastPlace(n: nat)
    requires n > 0
    ensures (8 * n - 1) / 8 == n - 1 && (8 * n - 1) % 8 == 7
  {}

  lemma Parity(x: nat)
    ensures (Bit(x, 0) == 1) == (x % 2 == 1)
  {
    assert Pow(2, 0) == 1;
  }

  lemma SeventhBit(x: nat, c: bool)
    requires x < 0x80
    ensures (Bit(x + if c then 0x80 else 0, 7) == 1) == c
  {
    SmallPowers();
  }

  lemma {:induction false} BitsOfZeros(n: nat)
    ensures Bits(seq(n, _ => 0 as uint8)) == Zeros(8 * n)
  {
    var s := seq(n, _ => 0 as uint8);
    if n > 0 {
      assert s[1..] == seq(n - 1, _ => 0 as uint8);
      BitsOfZeros(n - 1);
      forall r | 0 <= r < 8
        ensures !ByteBits(0)[r]
      {
        PowPositive(2, 7 - r);
        DivModUnique(0, Pow(2, 7 - r), 0, 0);
      }
    }
  }

  /** 0xe1 in the first byte is x^7 + x^2 + x + 1. */
  lemma ReductionByte()
    ensures Bits([0xe1] + seq(15, _ => 0 as uint8)) == Low()
  {
    SmallPowers();
    BitsOfZeros(15);
    assert ([0xe1] + seq(15, _ => 0 as uint8))[1..] == seq(15, _ => 0 as uint8);
    assert ByteBits(0xe1) == [true, true, true, false, false, false, false, true];
  }

  lemma ReduceFirstByte(v: seq<uint8>)
    requires |v| == 16
    ensures Bits(v[0 := Xor8(v[0], 0xe1)]) == Add(Bits(v), Low())
  {
    hide Bits;
    var r := [0xe1] + seq(15, _ => 0 as uint8);
    ReductionByte();
    BitsXor(v, r);
    forall i | 0 <= i < 16
      ensures XorSeq(v, r)[i] == v[0 := Xor8(v[0], 0xe1)][i]
    {
      XorZeroRight(v[i]);
    }
    assert XorSeq(v, r) == v[0 := Xor8(v[0], 0xe1)];
  }

  lemma XorZeroRight(a: uint8)
    ensures Xor8(a, 0) == a
  {
    WordPowers();
    XorBitsZeroRight(a as nat, 8);
  }

  lemma {:induction false} XorBitsZeroRight(a: nat, n: nat)
    requires a < Pow(2, n)
    ensures XorBits(a, 0, n) == a
  {
    if n > 0 {
      XorBitsZeroRight(a / 2, n - 1);
    }
  }

  /** Shifting and reducing multiplies by x. */
  lemma StepOfBytes(v: seq<uint8>, w: seq<uint8>)
    requires |v| == |w| == 16
    requires w == var s := ShiftSeq(v, false); if v[15] % 2 == 1 then s[0 := Xor8(s[0], 0xe1)] else s
    ensures Bits(w) == Step(Bits(v))
  {
    hide Bits, Low, ShiftSeq, Xor8;
    var s, p := ShiftSeq(v, false), TimesX(Bits(v));
    BitsShift(v, false);
    LastBit(v);
    ReduceFirstByte(s);
    assert Zeros(0) + Low() == Low();
    AddZero(Bits(s));
    assert p[128] == (v[15] % 2 == 1) && p[..128] == Bits(s);
    assert Rem(p) == DropTop(p);
  }

  // ----- the code -----

  /** z ^= v. */
  method XorInto(z: array<uint8>, v: seq<uint8>)
    requires z.Length == |v| == 16
    modifies z
    ensures Bits(z[..]) == Add(Bits(old(z[..])), Bits(v))
  {
    hide Xor8, Bits;
    ghost var before := z[..];
    for j := 0 to 16
      invariant z[..j] == XorSeq(before, v)[..j] && z[j..] == before[j..]
    {
      assert z[j] == z[j..][0] == before[j];
      z[j] := Xor8(z[j], v[j]);
      assert z[..j + 1] == XorSeq(before, v)[..j] + [z[j]];
    }
    assert z[..] == z[..16] == XorSeq(before, v);
    BitsXor(before, v);
  }

  /** v shifted right by one bit, from the last byte to the first. */
  method ShiftRight(v: array<uint8>)
    requires v.Length == 16
    modifies v
    ensures v[..] == ShiftSeq(old(v[..]), false)
  {
    hide ShiftIn, ShiftSeq;
    ghost var before := v[..];
    var j := 15;
    while j > 0
      invariant 0 <= j <= 15
      invariant forall k :: 0 <= k <= j ==> v[k] == before[k]
      invariant forall k :: j < k < 16 ==> v[k] == ShiftSeq(before, false)[k]
    {
      ShiftSeqAt(before, false, j);
      v[j] := ShiftIn(v[j], v[j - 1] % 2 == 1);
      j := j - 1;
    }
    ShiftSeqAt(before, false, 0);
    v[0] := ShiftIn(v[0], false);
    assert v[..] == ShiftSeq(before, false);
  }

  /** zz9k_ghash_mul: x becomes the product of x and h in the field. */
  method MulInPlace(x: array<uint8>, h: seq<uint8>)
    requires x.Length == |h| == 16
    modifies x
    ensures Bits(x[..]) == Product(Bits(old(x[..])), Bits(h))
  {
    hide Bits, Rem, Mul, Step, Xor8, ShiftSeq, Bit;
    var z := new uint8[16](_ => 0);
    var v := new uint8[16](j requires 0 <= j < 16 => h[j]);
    ghost var X := Bits(x[..]);
    BitsOfZeros(16);
    assert z[..] == seq(16, _ => 0 as uint8) && v[..] == h;
    AddZero(Product(X, Bits(h)));
    assert X[0..] == X;
    for i := 0 to 128
      invariant Add(Bits(z[..]), Rem(Mul(X[i..], Bits(v[..])))) == Product(X, Bits(h))
      invariant x[..] == old(x[..])
    {
      ghost var zs, vs := z[..], v[..];
      BitAt(x[..], i);
      NextBit(X[i..], Bits(vs));
      assert X[i..][1..] == X[i + 1..];
      ghost var rest := Rem(Mul(X[i + 1..], Step(Bits(vs))));
      AddAssoc(Bits(zs), Scale(X[i], Bits(vs)), rest);
      if Bit(x[i / 8] as nat, 7 - i % 8) == 1 {
        XorInto(z, v[..]);
      } else {
        AddZero(Bits(zs));
      }
      var bit := v[15] % 2;
      ShiftRight(v);
      if bit == 1 {
        v[0] := Xor8(v[0], 0xe1);
      }
      StepOfBytes(vs, v[..]);
    }
    assert X[128..] == [];
    EmptyProduct(Bits(v[..]));
    AddZero(Bits(z[..]));
    ghost var result := z[..];
    for i := 0 to 16
      invariant x[..i] == result[..i] && z[..] == result
      modifies x
    {
      x[i] := z[i];
    }
    assert x[..] == x[..16] == result;
  }

  lemma EmptyProduct(v: Poly)
    requires |v| == N
    ensures Rem(Mul([], v)) == Zeros(N)
  {
    RemZeros(N);
  }

  // ----- the hash of section 6.4 -----

  /** GHASH of whole blocks, starting from y: each block is added, then the
      sum is multiplied by h. */
  function Hash(y: Poly, h: Poly, s: seq<uint8>): (r: Poly)
    requires |y| == |h| == N && |s| % 16 == 0
    ensures |r| == N
    decreases |s|
  {
    if s == [] then y
    else Product(Add(Hash(y, h, s[..|s| - 16]), Bits(s[|s| - 16..])), h)
  }

  lemma {:induction false} HashAppend(y: Poly, h: Poly, a: seq<uint8>, b: seq<uint8>, c: seq<uint8>)
    requires |y| == |h| == N && |a| % 16 == 0 && |b| % 16 == 0
    requires c == a + b && |c| % 16 == 0
    ensures Hash(Hash(y, h, a), h, b) == Hash(y, h, c)
    decreases |b|
  {
    hide Product, Add, Bits;
    if b == [] {
      assert a + b == a;
    } else {
      assert c[..|c| - 16] == a + b[..|b| - 16] && c[|c| - 16..] == b[|b| - 16..];
      HashAppend(y, h, a, b[..|b| - 16], c[..|c| - 16]);
    }
  }

  lemma HashStep(y: Poly, h: Poly, a: seq<uint8>, block: seq<uint8>, c: seq<uint8>)
    requires |y| == |h| == N && |a| % 16 == 0 && |block| == 16 && |c| % 16 == 0
    requires c == a + block
    ensures Hash(y, h, c) == Product(Add(Hash(y, h, a), Bits(block)), h)
  {
    assert c[..|c| - 16] == a && c[|c| - 16..] == block;
  }

  /** p times h^k. */
  function TimesPower(p: Poly, h: Poly, k: nat): (r: Poly)
    requires |p| == |h| == N
    ensures |r| == N
  {
    if k == 0 then p else Product(TimesPower(p, h, k - 1), h)
  }

  lemma {:induction false} TimesPowerInside(p: Poly, h: Poly, k: nat)
    requires |p| == |h| == N
    ensures TimesPower(Product(p, h), h, k) == TimesPower(p, h, k + 1)
  {
    hide Product;
    if k > 0 {
      TimesPowerInside(p, h, k - 1);
    }
  }

  lemma {:induction false} TimesPowerAdd(p: Poly, q: Poly, h: Poly, k: nat)
    requires |p| == |q| == |h| == N
    ensures TimesPower(Add(p, q), h, k) == Add(TimesPower(p, h, k), TimesPower(q, h, k))
  {
    hide Product, Add;
    if k > 0 {
      TimesPowerAdd(p, q, h, k - 1);
      ProductAddLeft(TimesPower(p, h, k - 1), TimesPower(q, h, k - 1), h);
    }
  }

  /** X_1 h^m + X_2 h^(m-1) + ... + X_m h, for the m blocks of s. */
  function Polynomial(h: Poly, s: seq<uint8>): (r: Poly)
    requires |h| == N && |s| % 16 == 0
    ensures |r| == N
    decreases |s|
  {
    if s == [] then Zeros(N)
    else Add(TimesPower(Bits(s[..16]), h, |s| / 16), Polynomial(h, s[16..]))
  }

  /** Hashing evaluates a polynomial in h whose coefficients are the blocks. */
  lemma {:induction false} HashIsPolynomial(y: Poly, h: Poly, s: seq<uint8>)
    requires |y| == |h| == N && |s| % 16 == 0
    ensures Hash(y, h, s) == Add(TimesPower(y, h, |s| / 16), Polynomial(h, s))
    decreases |s|
  {
    hide Product, Add, Bits;
    if s == [] {
      AddZero(y);
    } else {
      var block, rest := s[..16], s[16..];
      HashIsPolynomial(Product(Add(y, Bits(block)), h), h, rest);
      PolynomialStep(h, block, rest, s);
      FirstBlock(y, h, Bits(block), Polynomial(h, rest), |rest| / 16);
      OneBlock(y, h, block);
      HashAppend(y, h, block, rest, s);
    }
  }

  lemma OneBlock(y: Poly, h: Poly, block: seq<uint8>)
    requires |y| == |h| == N && |block| == 16
    ensures Hash(y, h, block) == Product(Add(y, Bits(block)), h)
  {
    hide Product, Add, Bits;
    assert block[..0] == [] && block[0..] == block;
  }

  lemma PolynomialStep(h: Poly, block: seq<uint8>, rest: seq<uint8>, s: seq<uint8>)
    requires |h| == N && |block| == 16 && |rest| % 16 == 0 && s == block + rest && |s| % 16 == 0
    ensures Polynomial(h, s) == Add(TimesPower(Bits(block), h, |s| / 16), Polynomial(h, rest))
    ensures |s| / 16 == |rest| / 16 + 1
  {
    hide Add, Bits, TimesPower;
    assert s[..16] == block && s[16..] == rest;
  }

  lemma FirstBlock(y: Poly, h: Poly, b: Poly, rest: Poly, k: nat)
    requires |y| == |h| == |b| == |rest| == N
    ensures Add(TimesPower(Product(Add(y, b), h), h, k), rest)
         == Add(TimesPower(y, h, k + 1), Add(TimesPower(b, h, k + 1), rest))
  {
    hide Product, Add, TimesPower;
    TimesPowerInside(Add(y, b), h, k);
    TimesPowerAdd(y, b, h, k + 1);
    AddAssoc(TimesPower(y, h, k + 1), TimesPower(b, h, k + 1), rest);
  }

  /** zz9k_ghash_update: any data is hashed as if padded with zeros. */
  method Update(y: array<uint8>, h: seq<uint8>, data: seq<uint8>)
    requires y.Length == |h| == 16
    modifies y
    ensures Bits(y[..]) == Hash(Bits(old(y[..])), Bits(h), Pad16(data))
  {
    hide Bits, Product, Pad16, Hash;
    var off := 0;
    ghost var Y, H := Bits(y[..]), Bits(h);
    HashNothing(Y, H, data);
    while off < |data|
      invariant 0 <= off <= |data|
      invariant off % 16 == 0 || off == |data|
      invariant Bits(y[..]) == Hash(Y, H, Pad16(data[..off]))
      decreases |data| - off
    {
      var n := |data| - off;
      if n > 16 {
        n := 16;
      }
      var block := new uint8[16](i requires 0 <= i < 16 => if i < n then data[off + i] else 0);
      PadStep(data, off, n, block[..]);
      HashStep(Y, H, Pad16(data[..off]), block[..], Pad16(data[..off + n]));
      XorInto(y, block[..]);
      MulInPlace(y, h);
      off := off + n;
    }
    assert data[..|data|] == data;
  }

  lemma HashNothing(y: Poly, h: Poly, data: seq<uint8>)
    requires |y| == |h| == N
    ensures Hash(y, h, Pad16(data[..0])) == y
  {}

  lemma PadCount(off: nat, n: nat)
    requires off % 16 == 0 && 0 < n <= 16
    ensures n + (16 - (off + n) % 16) % 16 == 16
  {
    if n < 16 {
      assert (off + n) % 16 == n;
    } else {
      assert (off + n) % 16 == 0;
    }
  }

  /** The next block of the padded data. */
  lemma PadStep(data: seq<uint8>, off: nat, n: nat, block: seq<uint8>)
    requires off < |data| && off % 16 == 0 && n == (if |data| - off > 16 then 16 else |data| - off) && |block| == 16
    requires forall i :: 0 <= i < 16 ==> block[i] == if i < n then data[off + i] else 0
    ensures Pad16(data[..off + n]) == Pad16(data[..off]) + block
  {
    PadCount(off, n);
    var p := data[..off + n];
    assert Pad16(p)[..off] == data[..off] && Pad16(p)[off..] == block;
  }

  /** Different byte strings are different polynomials. */
  lemma {:induction false} BitsInjective(a: seq<uint8>, b: seq<uint8>)
    requires |a| == |b| && Bits(a) == Bits(b)
    ensures a == b
  {
    hide ByteBits;
    if a != [] {
      assert ByteBits(a[0]) == Bits(a)[..8] == Bits(b)[..8] == ByteBits(b[0]);
      assert Bits(a[1..]) == Bits(a)[8..] == Bits(b)[8..] == Bits(b[1..]);
      ByteBitsInjective(a[0], b[0]);
      BitsInjective(a[1..], b[1..]);
      assert a == [a[0]] + a[1..] && b == [b[0]] + b[1..];
    }
  }

  lemma ByteBitsInjective(a: uint8, b: uint8)
    requires ByteBits(a) == ByteBits(b)
    ensures a == b
  {
    hide Bit, XorBits;
    WordPowers();
    var x := XorBits(a as nat, b as nat, 8);
    forall t | 0 <= t < 8
      ensures Bit(x, t) != 1
    {
      assert ByteBits(a)[7 - t] == ByteBits(b)[7 - t];
      XorBitAt(a as nat, b as nat, 8, t);
    }
    NoBits(x, 8);
    XorBitsZero(a as nat, b as nat, 8);
  }

  /** A number without bits is zero. */
  lemma {:induction false} NoBits(x: nat, n: nat)
    requires x < Pow(2, n)
    requires forall t :: 0 <= t < n ==> Bit(x, t) != 1
    ensures x == 0
  {
    if n > 0 {
      assert Bit(x, 0) != 1 && Pow(2, 0) == 1;
      forall t | 0 <= t < n - 1
        ensures Bit(x / 2, t) != 1
      {
        BitOfHalf(x, t + 1);
        assert Bit(x, t + 1) != 1;
      }
      NoBits(x / 2, n - 1);
    }
  }
}
