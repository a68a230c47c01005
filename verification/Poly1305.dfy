/** Poly1305 in five 26-bit limbs (tools/zz9k-crypto-soft.c) against the
    integer definition of section 2.5 of RFC 8439. */
module Poly1305Spec {
  import opened Words
  import opened ModArith
  import opened Bitwise

  /** 2^130 - 5. */
  const P1305: int := 0x4_0000_0000_0000_0000_0000_0000_0000_0000 - 5

  /** Section 2.5: bytes 3, 7, 11 and 15 of r lose their top four bits, bytes
      4, 8 and 12 their bottom two. */
  function ClampByte(i: nat, b: uint8): (c: uint8)
  {
    if i % 4 == 3 then (b as int % 16) as uint8
    else if i % 4 == 0 && i > 0 then (b as int / 4 * 4) as uint8
    else b
  }

  function Clamp(r: seq<uint8>): (c: seq<uint8>)
    ensures |c| == |r|
  {
    seq(|r|, i requires 0 <= i < |r| => ClampByte(i, r[i]))
  }

  /** Which bits of r stay: all but the top four of every word and, except in
      the first, the bottom two; the mask 0ffffffc 0ffffffc 0ffffffc 0fffffff. */
  predicate StaysSet(i: nat) {
    i % 32 < 28 && (i < 32 || i % 32 >= 2)
  }

  /** Clamping clears all other bits. */
  lemma ClampBits(r: seq<uint8>, i: nat)
    requires |r| == 16 && i < 128
    ensures Bit(LeValue(Clamp(r)), i) == if StaysSet(i) then Bit(LeValue(r), i) else 0
  {
    hide LeValue, Bit, ClampByte;
    BitOfBytes(Clamp(r), i);
    BitOfBytes(r, i);
    ClampedByte(i / 8, r[i / 8], i % 8);
    PlaceInWord(i);
  }

  lemma PlaceInWord(i: nat)
    ensures i % 32 == 8 * (i / 8 % 4) + i % 8 && (i < 32 <==> i / 8 < 4)
  {}

  lemma ClampedByte(j: nat, b: uint8, t: nat)
    requires t < 8
    ensures Bit(ClampByte(j, b) as nat, t)
            == if (j % 4 == 3 && t >= 4) || (j % 4 == 0 && j > 0 && t < 2) then 0 else Bit(b as nat, t)
  {
    assert Pow(2, 4) == 16 && Pow(2, 2) == 4;
    hide Bit, Pow;
    BitOfRemainder(b as nat, 4, t);
    BitOfMultiple(b as nat, 2, t);
  }

  /** The block as a number, with one bit set beyond its last byte. */
  function BlockNumber(block: seq<uint8>): nat {
    PowPositive(0x100, |block|);
    LeValue(block) + Pow(0x100, |block|)
  }

  /** The message cut into 16-byte blocks, the last one possibly shorter. */
  function Blocks(m: seq<uint8>): (bs: seq<seq<uint8>>)
    ensures forall i :: 0 <= i < |bs| ==> 0 < |bs[i]| <= 16
    decreases |m|
  {
    if m == [] then []
    else if |m| <= 16 then [m]
    else [m[..16]] + Blocks(m[16..])
  }

  /** The accumulator of section 2.5, block after block. */
  function Accumulate(acc: int, r: int, blocks: seq<seq<uint8>>): int
    decreases |blocks|
  {
    if blocks == [] then acc
    else Accumulate(Next(acc, r, blocks[0]), r, blocks[1..])
  }

  /** One step of it. */
  function Next(acc: int, r: int, block: seq<uint8>): int {
    (acc + BlockNumber(block)) * r % P1305
  }

  /** c_1 r^n + c_2 r^(n-1) + ... + c_n r, the polynomial being evaluated. */
  function Polynomial(r: int, blocks: seq<seq<uint8>>): int
    decreases |blocks|
  {
    if blocks == [] then 0
    else BlockNumber(blocks[0]) * Pow(r, |blocks|) + Polynomial(r, blocks[1..])
  }

  /** The tag of a message as a number. */
  function Tag(m: seq<uint8>, key: seq<uint8>): (t: nat)
    requires |key| == 32
    ensures t < 0x1_0000_0000_0000_0000_0000_0000_0000_0000
  {
    (Polynomial(LeValue(Clamp(key[..16])), Blocks(m)) % P1305 + LeValue(key[16..]))
    % 0x1_0000_0000_0000_0000_0000_0000_0000_0000
  }

  /** Horner's rule: accumulating is evaluating the polynomial. */
  lemma {:induction false} AccumulateIsPolynomial(acc: int, r: int, blocks: seq<seq<uint8>>)
    ensures Cong(Accumulate(acc, r, blocks), acc * Pow(r, |blocks|) + Polynomial(r, blocks), P1305)
    decreases |blocks|
  {
    if blocks == [] {
    } else {
      var c, k := BlockNumber(blocks[0]), Pow(r, |blocks| - 1);
      var acc' := (acc + c) * r % P1305;
      AccumulateIsPolynomial(acc', r, blocks[1..]);
      CongMod((acc + c) * r, P1305);
      CongMul(acc', (acc + c) * r, k, k, P1305);
      assert (acc + c) * r * k == acc * (r * k) + c * (r * k);
      CongAdd(acc' * k, (acc + c) * r * k, Polynomial(r, blocks[1..]), Polynomial(r, blocks[1..]), P1305);
    }
  }

  /** Accumulating in two parts. */
  lemma {:induction false} AccumulateAppend(acc: int, r: int, a: seq<seq<uint8>>, b: seq<seq<uint8>>)
    ensures Accumulate(acc, r, a + b) == Accumulate(Accumulate(acc, r, a), r, b)
    decreases |a|
  {
    if a == [] {
      assert a + b == b;
    } else {
      assert (a + b)[1..] == a[1..] + b;
      AccumulateAppend(Next(acc, r, a[0]), r, a[1..], b);
    }
  }

  // ----- what the bit beyond the last byte is for -----

  function Numbers(blocks: seq<seq<uint8>>): (s: seq<nat>)
    ensures |s| == |blocks|
  {
    seq(|blocks|, i requires 0 <= i < |blocks| => BlockNumber(blocks[i]))
  }

  /** Blocks with one number are one block. */
  lemma BlockNumberInjective(a: seq<uint8>, b: seq<uint8>)
    requires BlockNumber(a) == BlockNumber(b)
    ensures a == b
  {
    LeValueBound(a);
    LeValueBound(b);
    if |a| < |b| {
      PowGrows(|a|, |b|);
    } else if |b| < |a| {
      PowGrows(|b|, |a|);
    } else {
      LeValueInjective(a, b);
    }
  }

  lemma PowGrows(m: nat, n: nat)
    requires m < n
    ensures 2 * Pow(0x100, m) <= Pow(0x100, n)
  {
    PowAdd(0x100, m, n - m);
    PowPositive(0x100, m);
    PowPositive(0x100, n - m - 1);
    MulMono(2, Pow(0x100, n - m), Pow(0x100, m));
  }

  /** The coefficients of the polynomial determine the message. */
  lemma {:induction false} NumbersDetermineMessage(m: seq<uint8>, n: seq<uint8>)
    requires Numbers(Blocks(m)) == Numbers(Blocks(n))
    ensures m == n
    decreases |m|
  {
    hide BlockNumber;
    if m != [] && n != [] {
      assert Numbers(Blocks(m))[0] == Numbers(Blocks(n))[0];
      BlockNumberInjective(Blocks(m)[0], Blocks(n)[0]);
      if |m| > 16 || |n| > 16 {
        assert |Blocks(m)| > 1 && |Blocks(n)| > 1;
        assert Numbers(Blocks(m))[1..] == Numbers(Blocks(m[16..]));
        assert Numbers(Blocks(n))[1..] == Numbers(Blocks(n[16..]));
        NumbersDetermineMessage(m[16..], n[16..]);
        assert m == m[..16] + m[16..] && n == n[..16] + n[16..];
      }
    }
  }

  lemma BlocksStep(m: seq<uint8>)
    requires |m| >= 16
    ensures Blocks(m) == [m[..16]] + Blocks(m[16..])
  {
    if |m| == 16 {
      assert m[..16] == m && m[16..] == [];
    }
  }

  /** Whole blocks can be cut off first. */
  lemma {:induction false} BlocksAppend(a: seq<uint8>, b: seq<uint8>)
    requires |a| % 16 == 0
    ensures Blocks(a + b) == Blocks(a) + Blocks(b)
    decreases |a|
  {
    if a == [] {
      assert a + b == b;
    } else {
      BlocksAppend(a[16..], b);
      BlocksStep(a);
      BlocksStep(a + b);
      assert (a + b)[..16] == a[..16] && (a + b)[16..] == a[16..] + b;
    }
  }

  /** Working with a congruent accumulator takes the same step. */
  lemma NextCong(x: int, acc: int, r: int, block: seq<uint8>, y: int)
    requires Cong(x, acc, P1305) && Cong(y, (x + BlockNumber(block)) * r, P1305)
    ensures Cong(y, Next(acc, r, block), P1305)
  {
    var n := BlockNumber(block);
    CongAdd(x, acc, n, n, P1305);
    CongMul(x + n, acc + n, r, r, P1305);
    CongMod((acc + n) * r, P1305);
  }
}

module Poly1305 {
  import opened Words
  import opened ModArith
  import opened Poly1305Spec

  /** The number five limbs of weight 2^(26 i) stand for. */
  function Value5(w: seq<uint32>): int
    requires |w| == 5
  {
    Radix26(w[0] as int, w[1] as int, w[2] as int, w[3] as int, w[4] as int)
  }

  function Radix26(a: int, b: int, c: int, d: int, e: int): int {
    a + b * 0x400_0000 + c * 0x10_0000_0000_0000 + d * 0x4000_0000_0000_0000_0000
    + e * 0x100_0000_0000_0000_0000_0000_0000
  }

  /** Schoolbook product of two five-limb numbers, limbs beyond the fifth
      coming back multiplied by five. */
  lemma ProductReduces(h0: int, h1: int, h2: int, h3: int, h4: int, r0: int, r1: int, r2: int, r3: int, r4: int)
    ensures Cong(
      Radix26(h0 * r0 + h1 * (5 * r4) + h2 * (5 * r3) + h3 * (5 * r2) + h4 * (5 * r1),
              h0 * r1 + h1 * r0 + h2 * (5 * r4) + h3 * (5 * r3) + h4 * (5 * r2),
              h0 * r2 + h1 * r1 + h2 * r0 + h3 * (5 * r4) + h4 * (5 * r3),
              h0 * r3 + h1 * r2 + h2 * r1 + h3 * r0 + h4 * (5 * r4),
              h0 * r4 + h1 * r3 + h2 * r2 + h3 * r1 + h4 * r0),
      Radix26(h0, h1, h2, h3, h4) * Radix26(r0, r1, r2, r3, r4), P1305)
  {
    var q := h1 * r4 + h2 * r3 + h3 * r2 + h4 * r1 + (h2 * r4 + h3 * r3 + h4 * r2) * 0x400_0000
             + (h3 * r4 + h4 * r3) * 0x10_0000_0000_0000 + h4 * r4 * 0x4000_0000_0000_0000_0000;
    CongIntro(
      Radix26(h0 * r0 + h1 * (5 * r4) + h2 * (5 * r3) + h3 * (5 * r2) + h4 * (5 * r1),
              h0 * r1 + h1 * r0 + h2 * (5 * r4) + h3 * (5 * r3) + h4 * (5 * r2),
              h0 * r2 + h1 * r1 + h2 * r0 + h3 * (5 * r4) + h4 * (5 * r3),
              h0 * r3 + h1 * r2 + h2 * r1 + h3 * r0 + h4 * (5 * r4),
              h0 * r4 + h1 * r3 + h2 * r2 + h3 * r1 + h4 * r0),
      Radix26(h0, h1, h2, h3, h4) * Radix26(r0, r1, r2, r3, r4), P1305, -q);
  }

  /** Five products of a 27-bit limb and a 26-bit limb, possibly times five:
      the sum stays inside 64 bits. */
  function Dot5(a0: uint32, b0: uint32, a1: uint32, b1: uint32, a2: uint32, b2: uint32,
                a3: uint32, b3: uint32, a4: uint32, b4: uint32, ghost bound: int): (d: uint64)
    requires a0 <= 0x800_0040 && a1 <= 0x800_0040 && a2 <= 0x800_0040 && a3 <= 0x800_0040 && a4 <= 0x800_0040
    requires b0 as int <= bound && b1 as int <= bound && b2 as int <= bound && b3 as int <= bound && b4 as int <= bound
    requires bound <= 0x1400_0000
    ensures d as int == a0 as int * b0 as int + a1 as int * b1 as int + a2 as int * b2 as int
                        + a3 as int * b3 as int + a4 as int * b4 as int
    ensures d as int <= 5 * (0x800_0040 * bound)
  {
    MulBound(a0 as int, b0 as int, bound);
    MulBound(a1 as int, b1 as int, bound);
    MulBound(a2 as int, b2 as int, bound);
    MulBound(a3 as int, b3 as int, bound);
    MulBound(a4 as int, b4 as int, bound);
    a0 as uint64 * b0 as uint64 + a1 as uint64 * b1 as uint64 + a2 as uint64 * b2 as uint64
    + a3 as uint64 * b3 as uint64 + a4 as uint64 * b4 as uint64
  }

  lemma MulBound(a: int, b: int, bound: int)
    requires 0 <= a <= 0x800_0040 && 0 <= b <= bound
    ensures 0 <= a * b <= 0x800_0040 * bound
  {
    MulMono(a, 0x800_0040, b);
  }

  /** One pass of carries after a multiplication: the value is unchanged
      modulo 2^130 - 5 and the limbs are short again. */
  method CarryAfterMul(e0: uint64, e1: uint64, e2: uint64, e3: uint64, e4: uint64)
    returns (h0: uint32, h1: uint32, h2: uint32, h3: uint32, h4: uint32)
    requires e0 as int <= 5 * (0x800_0040 * 0x1400_0000) && e1 as int <= 5 * (0x800_0040 * 0x1400_0000)
    requires e2 as int <= 5 * (0x800_0040 * 0x1400_0000) && e3 as int <= 5 * (0x800_0040 * 0x1400_0000)
    requires e4 as int <= 5 * (0x800_0040 * 0x400_0000)
    ensures h0 < 0x400_0000 && h1 < 0x400_0040 && h2 < 0x400_0000 && h3 < 0x400_0000 && h4 < 0x400_0000
    ensures Cong(Radix26(h0 as int, h1 as int, h2 as int, h3 as int, h4 as int),
                 Radix26(e0 as int, e1 as int, e2 as int, e3 as int, e4 as int), P1305)
  {
    var d1, d2, d3, d4 := e1, e2, e3, e4;
    var c := (e0 / 0x400_0000) as uint32;
    h0 := (e0 % 0x400_0000) as uint32;
    d1 := d1 + c as uint64;
    c := (d1 / 0x400_0000) as uint32;
    h1 := (d1 % 0x400_0000) as uint32;
    d2 := d2 + c as uint64;
    c := (d2 / 0x400_0000) as uint32;
    h2 := (d2 % 0x400_0000) as uint32;
    d3 := d3 + c as uint64;
    c := (d3 / 0x400_0000) as uint32;
    h3 := (d3 % 0x400_0000) as uint32;
    d4 := d4 + c as uint64;
    c := (d4 / 0x400_0000) as uint32;
    h4 := (d4 % 0x400_0000) as uint32;
    ghost var top := c as int;
    h0 := h0 + c * 5;
    c := h0 / 0x400_0000;
    h0 := h0 % 0x400_0000;
    h1 := h1 + c;
    CongIntro(Radix26(h0 as int, h1 as int, h2 as int, h3 as int, h4 as int),
              Radix26(e0 as int, e1 as int, e2 as int, e3 as int, e4 as int), P1305, -top);
  }

  /** The 26-bit limbs of the 128-bit number with words t0..t3, the shifted
      halves having no bit in common. */
  function LimbA(t0: uint32): uint32 { t0 % 0x400_0000 }
  function LimbB(t0: uint32, t1: uint32): uint32 { t0 / 0x400_0000 + Shl32(t1, 0x40) }
  function LimbC(t1: uint32, t2: uint32): uint32 { t1 / 0x10_0000 + Shl32(t2, 0x1000) }
  function LimbD(t2: uint32, t3: uint32): uint32 { t2 / 0x4000 + Shl32(t3, 0x4_0000) }
  function LimbE(t3: uint32): uint32 { t3 / 0x100 }

  function Words4(t0: int, t1: int, t2: int, t3: int): int {
    t0 + 0x1_0000_0000 * t1 + 0x1_0000_0000_0000_0000 * t2 + 0x1_0000_0000_0000_0000_0000_0000 * t3
  }

  lemma LimbBValue(t0: uint32, t1: uint32)
    ensures (LimbB(t0, t1) % 0x400_0000) as int == t0 as int / 0x400_0000 + 0x40 * (t1 as int % 0x10_0000)
    ensures LimbB(t0, t1) as int == t0 as int / 0x400_0000 + 0x40 * (t1 as int % 0x400_0000)
  {
    assert t1 as int * 0x40 == t1 as int / 0x400_0000 * 0x1_0000_0000 + t1 as int % 0x400_0000 * 0x40;
    DivModUnique(t1 as int * 0x40, 0x1_0000_0000, t1 as int / 0x400_0000, t1 as int % 0x400_0000 * 0x40);
    DivDiv(t1 as int, 0x10_0000, 0x40, 0x400_0000);
    DivModUnique(LimbB(t0, t1) as int, 0x400_0000, t1 as int / 0x10_0000 % 0x40,
                 t0 as int / 0x400_0000 + 0x40 * (t1 as int % 0x10_0000));
  }

  lemma LimbCValue(t1: uint32, t2: uint32)
    ensures (LimbC(t1, t2) % 0x400_0000) as int == t1 as int / 0x10_0000 + 0x1000 * (t2 as int % 0x4000)
    ensures LimbC(t1, t2) as int == t1 as int / 0x10_0000 + 0x1000 * (t2 as int % 0x10_0000)
  {
    assert t2 as int * 0x1000 == t2 as int / 0x10_0000 * 0x1_0000_0000 + t2 as int % 0x10_0000 * 0x1000;
    DivModUnique(t2 as int * 0x1000, 0x1_0000_0000, t2 as int / 0x10_0000, t2 as int % 0x10_0000 * 0x1000);
    DivDiv(t2 as int, 0x4000, 0x40, 0x10_0000);
    DivModUnique(LimbC(t1, t2) as int, 0x400_0000, t2 as int / 0x4000 % 0x40,
                 t1 as int / 0x10_0000 + 0x1000 * (t2 as int % 0x4000));
  }

  lemma LimbDValue(t2: uint32, t3: uint32)
    ensures (LimbD(t2, t3) % 0x400_0000) as int == t2 as int / 0x4000 + 0x4_0000 * (t3 as int % 0x100)
    ensures LimbD(t2, t3) as int == t2 as int / 0x4000 + 0x4_0000 * (t3 as int % 0x4000)
  {
    assert t3 as int * 0x4_0000 == t3 as int / 0x4000 * 0x1_0000_0000 + t3 as int % 0x4000 * 0x4_0000;
    DivModUnique(t3 as int * 0x4_0000, 0x1_0000_0000, t3 as int / 0x4000, t3 as int % 0x4000 * 0x4_0000);
    DivDiv(t3 as int, 0x100, 0x40, 0x4000);
    DivModUnique(LimbD(t2, t3) as int, 0x400_0000, t3 as int / 0x100 % 0x40,
                 t2 as int / 0x4000 + 0x4_0000 * (t3 as int % 0x100));
  }

  lemma SplitIntoLimbs(t0: uint32, t1: uint32, t2: uint32, t3: uint32)
    ensures Radix26(LimbA(t0) as int, (LimbB(t0, t1) % 0x400_0000) as int, (LimbC(t1, t2) % 0x400_0000) as int,
                    (LimbD(t2, t3) % 0x400_0000) as int, LimbE(t3) as int)
            == Words4(t0 as int, t1 as int, t2 as int, t3 as int)
  {
    LimbBValue(t0, t1);
    LimbCValue(t1, t2);
    LimbDValue(t2, t3);
  }

  /** Adding a block's limbs and high bit to the accumulator's. */
  lemma AddedBlock(h0: uint32, h1: uint32, h2: uint32, h3: uint32, h4: uint32, block: seq<uint8>, hibit: uint32,
                   t0: uint32, t1: uint32, t2: uint32, t3: uint32)
    requires |block| == 16
    requires t0 == Load32(block, 0) && t1 == Load32(block, 4) && t2 == Load32(block, 8) && t3 == Load32(block, 12)
    ensures Radix26(h0 as int + LimbA(t0) as int, h1 as int + (LimbB(t0, t1) % 0x400_0000) as int,
                    h2 as int + (LimbC(t1, t2) % 0x400_0000) as int, h3 as int + (LimbD(t2, t3) % 0x400_0000) as int,
                    h4 as int + LimbE(t3) as int + hibit as int)
            == Radix26(h0 as int, h1 as int, h2 as int, h3 as int, h4 as int)
               + LeValue(block) + hibit as int * 0x100_0000_0000_0000_0000_0000_0000
  {
    LeValue16(block);
    SplitIntoLimbs(t0, t1, t2, t3);
  }

  /** `x & 0x3ffff03`, `x & 0x3ffc0ff` and `x & 0x3f03fff`. */
  function MaskB(x: uint32): uint32 { x % 4 + x / 0x100 % 0x4_0000 * 0x100 }
  function MaskC(x: uint32): uint32 { x % 0x100 + x / 0x4000 % 0x1000 * 0x4000 }
  function MaskD(x: uint32): uint32 { x % 0x4000 + x / 0x10_0000 % 0x40 * 0x10_0000 }

  lemma MaskBValue(b: int, u: int, x: uint32)
    requires 0 <= b < 0x40 && 0 <= u && x as int == b + 0x40 * u
    ensures MaskB(x) as int == b % 4 + u / 4 % 0x4_0000 * 0x100
  {
    DivModUnique(x as int, 4, b / 4 + 0x10 * u, b % 4);
    DivModUnique(x as int, 0x100, u / 4, b + 0x40 * (u % 4));
  }

  lemma MaskCValue(b: int, u: int, x: uint32)
    requires 0 <= b < 0x1000 && 0 <= u && x as int == b + 0x1000 * u
    ensures MaskC(x) as int == b % 0x100 + u / 4 % 0x1000 * 0x4000
  {
    DivModUnique(x as int, 0x100, b / 0x100 + 0x10 * u, b % 0x100);
    DivModUnique(x as int, 0x4000, u / 4, b + 0x1000 * (u % 4));
  }

  lemma MaskDValue(b: int, u: int, x: uint32)
    requires 0 <= b < 0x4_0000 && 0 <= u && x as int == b + 0x4_0000 * u
    ensures MaskD(x) as int == b % 0x4000 + u / 4 % 0x40 * 0x10_0000
  {
    DivModUnique(x as int, 0x4000, b / 0x4000 + 0x10 * u, b % 0x4000);
    DivModUnique(x as int, 0x10_0000, u / 4, b + 0x4_0000 * (u % 4));
  }

  /** A word of r with the bits cleared that clamping clears. */
  function ClampLow(t: uint32): uint32 { t % 0x1000_0000 }
  function ClampWord(t: uint32): uint32 { t % 0x1000_0000 / 4 * 4 }

  /** Bits 2.. of a clamped word, cut at bit 2 + k. */
  lemma ClampSplit(t: int, f: int, g: int, h: int)
    requires t >= 0 && f > 0 && g > 0 && f * g == 0x400_0000 && h == 4 * f
    ensures t % 0x1000_0000 / 4 * 4 == 4 * (t / 4 % f) + h * (t / h % g)
  {
    DivDiv(t, 4, 0x400_0000, 0x1000_0000);
    assert t % 0x1000_0000 == 4 * (t / 4 % 0x400_0000) + t % 4;
    DivDiv(t / 4, f, g, 0x400_0000);
    DivDiv(t, 4, f, h);
    assert f * (t / h % g) * 4 == h * (t / h % g);
  }

  lemma LowBits(t: int, f: int, g: int, h: int)
    requires t >= 0 && f > 0 && g > 0 && h == f * g && h > 0
    ensures t % (4 * h) / 4 % f == t / 4 % f
  {
    DivDiv(t, 4, h, 4 * h);
    assert t % (4 * h) == 4 * (t / 4 % h) + t % 4;
    DivModUnique(t % (4 * h), 4, t / 4 % h, t % 4);
    DivDiv(t / 4, f, g, h);
    DivModUnique(t / 4 % h, f, t / 4 / f % g, t / 4 % f);
  }

  lemma MaskedB(t0: uint32, t1: uint32)
    ensures MaskB(LimbB(t0, t1)) as int == t0 as int / 0x400_0000 % 4 + t1 as int / 4 % 0x4_0000 * 0x100
  {
    LimbBValue(t0, t1);
    MaskBValue(t0 as int / 0x400_0000, t1 as int % 0x400_0000, LimbB(t0, t1));
    LowBits(t1 as int, 0x4_0000, 0x40, 0x100_0000);
  }

  lemma MaskedC(t1: uint32, t2: uint32)
    ensures MaskC(LimbC(t1, t2)) as int == t1 as int / 0x10_0000 % 0x100 + t2 as int / 4 % 0x1000 * 0x4000
  {
    LimbCValue(t1, t2);
    MaskCValue(t1 as int / 0x10_0000, t2 as int % 0x10_0000, LimbC(t1, t2));
    LowBits(t2 as int, 0x1000, 0x40, 0x4_0000);
  }

  lemma MaskedD(t2: uint32, t3: uint32)
    ensures MaskD(LimbD(t2, t3)) as int == t2 as int / 0x4000 % 0x4000 + t3 as int / 4 % 0x40 * 0x10_0000
  {
    LimbDValue(t2, t3);
    MaskDValue(t2 as int / 0x4000, t3 as int % 0x4000, LimbD(t2, t3));
    LowBits(t3 as int, 0x40, 0x40, 0x1000);
  }

  /** Masking the limbs of r is clamping its words. */
  lemma MaskedLimbs(t0: uint32, t1: uint32, t2: uint32, t3: uint32)
    ensures Radix26(LimbA(t0) as int, MaskB(LimbB(t0, t1)) as int, MaskC(LimbC(t1, t2)) as int,
                    MaskD(LimbD(t2, t3)) as int, (LimbE(t3) % 0x10_0000) as int)
            == Words4(ClampLow(t0) as int, ClampWord(t1) as int, ClampWord(t2) as int, ClampWord(t3) as int)
  {
    MaskedB(t0, t1);
    MaskedC(t1, t2);
    MaskedD(t2, t3);
    MaskedParts(t0 as int, t1 as int, t2 as int, t3 as int);
  }

  lemma MaskedParts(t0: int, t1: int, t2: int, t3: int)
    requires 0 <= t0 < 0x1_0000_0000 && 0 <= t1 < 0x1_0000_0000 && 0 <= t2 < 0x1_0000_0000 && 0 <= t3 < 0x1_0000_0000
    ensures Radix26(t0 % 0x400_0000, t0 / 0x400_0000 % 4 + t1 / 4 % 0x4_0000 * 0x100,
                    t1 / 0x10_0000 % 0x100 + t2 / 4 % 0x1000 * 0x4000,
                    t2 / 0x4000 % 0x4000 + t3 / 4 % 0x40 * 0x10_0000, t3 / 0x100 % 0x10_0000)
            == Words4(t0 % 0x1000_0000, t1 % 0x1000_0000 / 4 * 4, t2 % 0x1000_0000 / 4 * 4, t3 % 0x1000_0000 / 4 * 4)
  {
    DivDiv(t0, 0x400_0000, 4, 0x1000_0000);
    ClampSplit(t1, 0x4_0000, 0x100, 0x10_0000);
    ClampSplit(t2, 0x1000, 0x4000, 0x4000);
    ClampSplit(t3, 0x40, 0x10_0000, 0x100);
  }

  lemma ClampBytes(b0: int, b1: int, b2: int, b3: int)
    requires 0 <= b0 < 0x100 && 0 <= b1 < 0x100 && 0 <= b2 < 0x100 && 0 <= b3 < 0x100
    ensures var t := b0 + 0x100 * b1 + 0x1_0000 * b2 + 0x100_0000 * b3;
            var u := b0 + 0x100 * b1 + 0x1_0000 * b2 + 0x100_0000 * (b3 % 16);
            t % 0x1000_0000 == u && u / 4 * 4 == u - b0 + b0 / 4 * 4
  {
    var t := b0 + 0x100 * b1 + 0x1_0000 * b2 + 0x100_0000 * b3;
    var u := b0 + 0x100 * b1 + 0x1_0000 * b2 + 0x100_0000 * (b3 % 16);
    DivModUnique(t, 0x1000_0000, b3 / 16, u);
    DivModUnique(u, 4, b0 / 4 + 0x40 * b1 + 0x4000 * b2 + 0x40_0000 * (b3 % 16), b0 % 4);
  }

  /** The words of r after clamping its bytes. */
  lemma ClampedWord(key: seq<uint8>, off: nat)
    requires |key| == 16 && off % 4 == 0 && off < 16
    ensures Load32(Clamp(key), off) == if off == 0 then ClampLow(Load32(key, off)) else ClampWord(Load32(key, off))
  {
    ClampBytes(key[off] as int, key[off + 1] as int, key[off + 2] as int, key[off + 3] as int);
    assert (off + 1) % 4 == 1 && (off + 2) % 4 == 2 && (off + 3) % 4 == 3;
  }

  /** The first pass of `finish`: after it every limb is below 2^26. */
  method CarryBeforeSelect(a0: uint32, a1: uint32, a2: uint32, a3: uint32, a4: uint32)
    returns (h0: uint32, h1: uint32, h2: uint32, h3: uint32, h4: uint32)
    requires a0 < 0x400_0000 && a1 < 0x400_0040 && a2 < 0x400_0000 && a3 < 0x400_0000 && a4 < 0x400_0000
    ensures h0 < 0x400_0000 && h1 < 0x400_0000 && h2 < 0x400_0000 && h3 < 0x400_0000 && h4 < 0x400_0000
    ensures Cong(Radix26(h0 as int, h1 as int, h2 as int, h3 as int, h4 as int),
                 Radix26(a0 as int, a1 as int, a2 as int, a3 as int, a4 as int), P1305)
  {
    hide Radix26, Cong;
    h0, h1, h2, h3, h4 := a0, a1, a2, a3, a4;
    var c := h1 / 0x400_0000;
    h1 := h1 % 0x400_0000;
    h2 := h2 + c;
    ghost var c1 := c as int;
    c := h2 / 0x400_0000;
    h2 := h2 % 0x400_0000;
    h3 := h3 + c;
    ghost var c2 := c as int;
    c := h3 / 0x400_0000;
    h3 := h3 % 0x400_0000;
    h4 := h4 + c;
    ghost var c3 := c as int;
    c := h4 / 0x400_0000;
    h4 := h4 % 0x400_0000;
    ghost var top := c as int;
    h0 := h0 + c * 5;
    c := h0 / 0x400_0000;
    h0 := h0 % 0x400_0000;
    h1 := h1 + c;
    CarriedAround(a0 as int, a1 as int, a2 as int, a3 as int, a4 as int,
                  h0 as int, h1 as int, h2 as int, h3 as int, h4 as int, c1, c2, c3, top, c as int);
  }

  /** What carries move from limb to limb leaves the residue alone. */
  lemma CarriedAround(a0: int, a1: int, a2: int, a3: int, a4: int, h0: int, h1: int, h2: int, h3: int, h4: int,
                      c1: int, c2: int, c3: int, c4: int, c0: int)
    requires h2 == a2 + c1 - 0x400_0000 * c2 && h3 == a3 + c2 - 0x400_0000 * c3 && h4 == a4 + c3 - 0x400_0000 * c4
    requires h0 == a0 + 5 * c4 - 0x400_0000 * c0 && h1 == a1 - 0x400_0000 * c1 + c0
    ensures Cong(Radix26(h0, h1, h2, h3, h4), Radix26(a0, a1, a2, a3, a4), P1305)
  {
    CongIntro(Radix26(h0, h1, h2, h3, h4), Radix26(a0, a1, a2, a3, a4), P1305, -c4);
  }

  /** `x & mask` for the two masks `finish` makes. */
  function AndMask(x: uint32, mask: uint32): uint32
    requires mask == 0 || mask == 0xffff_ffff
  {
    if mask == 0 then 0 else x
  }

  /** Adds 5 and keeps the sum less 2^130 exactly when it is not negative: the
      one residue below 2^130 - 5. */
  method SelectResidue(a0: uint32, a1: uint32, a2: uint32, a3: uint32, a4: uint32)
    returns (h0: uint32, h1: uint32, h2: uint32, h3: uint32, h4: uint32)
    requires a0 < 0x400_0000 && a1 < 0x400_0000 && a2 < 0x400_0000 && a3 < 0x400_0000 && a4 < 0x400_0000
    ensures h0 < 0x400_0000 && h1 < 0x400_0000 && h2 < 0x400_0000 && h3 < 0x400_0000 && h4 < 0x400_0000
    ensures Radix26(h0 as int, h1 as int, h2 as int, h3 as int, h4 as int)
            == Radix26(a0 as int, a1 as int, a2 as int, a3 as int, a4 as int) % P1305
  {
    hide Radix26;
    h0, h1, h2, h3, h4 := a0, a1, a2, a3, a4;
    var g0 := h0 + 5;
    var c := g0 / 0x400_0000;
    g0 := g0 % 0x400_0000;
    ghost var c0 := c as int;
    var g1 := h1 + c;
    c := g1 / 0x400_0000;
    g1 := g1 % 0x400_0000;
    ghost var c1 := c as int;
    var g2 := h2 + c;
    c := g2 / 0x400_0000;
    g2 := g2 % 0x400_0000;
    ghost var c2 := c as int;
    var g3 := h3 + c;
    c := g3 / 0x400_0000;
    g3 := g3 % 0x400_0000;
    // h4 + c - 2^26 on 32 bits: a borrow shows in the top bit
    var g4 := ((h4 as int + c as int + 0x1_0000_0000 - 0x400_0000) % 0x1_0000_0000) as uint32;
    ghost var carried := c as int;
    PlusFive(a0 as int, a1 as int, a2 as int, a3 as int, a4 as int,
             g0 as int, g1 as int, g2 as int, g3 as int, c0, c1, c2, carried);

    // (g4 >> 31) - 1 on 32 bits
    var mask: uint32 := ((g4 as int / 0x8000_0000 + 0xffff_ffff) % 0x1_0000_0000) as uint32;
    assert mask == if h4 as int + carried >= 0x400_0000 then 0xffff_ffff else 0;
    g0 := AndMask(g0, mask);
    g1 := AndMask(g1, mask);
    g2 := AndMask(g2, mask);
    g3 := AndMask(g3, mask);
    g4 := AndMask(g4, mask);
    mask := 0xffff_ffff - mask;
    h0 := AndMask(h0, mask) + g0;
    h1 := AndMask(h1, mask) + g1;
    h2 := AndMask(h2, mask) + g2;
    h3 := AndMask(h3, mask) + g3;
    h4 := AndMask(h4, mask) + g4;
  }

  /** The limbs with 5 added and carried: what they reach beyond 2^130 is the
      residue, and if they do not reach it the number is its own residue. */
  lemma PlusFive(a0: int, a1: int, a2: int, a3: int, a4: int, g0: int, g1: int, g2: int, g3: int,
                 c0: int, c1: int, c2: int, c3: int)
    requires 0 <= a0 < 0x400_0000 && 0 <= a1 < 0x400_0000 && 0 <= a2 < 0x400_0000 && 0 <= a3 < 0x400_0000
             && 0 <= a4 < 0x400_0000
    requires 0 <= g0 < 0x400_0000 && 0 <= g1 < 0x400_0000 && 0 <= g2 < 0x400_0000 && 0 <= g3 < 0x400_0000
    requires a0 + 5 == g0 + 0x400_0000 * c0 && a1 + c0 == g1 + 0x400_0000 * c1
    requires a2 + c1 == g2 + 0x400_0000 * c2 && a3 + c2 == g3 + 0x400_0000 * c3
    ensures Radix26(a0, a1, a2, a3, a4) % P1305
            == if a4 + c3 >= 0x400_0000 then Radix26(g0, g1, g2, g3, a4 + c3 - 0x400_0000)
               else Radix26(a0, a1, a2, a3, a4)
  {
    var v := Radix26(a0, a1, a2, a3, a4);
    assert Radix26(g0, g1, g2, g3, a4 + c3) == v + 5;
    if a4 + c3 >= 0x400_0000 {
      DivModUnique(v, P1305, 1, Radix26(g0, g1, g2, g3, a4 + c3 - 0x400_0000));
    } else {
      DivModUnique(v, P1305, 0, v);
    }
  }

  /** Packs five limbs into four words, dropping what lies beyond 2^128. */
  method Pack(n0: uint32, n1: uint32, n2: uint32, n3: uint32, n4: uint32)
    returns (h0: uint32, h1: uint32, h2: uint32, h3: uint32)
    requires n0 < 0x400_0000 && n1 < 0x400_0000 && n2 < 0x400_0000 && n3 < 0x400_0000 && n4 < 0x400_0000
    ensures Words4(h0 as int, h1 as int, h2 as int, h3 as int)
            == Radix26(n0 as int, n1 as int, n2 as int, n3 as int,
                       n4 as int) % 0x1_0000_0000_0000_0000_0000_0000_0000_0000
  {
    ShlTop(n1, 0x400_0000, 0x40);
    ShlTop(n2, 0x10_0000, 0x1000);
    ShlTop(n3, 0x4000, 0x4_0000);
    ShlTop(n4, 0x100, 0x100_0000);
    h0 := n0 + Shl32(n1, 0x400_0000);
    h1 := n1 / 0x40 + Shl32(n2, 0x10_0000);
    h2 := n2 / 0x1000 + Shl32(n3, 0x4000);
    h3 := n3 / 0x4_0000 + Shl32(n4, 0x100);
    DivModUnique(Radix26(n0 as int, n1 as int, n2 as int, n3 as int, n4 as int),
                 0x1_0000_0000_0000_0000_0000_0000_0000_0000,
                 (n4 / 0x100_0000) as int, Words4(h0 as int, h1 as int, h2 as int, h3 as int));
  }

  /** Shifting by f keeps the low 2^32 / f. */
  lemma ShlTop(x: uint32, f: int, g: int)
    requires f > 0 && g > 0 && f * g == 0x1_0000_0000
    ensures Shl32(x, f) as int == f * (x as int % g)
  {
    var q, r := x as int / g, x as int % g;
    assert x as int == g * q + r;
    assert x as int * f == q * (f * g) + f * r;
    MulMono(r, g - 1, f);
    MulMono(0, r, f);
    DivModUnique(x as int * f, 0x1_0000_0000, q, f * r);
  }

  /** Adds two 128-bit numbers word by word, dropping the last carry. */
  method AddWords(h0: uint32, h1: uint32, h2: uint32, h3: uint32, p0: uint32, p1: uint32, p2: uint32, p3: uint32)
    returns (s0: uint32, s1: uint32, s2: uint32, s3: uint32)
    ensures Words4(s0 as int, s1 as int, s2 as int, s3 as int)
            == (Words4(h0 as int, h1 as int, h2 as int, h3 as int) + Words4(p0 as int, p1 as int, p2 as int, p3 as int))
               % 0x1_0000_0000_0000_0000_0000_0000_0000_0000
  {
    var f: uint64 := h0 as uint64 + p0 as uint64;
    s0 := (f % 0x1_0000_0000) as uint32;
    ghost var c0 := (f / 0x1_0000_0000) as int;
    f := h1 as uint64 + p1 as uint64 + f / 0x1_0000_0000;
    s1 := (f % 0x1_0000_0000) as uint32;
    ghost var c1 := (f / 0x1_0000_0000) as int;
    f := h2 as uint64 + p2 as uint64 + f / 0x1_0000_0000;
    s2 := (f % 0x1_0000_0000) as uint32;
    ghost var c2 := (f / 0x1_0000_0000) as int;
    f := h3 as uint64 + p3 as uint64 + f / 0x1_0000_0000;
    s3 := (f % 0x1_0000_0000) as uint32;
    AddWordsValue(h0 as int + p0 as int, h1 as int + p1 as int, h2 as int + p2 as int, h3 as int + p3 as int,
                  s0, s1, s2, s3, c0, c1, c2, (f / 0x1_0000_0000) as int);
  }

  lemma AddWordsValue(a0: int, a1: int, a2: int, a3: int, s0: uint32, s1: uint32, s2: uint32, s3: uint32,
                      c0: int, c1: int, c2: int, c3: int)
    requires a0 == s0 as int + 0x1_0000_0000 * c0 && a1 + c0 == s1 as int + 0x1_0000_0000 * c1
    requires a2 + c1 == s2 as int + 0x1_0000_0000 * c2 && a3 + c2 == s3 as int + 0x1_0000_0000 * c3
    ensures Words4(s0 as int, s1 as int, s2 as int, s3 as int)
            == Words4(a0, a1, a2, a3) % 0x1_0000_0000_0000_0000_0000_0000_0000_0000
  {
    DivModUnique(Words4(a0, a1, a2, a3), 0x1_0000_0000_0000_0000_0000_0000_0000_0000, c3,
                 Words4(s0 as int, s1 as int, s2 as int, s3 as int));
  }

  /** All of `finish` but the stores. */
  method FinishWords(a0: uint32, a1: uint32, a2: uint32, a3: uint32, a4: uint32,
                     p0: uint32, p1: uint32, p2: uint32, p3: uint32)
    returns (h0: uint32, h1: uint32, h2: uint32, h3: uint32)
    requires a0 < 0x400_0000 && a1 < 0x400_0040 && a2 < 0x400_0000 && a3 < 0x400_0000 && a4 < 0x400_0000
    ensures Words4(h0 as int, h1 as int, h2 as int, h3 as int)
            == (Radix26(a0 as int, a1 as int, a2 as int, a3 as int, a4 as int) % P1305
                + Words4(p0 as int, p1 as int, p2 as int, p3 as int)) % 0x1_0000_0000_0000_0000_0000_0000_0000_0000
  {
    hide Radix26, Words4;
    var n0, n1, n2, n3, n4 := CarryBeforeSelect(a0, a1, a2, a3, a4);
    n0, n1, n2, n3, n4 := SelectResidue(n0, n1, n2, n3, n4);
    h0, h1, h2, h3 := Pack(n0, n1, n2, n3, n4);
    h0, h1, h2, h3 := AddWords(h0, h1, h2, h3, p0, p1, p2, p3);
    TagValue(Radix26(a0 as int, a1 as int, a2 as int, a3 as int, a4 as int) % P1305,
             Words4(p0 as int, p1 as int, p2 as int, p3 as int), Words4(h0 as int, h1 as int, h2 as int, h3 as int));
  }

  lemma TagValue(n: int, s: int, w: int)
    requires w == (n % 0x1_0000_0000_0000_0000_0000_0000_0000_0000 + s) % 0x1_0000_0000_0000_0000_0000_0000_0000_0000
    ensures w == (n + s) % 0x1_0000_0000_0000_0000_0000_0000_0000_0000
  {}

  /** The clamped limbs of r. */
  method KeyLimbs(key: seq<uint8>) returns (r0: uint32, r1: uint32, r2: uint32, r3: uint32, r4: uint32)
    requires |key| == 32
    ensures r0 < 0x400_0000 && r1 < 0x400_0000 && r2 < 0x400_0000 && r3 < 0x400_0000 && r4 < 0x400_0000
    ensures Radix26(r0 as int, r1 as int, r2 as int, r3 as int, r4 as int) == LeValue(Clamp(key[..16]))
    ensures Words4(Load32(key, 16) as int, Load32(key, 20) as int, Load32(key, 24) as int, Load32(key, 28) as int)
            == LeValue(key[16..])
  {
    hide Radix26, Words4, LimbB, LimbC, LimbD, Load32, LeValue, Clamp;
    var t0, t1, t2, t3 := Load32(key, 0), Load32(key, 4), Load32(key, 8), Load32(key, 12);
    r0 := LimbA(t0);
    r1 := MaskB(LimbB(t0, t1));
    r2 := MaskC(LimbC(t1, t2));
    r3 := MaskD(LimbD(t2, t3));
    r4 := LimbE(t3) % 0x10_0000;
    KeyValue(key, t0, t1, t2, t3);
  }

  /** A block added to limbs within their bounds, without a wrap. */
  method AddLimbs(h0: uint32, h1: uint32, h2: uint32, h3: uint32, h4: uint32, block: seq<uint8>, hibit: uint32)
    returns (n0: uint32, n1: uint32, n2: uint32, n3: uint32, n4: uint32)
    requires |block| == 16 && hibit <= 0x100_0000
    requires h0 < 0x400_0000 && h1 < 0x400_0040 && h2 < 0x400_0000 && h3 < 0x400_0000 && h4 < 0x400_0000
    ensures n0 <= 0x800_0040 && n1 <= 0x800_0040 && n2 <= 0x800_0040 && n3 <= 0x800_0040 && n4 <= 0x800_0040
    ensures Radix26(n0 as int, n1 as int, n2 as int, n3 as int, n4 as int)
            == Radix26(h0 as int, h1 as int, h2 as int, h3 as int, h4 as int)
               + LeValue(block) + hibit as int * 0x100_0000_0000_0000_0000_0000_0000
  {
    hide Radix26, LeValue, Load32, LimbB, LimbC, LimbD;
    var t0, t1, t2, t3 := Load32(block, 0), Load32(block, 4), Load32(block, 8), Load32(block, 12);
    n0 := h0 + LimbA(t0);
    n1 := h1 + LimbB(t0, t1) % 0x400_0000;
    n2 := h2 + LimbC(t1, t2) % 0x400_0000;
    n3 := h3 + LimbD(t2, t3) % 0x400_0000;
    n4 := h4 + (LimbE(t3) + hibit);
    AddedBlock(h0, h1, h2, h3, h4, block, hibit, t0, t1, t2, t3);
  }

  /** The authenticator's state: r, the accumulator h and the final addend. */
  class State {
    const r: array<uint32>
    const h: array<uint32>
    const pad: array<uint32>

    ghost predicate Valid()
      reads this, r, h, pad
    {
      && r.Length == 5 && h.Length == 5 && pad.Length == 4
      && r != h && r != pad && h != pad
      && r[0] < 0x400_0000 && r[1] < 0x400_0000 && r[2] < 0x400_0000 && r[3] < 0x400_0000 && r[4] < 0x400_0000
      && h[0] < 0x400_0000 && h[1] < 0x400_0040 && h[2] < 0x400_0000 && h[3] < 0x400_0000 && h[4] < 0x400_0000
    }

    ghost function R(): int
      reads this, r, h, pad
      requires Valid()
    {
      Value5(r[..])
    }

    ghost function Acc(): int
      reads this, r, h, pad
      requires Valid()
    {
      Value5(h[..])
    }

    ghost function S(): int
      reads this, r, h, pad
      requires Valid()
    {
      Words4(pad[0] as int, pad[1] as int, pad[2] as int, pad[3] as int)
    }

    constructor (key: seq<uint8>)
      requires |key| == 32
      ensures Valid() && fresh(r) && fresh(h) && fresh(pad)
      ensures R() == LeValue(Clamp(key[..16])) && Acc() == 0 && S() == LeValue(key[16..])
    {
      r, h, pad := new uint32[5], new uint32[5], new uint32[4];
      new;
      hide Words4, Load32, LeValue, Clamp;
      var r0, r1, r2, r3, r4 := KeyLimbs(key);
      r[0], r[1], r[2], r[3], r[4] := r0, r1, r2, r3, r4;
      h[0], h[1], h[2], h[3], h[4] := 0, 0, 0, 0, 0;
      pad[0], pad[1], pad[2], pad[3] := Load32(key, 16), Load32(key, 20), Load32(key, 24), Load32(key, 28);
    }

    /** h becomes (h + block + hibit * 2^104) * r, modulo 2^130 - 5. */
    method Block(block: seq<uint8>, hibit: uint32)
      requires Valid() && |block| == 16
      requires hibit == 0 || hibit == 0x100_0000
      modifies h
      ensures Valid() && R() == old(R()) && S() == old(S())
      ensures Cong(Acc(), (old(Acc()) + LeValue(block) + hibit as int * 0x100_0000_0000_0000_0000_0000_0000) * R(),
                   P1305)
    {
      hide Radix26, LeValue, Clamp, Words4;
      var r0, r1, r2, r3, r4 := r[0], r[1], r[2], r[3], r[4];
      var s1, s2, s3, s4 := r1 * 5, r2 * 5, r3 * 5, r4 * 5;
      var h0, h1, h2, h3, h4 := AddLimbs(h[0], h[1], h[2], h[3], h[4], block, hibit);
      h0, h1, h2, h3, h4 := MulReduce(h0, h1, h2, h3, h4, r0, r1, r2, r3, r4, s1, s2, s3, s4);
      h[0], h[1], h[2], h[3], h[4] := h0, h1, h2, h3, h4;
    }

    /** A whole message: full blocks with the high bit, then the rest with a
        one byte behind it and zeros. */
    method Update(message: seq<uint8>)
      requires Valid() && Acc() == 0
      modifies h
      ensures Valid() && R() == old(R()) && S() == old(S())
      ensures Cong(Acc(), Accumulate(0, R(), Blocks(message)), P1305)
    {
      hide Radix26, Value5, Words4, LeValue, Clamp, Pow, BlockNumber, Next;
      var rest := message;
      ghost var acc := 0;
      while |rest| >= 16
        invariant Valid() && R() == old(R()) && S() == old(S())
        invariant Cong(Acc(), acc, P1305)
        invariant Accumulate(acc, R(), Blocks(rest)) == Accumulate(0, R(), Blocks(message))
        decreases |rest|
      {
        ghost var x := Acc();
        Block(rest[..16], 0x100_0000);
        FullBlock(rest[..16]);
        BlocksStep(rest);
        NextCong(x, acc, R(), rest[..16], Acc());
        acc := Next(acc, R(), rest[..16]);
        rest := rest[16..];
      }
      if |rest| > 0 {
        var block := new uint8[16](_ => 0);
        forall i | 0 <= i < |rest| {
          block[i] := rest[i];
        }
        block[|rest|] := 1;
        ghost var x := Acc();
        PaddedBlock(block[..], rest);
        Block(block[..], 0);
        NextCong(x, acc, R(), rest, Acc());
      }
    }

    /** The tag: the residue of the accumulator plus the addend, modulo 2^128. */
    method Finish(tag: array<uint8>)
      requires Valid() && tag.Length == 16
      modifies tag
      ensures LeValue(tag[..]) == (Acc() % P1305 + S()) % 0x1_0000_0000_0000_0000_0000_0000_0000_0000
    {
      var h0, h1, h2, h3 := FinishWords(h[0], h[1], h[2], h[3], h[4], pad[0], pad[1], pad[2], pad[3]);
      StoreTag(tag, h0, h1, h2, h3);
    }
  }

  lemma ClampedValue(k: seq<uint8>)
    requires |k| == 16
    ensures LeValue(Clamp(k)) == Words4(ClampLow(Load32(k, 0)) as int, ClampWord(Load32(k, 4)) as int,
                                        ClampWord(Load32(k, 8)) as int, ClampWord(Load32(k, 12)) as int)
  {
    ClampedWord(k, 0);
    ClampedWord(k, 4);
    ClampedWord(k, 8);
    ClampedWord(k, 12);
    LeValue16(Clamp(k));
  }

  lemma LoadSlice(b: seq<uint8>, from: nat, to: nat, off: nat)
    requires from <= to <= |b| && off + 4 <= to - from
    ensures Load32(b[from..to], off) == Load32(b, from + off)
  {}

  lemma KeyValue(key: seq<uint8>, t0: uint32, t1: uint32, t2: uint32, t3: uint32)
    requires |key| == 32
    requires t0 == Load32(key, 0) && t1 == Load32(key, 4) && t2 == Load32(key, 8) && t3 == Load32(key, 12)
    ensures Radix26(LimbA(t0) as int, MaskB(LimbB(t0, t1)) as int, MaskC(LimbC(t1, t2)) as int,
                    MaskD(LimbD(t2, t3)) as int, (LimbE(t3) % 0x10_0000) as int) == LeValue(Clamp(key[..16]))
    ensures Words4(Load32(key, 16) as int, Load32(key, 20) as int, Load32(key, 24) as int, Load32(key, 28) as int)
            == LeValue(key[16..])
  {
    var k, p := key[0..16], key[16..32];
    MaskedLimbs(t0, t1, t2, t3);
    LoadSlice(key, 0, 16, 0);
    LoadSlice(key, 0, 16, 4);
    LoadSlice(key, 0, 16, 8);
    LoadSlice(key, 0, 16, 12);
    assert key[..16] == k && key[16..] == p;
    ClampedValue(k);
    AddendValue(key, p);
  }

  /** The high bit of a full block stands one beyond its last byte. */
  lemma FullBlock(block: seq<uint8>)
    requires |block| == 16
    ensures BlockNumber(block) == LeValue(block) + 0x100_0000 * 0x100_0000_0000_0000_0000_0000_0000
  {
    PowAdd(0x100, 8, 8);
    PowAdd(0x100, 4, 4);
  }

  /** So does the one byte written behind a short block. */
  lemma PaddedBlock(block: seq<uint8>, rest: seq<uint8>)
    requires |block| == 16 && |rest| < 16
    requires block[..|rest|] == rest && block[|rest|] == 1
    requires forall i :: |rest| < i < 16 ==> block[i] == 0
    ensures LeValue(block) == BlockNumber(rest)
  {
    assert block == rest + block[|rest|..];
    LeValueAppend(rest, block[|rest|..]);
    assert block[|rest|..] == [1] + block[|rest| + 1..];
    LeValueZeros(block[|rest| + 1..]);
    assert LeValue(block[|rest|..]) == 1 + 0x100 * LeValue(block[|rest| + 1..]);
  }

  /** zz9k_soft_poly1305: the tag of section 2.5 of RFC 8439. */
  method Authenticate(tag: array<uint8>, message: seq<uint8>, key: seq<uint8>)
    requires tag.Length == 16 && |key| == 32
    modifies tag
    ensures LeValue(tag[..]) == Tag(message, key)
  {
    hide Radix26, Value5, Words4, LeValue, Clamp, Pow, Accumulate, Polynomial, Blocks;
    var st := new State(key);
    st.Update(message);
    st.Finish(tag);
    AccumulateIsPolynomial(0, LeValue(Clamp(key[..16])), Blocks(message));
  }

  lemma AddendValue(key: seq<uint8>, p: seq<uint8>)
    requires |key| == 32 && p == key[16..32]
    ensures Words4(Load32(key, 16) as int, Load32(key, 20) as int, Load32(key, 24) as int, Load32(key, 28) as int)
            == LeValue(p)
  {
    LoadSlice(key, 16, 32, 0);
    LoadSlice(key, 16, 32, 4);
    LoadSlice(key, 16, 32, 8);
    LoadSlice(key, 16, 32, 12);
    LeValue16(p);
  }

  method StoreTag(tag: array<uint8>, h0: uint32, h1: uint32, h2: uint32, h3: uint32)
    requires tag.Length == 16
    modifies tag
    ensures LeValue(tag[..]) == Words4(h0 as int, h1 as int, h2 as int, h3 as int)
  {
    Store32(tag, 0, h0);
    Store32(tag, 4, h1);
    Store32(tag, 8, h2);
    Store32(tag, 12, h3);
    StoredWords(tag[..], h0, h1, h2, h3);
  }

  /** The multiplication in the middle of `block`. */
  method MulReduce(h0: uint32, h1: uint32, h2: uint32, h3: uint32, h4: uint32,
                   r0: uint32, r1: uint32, r2: uint32, r3: uint32, r4: uint32,
                   s1: uint32, s2: uint32, s3: uint32, s4: uint32)
    returns (n0: uint32, n1: uint32, n2: uint32, n3: uint32, n4: uint32)
    requires h0 <= 0x800_0040 && h1 <= 0x800_0040 && h2 <= 0x800_0040 && h3 <= 0x800_0040 && h4 <= 0x800_0040
    requires r0 < 0x400_0000 && r1 < 0x400_0000 && r2 < 0x400_0000 && r3 < 0x400_0000 && r4 < 0x400_0000
    requires s1 == 5 * r1 && s2 == 5 * r2 && s3 == 5 * r3 && s4 == 5 * r4
    ensures n0 < 0x400_0000 && n1 < 0x400_0040 && n2 < 0x400_0000 && n3 < 0x400_0000 && n4 < 0x400_0000
    ensures Cong(Radix26(n0 as int, n1 as int, n2 as int, n3 as int, n4 as int),
                 Radix26(h0 as int, h1 as int, h2 as int, h3 as int, h4 as int)
                 * Radix26(r0 as int, r1 as int, r2 as int, r3 as int, r4 as int), P1305)
  {
    var d0 := Dot5(h0, r0, h1, s4, h2, s3, h3, s2, h4, s1, 0x1400_0000);
    var d1 := Dot5(h0, r1, h1, r0, h2, s4, h3, s3, h4, s2, 0x1400_0000);
    var d2 := Dot5(h0, r2, h1, r1, h2, r0, h3, s4, h4, s3, 0x1400_0000);
    var d3 := Dot5(h0, r3, h1, r2, h2, r1, h3, r0, h4, s4, 0x1400_0000);
    var d4 := Dot5(h0, r4, h1, r3, h2, r2, h3, r1, h4, r0, 0x400_0000);
    ProductReduces(h0 as int, h1 as int, h2 as int, h3 as int, h4 as int,
                   r0 as int, r1 as int, r2 as int, r3 as int, r4 as int);
    n0, n1, n2, n3, n4 := CarryAfterMul(d0, d1, d2, d3, d4);
  }

  lemma StoredWords(b: seq<uint8>, h0: uint32, h1: uint32, h2: uint32, h3: uint32)
    requires |b| == 16
    requires b[..4] == Bytes32(h0) && b[4..8] == Bytes32(h1) && b[8..12] == Bytes32(h2) && b[12..] == Bytes32(h3)
    ensures LeValue(b) == Words4(h0 as int, h1 as int, h2 as int, h3 as int)
  {
    assert b[0..4] == b[..4] && b[12..16] == b[12..];
    LeValue16(b);
  }
}
