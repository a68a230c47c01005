/** The 32-byte encoding of field elements (tools/zz9k-crypto-soft.c,
    fe25519_from_bytes and fe25519_to_bytes). */
module Field25519Bytes {
  import opened Words
  import opened ModArith
  import opened Field25519

  /** 2^255. */
  const TWO_255: int := 0x8000_0000_0000_0000_0000_0000_0000_0000_0000_0000_0000_0000_0000_0000_0000_0000

  /** Sixteen bytes as a number, byte by byte. */
  function Bytes16(b0: int, b1: int, b2: int, b3: int, b4: int, b5: int, b6: int, b7: int, b8: int, b9: int,
                   b10: int, b11: int, b12: int, b13: int, b14: int, b15: int): int {
    b0 + 0x100 * b1 + 0x1_0000 * b2 + 0x100_0000 * b3
    + 0x1_0000_0000 * b4 + 0x100_0000_0000 * b5 + 0x1_0000_0000_0000 * b6
    + 0x100_0000_0000_0000 * b7 + 0x1_0000_0000_0000_0000 * b8 + 0x100_0000_0000_0000_0000 * b9
    + 0x1_0000_0000_0000_0000_0000 * b10 + 0x100_0000_0000_0000_0000_0000 * b11
    + 0x1_0000_0000_0000_0000_0000_0000 * b12 + 0x100_0000_0000_0000_0000_0000_0000 * b13
    + 0x1_0000_0000_0000_0000_0000_0000_0000 * b14 + 0x100_0000_0000_0000_0000_0000_0000_0000 * b15
  }

  lemma LeValueBytes16(b: seq<uint8>)
    requires |b| == 16
    ensures LeValue(b) == Bytes16(b[0] as int, b[1] as int, b[2] as int, b[3] as int, b[4] as int, b[5] as int,
                                  b[6] as int, b[7] as int, b[8] as int, b[9] as int, b[10] as int, b[11] as int,
                                  b[12] as int, b[13] as int, b[14] as int, b[15] as int)
  {
    hide LeValue;
    LeValue16(b);
    LoadBytes(b, 0);
    LoadBytes(b, 4);
    LoadBytes(b, 8);
    LoadBytes(b, 12);
  }

  lemma LoadBytes(b: seq<uint8>, off: nat)
    requires off + 4 <= |b|
    ensures Load32(b, off) as int == b[off] as int + 0x100 * b[off + 1] as int + 0x1_0000 * b[off + 2] as int
            + 0x100_0000 * b[off + 3] as int
  {}

  /** Thirty-two bytes are two halves. */
  lemma LeValueHalves(b: seq<uint8>)
    requires |b| == 32
    ensures LeValue(b) == LeValue(b[..16]) + 0x1_0000_0000_0000_0000_0000_0000_0000_0000 * LeValue(b[16..])
  {
    hide LeValue;
    LeValueAppend(b[..16], b[16..]);
    assert b == b[..16] + b[16..];
    PowAdd(0x100, 8, 8);
    PowAdd(0x100, 4, 4);
  }

  lemma LowLimbs(b0: int, b1: int, b2: int, b3: int, b4: int, b5: int, b6: int, b7: int, b8: int, b9: int,
                 b10: int, b11: int, b12: int, b13: int, b14: int, b15: int)
    requires 0 <= b0 < 0x100 && 0 <= b1 < 0x100 && 0 <= b2 < 0x100 && 0 <= b3 < 0x100
    requires 0 <= b4 < 0x100 && 0 <= b5 < 0x100 && 0 <= b6 < 0x100 && 0 <= b7 < 0x100
    requires 0 <= b8 < 0x100 && 0 <= b9 < 0x100 && 0 <= b10 < 0x100 && 0 <= b11 < 0x100
    requires 0 <= b12 < 0x100 && 0 <= b13 < 0x100 && 0 <= b14 < 0x100 && 0 <= b15 < 0x100
    ensures (b0 + b1 * 0x100 + b2 * 0x1_0000 + b3 % 0x4 * 0x100_0000)
            + (b3 / 0x4 + b4 * 0x40 + b5 * 0x4000 + b6 % 0x8 * 0x40_0000) * 0x400_0000
            + (b6 / 0x8 + b7 * 0x20 + b8 * 0x2000 + b9 % 0x20 * 0x20_0000) * 0x8_0000_0000_0000
            + (b9 / 0x20 + b10 * 0x8 + b11 * 0x800 + b12 % 0x40 * 0x8_0000) * 0x2000_0000_0000_0000_0000
            + (b12 / 0x40 + b13 * 0x4 + b14 * 0x400 + b15 * 0x4_0000) * 0x40_0000_0000_0000_0000_0000_0000
            == Bytes16(b0, b1, b2, b3, b4, b5, b6, b7, b8, b9, b10, b11, b12, b13, b14, b15)
  {}

  lemma HighLimbs(b0: int, b1: int, b2: int, b3: int, b4: int, b5: int, b6: int, b7: int, b8: int, b9: int,
                  b10: int, b11: int, b12: int, b13: int, b14: int, b15: int)
    requires 0 <= b0 < 0x100 && 0 <= b1 < 0x100 && 0 <= b2 < 0x100 && 0 <= b3 < 0x100
    requires 0 <= b4 < 0x100 && 0 <= b5 < 0x100 && 0 <= b6 < 0x100 && 0 <= b7 < 0x100
    requires 0 <= b8 < 0x100 && 0 <= b9 < 0x100 && 0 <= b10 < 0x100 && 0 <= b11 < 0x100
    requires 0 <= b12 < 0x100 && 0 <= b13 < 0x100 && 0 <= b14 < 0x100 && 0 <= b15 < 0x100
    ensures (b0 + b1 * 0x100 + b2 * 0x1_0000 + b3 % 0x2 * 0x100_0000)
            + (b3 / 0x2 + b4 * 0x80 + b5 * 0x8000 + b6 % 0x8 * 0x80_0000) * 0x200_0000
            + (b6 / 0x8 + b7 * 0x20 + b8 * 0x2000 + b9 % 0x10 * 0x20_0000) * 0x8_0000_0000_0000
            + (b9 / 0x10 + b10 * 0x10 + b11 * 0x1000 + b12 % 0x40 * 0x10_0000) * 0x1000_0000_0000_0000_0000
            + (b12 / 0x40 + b13 * 0x4 + b14 * 0x400 + b15 % 0x80 * 0x4_0000) * 0x40_0000_0000_0000_0000_0000_0000
            == Bytes16(b0, b1, b2, b3, b4, b5, b6, b7, b8, b9, b10, b11, b12, b13, b14, b15)
                - b15 / 0x80 * 0x8000_0000_0000_0000_0000_0000_0000_0000
  {}

  /** Bits 0 to 127: limbs 0 to 4. */
  method FromBytesLow(s: seq<uint8>) returns (h0: uint32, h1: uint32, h2: uint32, h3: uint32, h4: uint32)
    requires |s| == 16
    ensures h0 < 0x400_0000 && h1 < 0x200_0000 && h2 < 0x400_0000 && h3 < 0x200_0000 && h4 < 0x400_0000
    ensures h0 as int + h1 as int * 0x400_0000 + h2 as int * 0x8_0000_0000_0000
            + h3 as int * 0x2000_0000_0000_0000_0000 + h4 as int * 0x40_0000_0000_0000_0000_0000_0000 == LeValue(s)
  {
    hide LeValue, Bytes16;
    var b0, b1, b2, b3, b4, b5, b6, b7 := s[0] as int, s[1] as int, s[2] as int, s[3] as int, s[4] as int,
        s[5] as int, s[6] as int, s[7] as int;
    var b8, b9, b10, b11, b12, b13, b14, b15 := s[8] as int, s[9] as int, s[10] as int, s[11] as int, s[12] as int,
        s[13] as int, s[14] as int, s[15] as int;
    h0 := (b0 + b1 * 0x100 + b2 * 0x1_0000 + b3 % 0x4 * 0x100_0000) as uint32;
    h1 := (b3 / 0x4 + b4 * 0x40 + b5 * 0x4000 + b6 % 0x8 * 0x40_0000) as uint32;
    h2 := (b6 / 0x8 + b7 * 0x20 + b8 * 0x2000 + b9 % 0x20 * 0x20_0000) as uint32;
    h3 := (b9 / 0x20 + b10 * 0x8 + b11 * 0x800 + b12 % 0x40 * 0x8_0000) as uint32;
    h4 := (b12 / 0x40 + b13 * 0x4 + b14 * 0x400 + b15 * 0x4_0000) as uint32;
    LeValueBytes16(s);
    LowLimbs(s[0] as int, s[1] as int, s[2] as int, s[3] as int, s[4] as int, s[5] as int, s[6] as int,
             s[7] as int, s[8] as int, s[9] as int, s[10] as int, s[11] as int, s[12] as int, s[13] as int,
             s[14] as int, s[15] as int);
  }

  /** Bits 128 to 254: limbs 5 to 9; the top bit is dropped. */
  method FromBytesHigh(s: seq<uint8>) returns (h5: uint32, h6: uint32, h7: uint32, h8: uint32, h9: uint32)
    requires |s| == 16
    ensures h5 < 0x200_0000 && h6 < 0x400_0000 && h7 < 0x200_0000 && h8 < 0x400_0000 && h9 < 0x200_0000
    ensures h5 as int + h6 as int * 0x200_0000 + h7 as int * 0x8_0000_0000_0000
            + h8 as int * 0x1000_0000_0000_0000_0000 + h9 as int * 0x40_0000_0000_0000_0000_0000_0000
            == LeValue(s) - s[15] as int / 0x80 * 0x8000_0000_0000_0000_0000_0000_0000_0000
  {
    hide LeValue, Bytes16;
    var b0, b1, b2, b3, b4, b5, b6, b7 := s[0] as int, s[1] as int, s[2] as int, s[3] as int, s[4] as int,
        s[5] as int, s[6] as int, s[7] as int;
    var b8, b9, b10, b11, b12, b13, b14, b15 := s[8] as int, s[9] as int, s[10] as int, s[11] as int, s[12] as int,
        s[13] as int, s[14] as int, s[15] as int;
    h5 := (b0 + b1 * 0x100 + b2 * 0x1_0000 + b3 % 0x2 * 0x100_0000) as uint32;
    h6 := (b3 / 0x2 + b4 * 0x80 + b5 * 0x8000 + b6 % 0x8 * 0x80_0000) as uint32;
    h7 := (b6 / 0x8 + b7 * 0x20 + b8 * 0x2000 + b9 % 0x10 * 0x20_0000) as uint32;
    h8 := (b9 / 0x10 + b10 * 0x10 + b11 * 0x1000 + b12 % 0x40 * 0x10_0000) as uint32;
    h9 := (b12 / 0x40 + b13 * 0x4 + b14 * 0x400 + b15 % 0x80 * 0x4_0000) as uint32;
    LeValueBytes16(s);
    HighLimbs(s[0] as int, s[1] as int, s[2] as int, s[3] as int, s[4] as int, s[5] as int, s[6] as int,
              s[7] as int, s[8] as int, s[9] as int, s[10] as int, s[11] as int, s[12] as int, s[13] as int,
              s[14] as int, s[15] as int);
  }

  /** fe25519_from_bytes: the low 255 bits, cut into limbs. */
  method FromBytes(h: array<uint32>, s: seq<uint8>)
    requires h.Length == 10 && |s| == 32
    modifies h
    ensures Short(h[..]) && Carried(h[..])
    ensures V(h[..]) == LeValue(s) % TWO_255
  {
    hide LeValue;
    var h0, h1, h2, h3, h4 := FromBytesLow(s[..16]);
    var h5, h6, h7, h8, h9 := FromBytesHigh(s[16..]);
    LeValueHalves(s);
    h[0], h[1], h[2], h[3], h[4], h[5], h[6], h[7], h[8], h[9] := h0, h1, h2, h3, h4, h5, h6, h7, h8, h9;
    DivModUnique(LeValue(s), TWO_255, s[31] as int / 0x80, V(h[..]));
  }

  /** One step of the nested quotient: `q = (h + q) >> 26` or `>> 25`. */
  method QuotientStep(h: uint32, q: int64, m: int64) returns (q': int64, ghost r: int)
    requires 0 <= q <= 19 && h < 0x400_0000 && (m == 0x400_0000 || m == 0x200_0000)
    ensures h as int + q as int == m as int * q' as int + r && 0 <= r < m as int && 0 <= q' <= 19
  {
    q' := (h as int64 + q) / m;
    r := ((h as int64 + q) % m) as int;
  }

  /** The nested shifts of fe25519_to_bytes compute floor(h / p). */
  method Quotient(h: seq<uint32>) returns (q: int64)
    requires Carried(h)
    ensures q as int == V(h) / P25519 && 0 <= q <= 1
  {
    q := (19 * h[9] as int64 + 0x100_0000) / 0x200_0000;
    ghost var q0 := q as int;
    ghost var r0, r1, r2, r3, r4, r5, r6, r7, r8, r9;
    q, r0 := QuotientStep(h[0], q, 0x400_0000);
    q, r1 := QuotientStep(h[1], q, 0x200_0000);
    q, r2 := QuotientStep(h[2], q, 0x400_0000);
    q, r3 := QuotientStep(h[3], q, 0x200_0000);
    q, r4 := QuotientStep(h[4], q, 0x400_0000);
    q, r5 := QuotientStep(h[5], q, 0x200_0000);
    q, r6 := QuotientStep(h[6], q, 0x400_0000);
    q, r7 := QuotientStep(h[7], q, 0x200_0000);
    q, r8 := QuotientStep(h[8], q, 0x400_0000);
    q, r9 := QuotientStep(h[9], q, 0x200_0000);
    QuotientIsFloor(Ints(h), Limbs(r0, r1, r2, r3, r4, r5, r6, r7, r8, r9), q0, q as int);
  }

  /** Adding the estimate q0 carries past 2^255 exactly when h >= p. */
  lemma QuotientIsFloor(h: Limbs, r: Limbs, q0: int, q: int)
    requires 0 <= h.a0 < 0x400_0000 && 0 <= r.a0 < 0x400_0000
    requires 0 <= h.a1 < 0x202_0000 && 0 <= r.a1 < 0x200_0000
    requires 0 <= h.a2 < 0x400_0000 && 0 <= r.a2 < 0x400_0000
    requires 0 <= h.a3 < 0x200_0000 && 0 <= r.a3 < 0x200_0000
    requires 0 <= h.a4 < 0x400_0000 && 0 <= r.a4 < 0x400_0000
    requires 0 <= h.a5 < 0x200_0000 && 0 <= r.a5 < 0x200_0000
    requires 0 <= h.a6 < 0x400_0000 && 0 <= r.a6 < 0x400_0000
    requires 0 <= h.a7 < 0x200_0000 && 0 <= r.a7 < 0x200_0000
    requires 0 <= h.a8 < 0x400_0000 && 0 <= r.a8 < 0x400_0000
    requires 0 <= h.a9 < 0x200_0000 && 0 <= r.a9 < 0x200_0000
    requires q0 == (19 * h.a9 + 0x100_0000) / 0x200_0000
    requires Value(h) + q0 == Value(r) + TWO_255 * q
    ensures q == Value(h) / P25519 && 0 <= q <= 1
  {
    assert 0 <= Value(r) < TWO_255;
    assert h.a9 == 0x1ff_ffff ==> q0 == 19;
    assert 0 <= q0 <= 19;
    assert h.a9 < 0x1ff_ffff ==> Value(h) + 19 < TWO_255;
    DivModUnique(Value(h), P25519, q, Value(h) - q * P25519);
  }

  /** The final carries: every limb ends within its width and bit 255 and up
      are dropped. */
  method CarryDown(d0: int64, d1: int64, d2: int64, d3: int64, d4: int64, d5: int64, d6: int64, d7: int64,
                   d8: int64, d9: int64)
    returns (n0: int64, n1: int64, n2: int64, n3: int64, n4: int64, n5: int64, n6: int64, n7: int64, n8: int64,
             n9: int64, ghost c9: int)
    requires 0 <= d0 < 0x800_0000 && 0 <= d1 < 0x800_0000 && 0 <= d2 < 0x800_0000 && 0 <= d3 < 0x800_0000
             && 0 <= d4 < 0x800_0000 && 0 <= d5 < 0x800_0000 && 0 <= d6 < 0x800_0000 && 0 <= d7 < 0x800_0000
             && 0 <= d8 < 0x800_0000 && 0 <= d9 < 0x800_0000
    ensures 0 <= n0 < 0x400_0000 && 0 <= n2 < 0x400_0000 && 0 <= n4 < 0x400_0000 && 0 <= n6 < 0x400_0000
            && 0 <= n8 < 0x400_0000
    ensures 0 <= n1 < 0x200_0000 && 0 <= n3 < 0x200_0000 && 0 <= n5 < 0x200_0000 && 0 <= n7 < 0x200_0000
            && 0 <= n9 < 0x200_0000
    ensures Value(Limbs(d0 as int, d1 as int, d2 as int, d3 as int, d4 as int, d5 as int, d6 as int, d7 as int,
                        d8 as int, d9 as int))
            == Value(Limbs(n0 as int, n1 as int, n2 as int, n3 as int, n4 as int, n5 as int, n6 as int, n7 as int,
                           n8 as int, n9 as int)) + TWO_255 * c9
  {
    n0, n1, n2, n3, n4, n5, n6, n7, n8, n9 := d0, d1, d2, d3, d4, d5, d6, d7, d8, d9;
    ghost var c0, c1, c2, c3, c4, c5, c6, c7, c8;
    n0, n1, c0 := Carry26(n0, n1);
    n1, n2, c1 := Carry25(n1, n2);
    n2, n3, c2 := Carry26(n2, n3);
    n3, n4, c3 := Carry25(n3, n4);
    n4, n5, c4 := Carry26(n4, n5);
    n5, n6, c5 := Carry25(n5, n6);
    n6, n7, c6 := Carry26(n6, n7);
    n7, n8, c7 := Carry25(n7, n8);
    n8, n9, c8 := Carry26(n8, n9);
    c9 := (n9 / 0x200_0000) as int;
    n9 := n9 % 0x200_0000;
  }

  /** The limbs of the residue below p. */
  method Canonical(h: seq<uint32>)
    returns (n0: int64, n1: int64, n2: int64, n3: int64, n4: int64, n5: int64, n6: int64, n7: int64, n8: int64,
             n9: int64)
    requires Carried(h)
    ensures 0 <= n0 < 0x400_0000 && 0 <= n2 < 0x400_0000 && 0 <= n4 < 0x400_0000 && 0 <= n6 < 0x400_0000
            && 0 <= n8 < 0x400_0000
    ensures 0 <= n1 < 0x200_0000 && 0 <= n3 < 0x200_0000 && 0 <= n5 < 0x200_0000 && 0 <= n7 < 0x200_0000
            && 0 <= n9 < 0x200_0000
    ensures Value(Limbs(n0 as int, n1 as int, n2 as int, n3 as int, n4 as int, n5 as int, n6 as int, n7 as int,
                        n8 as int, n9 as int)) == Res(h)
  {
    hide Value;
    var q := Quotient(h);
    ghost var c9;
    n0, n1, n2, n3, n4, n5, n6, n7, n8, n9,
        c9 := CarryDown(h[0] as int64 + 19 * q, h[1] as int64, h[2] as int64, h[3] as int64, h[4] as int64,
                        h[5] as int64, h[6] as int64, h[7] as int64, h[8] as int64, h[9] as int64);
    AddedQuotient(h, q as int);
    LimbsBelow(Limbs(n0 as int, n1 as int, n2 as int, n3 as int, n4 as int, n5 as int, n6 as int, n7 as int,
                     n8 as int, n9 as int));
    DropTop(V(h), q as int, c9,
            Value(Limbs(n0 as int, n1 as int, n2 as int, n3 as int, n4 as int, n5 as int, n6 as int, n7 as int,
                        n8 as int, n9 as int)));
  }

  lemma AddedQuotient(h: seq<uint32>, q: int)
    requires Carried(h)
    ensures Value(Limbs(h[0] as int + 19 * q, h[1] as int, h[2] as int, h[3] as int, h[4] as int, h[5] as int,
                        h[6] as int, h[7] as int, h[8] as int, h[9] as int)) == V(h) + 19 * q
    ensures 0 <= V(h) < 2 * P25519
  {}

  lemma LimbsBelow(n: Limbs)
    requires 0 <= n.a0 < 0x400_0000 && 0 <= n.a2 < 0x400_0000 && 0 <= n.a4 < 0x400_0000 && 0 <= n.a6 < 0x400_0000
             && 0 <= n.a8 < 0x400_0000
    requires 0 <= n.a1 < 0x200_0000 && 0 <= n.a3 < 0x200_0000 && 0 <= n.a5 < 0x200_0000 && 0 <= n.a7 < 0x200_0000
             && 0 <= n.a9 < 0x200_0000
    ensures 0 <= Value(n) < TWO_255
  {}

  /** Once 19 q is added, bit 255 is set exactly when q is 1. */
  lemma DropTop(v: int, q: int, c: int, n: int)
    requires 0 <= v < 2 * P25519 && q == v / P25519 && 0 <= q <= 1
    requires v + 19 * q == n + TWO_255 * c && 0 <= n < TWO_255
    ensures n == v % P25519
  {
    assert v == P25519 * q + v % P25519;
  }

  lemma CutBytes(a: int)
    requires a >= 0
    ensures a == a % 0x100 + 0x100 * (a / 0x100 % 0x100) + 0x1_0000 * (a / 0x1_0000)
  {
    DivDiv(a, 0x100, 0x100, 0x1_0000);
  }

  lemma Distribute(f: int, x: int, y: int, z: int)
    ensures f * (x + 0x100 * y + 0x1_0000 * z) == f * x + f * 0x100 * y + f * 0x1_0000 * z
  {}

  /** The four parts of a limb: its low bits, two bytes, and the rest. */
  function Part0(n: int, f: int): int requires f > 0 { n % f }
  function Part1(n: int, f: int): int requires f > 0 { n / f % 0x100 }
  function Part2(n: int, f: int): int requires f > 0 { n / (f * 0x100) % 0x100 }
  function Part3(n: int, f: int): int requires f > 0 { n / (f * 0x1_0000) }

  lemma Cut(n: int, f: int)
    requires n >= 0 && f > 0
    ensures n == Part0(n, f) + f * Part1(n, f) + f * 0x100 * Part2(n, f) + f * 0x1_0000 * Part3(n, f)
  {
    var a := n / f;
    DivDiv(n, f, 0x100, f * 0x100);
    DivDiv(n, f, 0x1_0000, f * 0x1_0000);
    CutBytes(a);
    Distribute(f, a % 0x100, a / 0x100 % 0x100, a / 0x1_0000);
  }

  /** The low byte of a word. */
  function LowByte(v: int64): uint8
    requires 0 <= v
  {
    (v % 0x100) as uint8
  }

  lemma SmallPart(n: int, f: int, m: int)
    requires 0 <= n < m && f > 0 && m <= f * 0x100_0000
    ensures 0 <= Part3(n, f) < 0x100
  {
    DivDiv(n, f, 0x1_0000, f * 0x1_0000);
    var q, r := n / f, n % f;
    assert n == f * q + r;
    QuotientBelow(q, r, f);
    QuotientNat(n, f);
    TopByte(q);
  }

  lemma QuotientNat(n: int, f: int)
    requires n >= 0 && f > 0
    ensures n / f >= 0
  {}

  lemma QuotientBelow(q: int, r: int, f: int)
    requires f > 0 && 0 <= r && f * q + r < f * 0x100_0000
    ensures q < 0x100_0000
  {
    if q >= 0x100_0000 {
      MulMono(0x100_0000, q, f);
    }
  }

  lemma TopByte(q: int)
    requires 0 <= q < 0x100_0000
    ensures 0 <= q / 0x1_0000 < 0x100
  {}

  /** A byte of two limbs: the low bits from one, the rest from the next. */
  lemma JoinByte(lo: int, n: int, f: int, g: int)
    requires f > 0 && g > 0 && f * g == 0x100 && 0 <= lo < f && 0 <= n
    ensures (lo + n * f) % 0x100 == lo + f * (n % g)
  {
    var q, r := n / g, n % g;
    assert n == g * q + r;
    assert n * f == q * (f * g) + f * r;
    MulMono(r, g - 1, f);
    MulMono(0, r, f);
    DivModUnique(lo + n * f, 0x100, q, lo + f * r);
  }

  /** Limbs 0 to 4 as bytes 0 to 15. */
  function PackLow(n0: int64, n1: int64, n2: int64, n3: int64, n4: int64): (b: seq<uint8>)
    requires 0 <= n0 < 0x400_0000 && 0 <= n1 < 0x200_0000 && 0 <= n2 < 0x400_0000 && 0 <= n3 < 0x200_0000
             && 0 <= n4 < 0x400_0000
    ensures |b| == 16 && LeValue(b) == n0 as int + n1 as int * 0x400_0000 + n2 as int * 0x8_0000_0000_0000
            + n3 as int * 0x2000_0000_0000_0000_0000 + n4 as int * 0x40_0000_0000_0000_0000_0000_0000
  {
    hide LeValue, Bytes16;
    var b := [LowByte(n0), LowByte(n0 / 0x100), LowByte(n0 / 0x1_0000), LowByte(n0 / 0x100_0000 + n1 * 0x4),
              LowByte(n1 / 0x40), LowByte(n1 / 0x4000), LowByte(n1 / 0x40_0000 + n2 * 0x8), LowByte(n2 / 0x20),
              LowByte(n2 / 0x2000), LowByte(n2 / 0x20_0000 + n3 * 0x20), LowByte(n3 / 0x8), LowByte(n3 / 0x800),
              LowByte(n3 / 0x8_0000 + n4 * 0x40), LowByte(n4 / 0x4), LowByte(n4 / 0x400), LowByte(n4 / 0x4_0000)];
    LeValueBytes16(b);
    PackLowValue(n0, n1, n2, n3, n4, b);
    b
  }

  lemma PackLowBytes(n0: int64, n1: int64, n2: int64, n3: int64, n4: int64)
    requires 0 <= n0 < 0x400_0000 && 0 <= n1 < 0x200_0000 && 0 <= n2 < 0x400_0000 && 0 <= n3 < 0x200_0000
             && 0 <= n4 < 0x400_0000
    ensures LowByte(n0) as int == Part0(n0 as int, 0x100)
    ensures LowByte(n0 / 0x100) as int == Part1(n0 as int, 0x100)
    ensures LowByte(n0 / 0x1_0000) as int == Part2(n0 as int, 0x100)
    ensures LowByte(n0 / 0x100_0000 + n1 * 0x4) as int == Part3(n0 as int, 0x100) + 0x4 * Part0(n1 as int, 0x40)
    ensures LowByte(n1 / 0x40) as int == Part1(n1 as int, 0x40)
    ensures LowByte(n1 / 0x4000) as int == Part2(n1 as int, 0x40)
    ensures LowByte(n1 / 0x40_0000 + n2 * 0x8) as int == Part3(n1 as int, 0x40) + 0x8 * Part0(n2 as int, 0x20)
    ensures LowByte(n2 / 0x20) as int == Part1(n2 as int, 0x20)
    ensures LowByte(n2 / 0x2000) as int == Part2(n2 as int, 0x20)
    ensures LowByte(n2 / 0x20_0000 + n3 * 0x20) as int == Part3(n2 as int, 0x20) + 0x20 * Part0(n3 as int, 0x8)
    ensures LowByte(n3 / 0x8) as int == Part1(n3 as int, 0x8)
    ensures LowByte(n3 / 0x800) as int == Part2(n3 as int, 0x8)
    ensures LowByte(n3 / 0x8_0000 + n4 * 0x40) as int == Part3(n3 as int, 0x8) + 0x40 * Part0(n4 as int, 0x4)
    ensures LowByte(n4 / 0x4) as int == Part1(n4 as int, 0x4)
    ensures LowByte(n4 / 0x400) as int == Part2(n4 as int, 0x4)
    ensures LowByte(n4 / 0x4_0000) as int == Part3(n4 as int, 0x4)
  {
    JoinByte((n0 / 0x100_0000) as int, n1 as int, 0x4, 0x40);
    JoinByte((n1 / 0x40_0000) as int, n2 as int, 0x8, 0x20);
    JoinByte((n2 / 0x20_0000) as int, n3 as int, 0x20, 0x8);
    JoinByte((n3 / 0x8_0000) as int, n4 as int, 0x40, 0x4);
    SmallPart(n0 as int, 0x100, 0x400_0000);
    SmallPart(n1 as int, 0x40, 0x200_0000);
    SmallPart(n2 as int, 0x20, 0x400_0000);
    SmallPart(n3 as int, 0x8, 0x200_0000);
    SmallPart(n4 as int, 0x4, 0x400_0000);
  }

  lemma PackLowValue(n0: int64, n1: int64, n2: int64, n3: int64, n4: int64, b: seq<uint8>)
    requires 0 <= n0 < 0x400_0000 && 0 <= n1 < 0x200_0000 && 0 <= n2 < 0x400_0000 && 0 <= n3 < 0x200_0000
             && 0 <= n4 < 0x400_0000
    requires b == [LowByte(n0), LowByte(n0 / 0x100), LowByte(n0 / 0x1_0000), LowByte(n0 / 0x100_0000 + n1 * 0x4),
                   LowByte(n1 / 0x40), LowByte(n1 / 0x4000), LowByte(n1 / 0x40_0000 + n2 * 0x8),
                   LowByte(n2 / 0x20), LowByte(n2 / 0x2000), LowByte(n2 / 0x20_0000 + n3 * 0x20),
                   LowByte(n3 / 0x8), LowByte(n3 / 0x800), LowByte(n3 / 0x8_0000 + n4 * 0x40), LowByte(n4 / 0x4),
                   LowByte(n4 / 0x400), LowByte(n4 / 0x4_0000)]
    ensures Bytes16(b[0] as int, b[1] as int, b[2] as int, b[3] as int, b[4] as int, b[5] as int, b[6] as int,
                    b[7] as int, b[8] as int, b[9] as int, b[10] as int, b[11] as int, b[12] as int, b[13] as int,
                    b[14] as int, b[15] as int)
            == n0 as int + n1 as int * 0x400_0000 + n2 as int * 0x8_0000_0000_0000
            + n3 as int * 0x2000_0000_0000_0000_0000 + n4 as int * 0x40_0000_0000_0000_0000_0000_0000
  {
    hide Part0, Part1, Part2, Part3, LowByte;
    PackLowBytes(n0, n1, n2, n3, n4);
    Cut(n0 as int, 0x100);
    Cut(n1 as int, 0x40);
    Cut(n2 as int, 0x20);
    Cut(n3 as int, 0x8);
    Cut(n4 as int, 0x4);
  }

  /** Limbs 5 to 9 as bytes 16 to 31. */
  function PackHigh(n5: int64, n6: int64, n7: int64, n8: int64, n9: int64): (b: seq<uint8>)
    requires 0 <= n5 < 0x200_0000 && 0 <= n6 < 0x400_0000 && 0 <= n7 < 0x200_0000 && 0 <= n8 < 0x400_0000
             && 0 <= n9 < 0x200_0000
    ensures |b| == 16 && LeValue(b) == n5 as int + n6 as int * 0x200_0000 + n7 as int * 0x8_0000_0000_0000
            + n8 as int * 0x1000_0000_0000_0000_0000 + n9 as int * 0x40_0000_0000_0000_0000_0000_0000
  {
    hide LeValue, Bytes16;
    var b := [LowByte(n5), LowByte(n5 / 0x100), LowByte(n5 / 0x1_0000), LowByte(n5 / 0x100_0000 + n6 * 0x2),
              LowByte(n6 / 0x80), LowByte(n6 / 0x8000), LowByte(n6 / 0x80_0000 + n7 * 0x8), LowByte(n7 / 0x20),
              LowByte(n7 / 0x2000), LowByte(n7 / 0x20_0000 + n8 * 0x10), LowByte(n8 / 0x10), LowByte(n8 / 0x1000),
              LowByte(n8 / 0x10_0000 + n9 * 0x40), LowByte(n9 / 0x4), LowByte(n9 / 0x400), LowByte(n9 / 0x4_0000)];
    LeValueBytes16(b);
    PackHighValue(n5, n6, n7, n8, n9, b);
    b
  }

  lemma PackHighBytes(n5: int64, n6: int64, n7: int64, n8: int64, n9: int64)
    requires 0 <= n5 < 0x200_0000 && 0 <= n6 < 0x400_0000 && 0 <= n7 < 0x200_0000 && 0 <= n8 < 0x400_0000
             && 0 <= n9 < 0x200_0000
    ensures LowByte(n5) as int == Part0(n5 as int, 0x100)
    ensures LowByte(n5 / 0x100) as int == Part1(n5 as int, 0x100)
    ensures LowByte(n5 / 0x1_0000) as int == Part2(n5 as int, 0x100)
    ensures LowByte(n5 / 0x100_0000 + n6 * 0x2) as int == Part3(n5 as int, 0x100) + 0x2 * Part0(n6 as int, 0x80)
    ensures LowByte(n6 / 0x80) as int == Part1(n6 as int, 0x80)
    ensures LowByte(n6 / 0x8000) as int == Part2(n6 as int, 0x80)
    ensures LowByte(n6 / 0x80_0000 + n7 * 0x8) as int == Part3(n6 as int, 0x80) + 0x8 * Part0(n7 as int, 0x20)
    ensures LowByte(n7 / 0x20) as int == Part1(n7 as int, 0x20)
    ensures LowByte(n7 / 0x2000) as int == Part2(n7 as int, 0x20)
    ensures LowByte(n7 / 0x20_0000 + n8 * 0x10) as int == Part3(n7 as int, 0x20) + 0x10 * Part0(n8 as int, 0x10)
    ensures LowByte(n8 / 0x10) as int == Part1(n8 as int, 0x10)
    ensures LowByte(n8 / 0x1000) as int == Part2(n8 as int, 0x10)
    ensures LowByte(n8 / 0x10_0000 + n9 * 0x40) as int == Part3(n8 as int, 0x10) + 0x40 * Part0(n9 as int, 0x4)
    ensures LowByte(n9 / 0x4) as int == Part1(n9 as int, 0x4)
    ensures LowByte(n9 / 0x400) as int == Part2(n9 as int, 0x4)
    ensures LowByte(n9 / 0x4_0000) as int == Part3(n9 as int, 0x4)
  {
    JoinByte((n5 / 0x100_0000) as int, n6 as int, 0x2, 0x80);
    JoinByte((n6 / 0x80_0000) as int, n7 as int, 0x8, 0x20);
    JoinByte((n7 / 0x20_0000) as int, n8 as int, 0x10, 0x10);
    JoinByte((n8 / 0x10_0000) as int, n9 as int, 0x40, 0x4);
    SmallPart(n5 as int, 0x100, 0x200_0000);
    SmallPart(n6 as int, 0x80, 0x400_0000);
    SmallPart(n7 as int, 0x20, 0x200_0000);
    SmallPart(n8 as int, 0x10, 0x400_0000);
    SmallPart(n9 as int, 0x4, 0x200_0000);
  }

  lemma PackHighValue(n5: int64, n6: int64, n7: int64, n8: int64, n9: int64, b: seq<uint8>)
    requires 0 <= n5 < 0x200_0000 && 0 <= n6 < 0x400_0000 && 0 <= n7 < 0x200_0000 && 0 <= n8 < 0x400_0000
             && 0 <= n9 < 0x200_0000
    requires b == [LowByte(n5), LowByte(n5 / 0x100), LowByte(n5 / 0x1_0000), LowByte(n5 / 0x100_0000 + n6 * 0x2),
                   LowByte(n6 / 0x80), LowByte(n6 / 0x8000), LowByte(n6 / 0x80_0000 + n7 * 0x8),
                   LowByte(n7 / 0x20), LowByte(n7 / 0x2000), LowByte(n7 / 0x20_0000 + n8 * 0x10),
                   LowByte(n8 / 0x10), LowByte(n8 / 0x1000), LowByte(n8 / 0x10_0000 + n9 * 0x40),
                   LowByte(n9 / 0x4), LowByte(n9 / 0x400), LowByte(n9 / 0x4_0000)]
    ensures Bytes16(b[0] as int, b[1] as int, b[2] as int, b[3] as int, b[4] as int, b[5] as int, b[6] as int,
                    b[7] as int, b[8] as int, b[9] as int, b[10] as int, b[11] as int, b[12] as int, b[13] as int,
                    b[14] as int, b[15] as int)
            == n5 as int + n6 as int * 0x200_0000 + n7 as int * 0x8_0000_0000_0000
            + n8 as int * 0x1000_0000_0000_0000_0000 + n9 as int * 0x40_0000_0000_0000_0000_0000_0000
  {
    hide Part0, Part1, Part2, Part3, LowByte;
    PackHighBytes(n5, n6, n7, n8, n9);
    Cut(n5 as int, 0x100);
    Cut(n6 as int, 0x80);
    Cut(n7 as int, 0x20);
    Cut(n8 as int, 0x10);
    Cut(n9 as int, 0x4);
  }

  /** fe25519_to_bytes: the residue below p, least significant byte first. */
  method ToBytes(s: array<uint8>, h: array<uint32>)
    requires s.Length == 32 && h.Length == 10 && Carried(h[..])
    modifies s
    ensures LeValue(s[..]) == old(Res(h[..]))
  {
    hide Value, LeValue;
    var n0, n1, n2, n3, n4, n5, n6, n7, n8, n9 := Canonical(h[..]);
    var b := PackLow(n0, n1, n2, n3, n4) + PackHigh(n5, n6, n7, n8, n9);
    ValueHalves(n0 as int, n1 as int, n2 as int, n3 as int, n4 as int, n5 as int, n6 as int, n7 as int, n8 as int,
                n9 as int);
    LeValueHalves(b);
    forall i | 0 <= i < 32 {
      s[i] := b[i];
    }
    assert s[..] == b;
  }

  lemma ValueHalves(n0: int, n1: int, n2: int, n3: int, n4: int, n5: int, n6: int, n7: int, n8: int, n9: int)
    ensures Value(Limbs(n0, n1, n2, n3, n4, n5, n6, n7, n8, n9))
            == n0 + n1 * 0x400_0000 + n2 * 0x8_0000_0000_0000 + n3 * 0x2000_0000_0000_0000_0000
            + n4 * 0x40_0000_0000_0000_0000_0000_0000
            + 0x1_0000_0000_0000_0000_0000_0000_0000_0000
                * (n5 + n6 * 0x200_0000 + n7 * 0x8_0000_0000_0000 + n8 * 0x1000_0000_0000_0000_0000
                   + n9 * 0x40_0000_0000_0000_0000_0000_0000)
  {}

  /** Decoding s and encoding the result gives s back exactly when s is the
      encoding of a number below p. */
  lemma EncodeUndoesDecode(s: seq<uint8>, h: seq<uint32>, t: seq<uint8>)
    requires |s| == 32 && |h| == 10 && |t| == 32
    requires V(h) == LeValue(s) % TWO_255
    requires LeValue(t) == Res(h)
    ensures t == s <==> LeValue(s) < P25519
  {
    hide LeValue, Value;
    if LeValue(s) < P25519 {
      ModSmall(LeValue(s), TWO_255);
      ModSmall(LeValue(s), P25519);
      LeValueInjective(s, t);
    }
    CongMod(V(h), P25519);
  }

  /** Encoding h and decoding the bytes gives the residue of h itself. */
  lemma DecodeUndoesEncode(h: seq<uint32>, t: seq<uint8>, g: seq<uint32>)
    requires |h| == 10 && |t| == 32 && |g| == 10
    ensures LeValue(t) == Res(h) && V(g) == LeValue(t) % TWO_255 ==> V(g) == Res(h)
  {
    hide LeValue, Value;
    CongMod(V(h), P25519);
    ModSmall(Res(h), TWO_255);
  }
}
