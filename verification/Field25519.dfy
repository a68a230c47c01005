/** Arithmetic modulo 2^255 - 19 in ten limbs of alternately 26 and 25 bits
    (tools/zz9k-crypto-soft.c, fe25519). */
module Field25519 {
  import opened Words
  import opened ModArith

  const P25519: int := 0x8000_0000_0000_0000_0000_0000_0000_0000_0000_0000_0000_0000_0000_0000_0000_0000 - 19

  /** Ten integer limbs. */
  datatype Limbs = Limbs(a0: int, a1: int, a2: int, a3: int, a4: int, a5: int, a6: int, a7: int, a8: int, a9: int)

  /** The number they stand for: limb i has weight 2^ceil(25.5 i). */
  function Value(t: Limbs): int {
    t.a0
    + t.a1 * 0x400_0000
    + t.a2 * 0x8_0000_0000_0000
    + t.a3 * 0x2000_0000_0000_0000_0000
    + t.a4 * 0x40_0000_0000_0000_0000_0000_0000
    + t.a5 * 0x1_0000_0000_0000_0000_0000_0000_0000_0000
    + t.a6 * 0x200_0000_0000_0000_0000_0000_0000_0000_0000_0000
    + t.a7 * 0x8_0000_0000_0000_0000_0000_0000_0000_0000_0000_0000_0000
    + t.a8 * 0x1000_0000_0000_0000_0000_0000_0000_0000_0000_0000_0000_0000_0000
    + t.a9 * 0x40_0000_0000_0000_0000_0000_0000_0000_0000_0000_0000_0000_0000_0000_0000
  }

  /** c times limb 0, times g: what wraps past 2^255 comes back 19-fold. */
  function Row0(c: int, g: Limbs): Limbs {
    Limbs(c * g.a0, c * g.a1, c * g.a2, c * g.a3, c * g.a4, c * g.a5, c * g.a6, c * g.a7, c * g.a8, c * g.a9)
  }

  lemma RowValue0(c: int, g: Limbs)
    ensures Cong(Value(Row0(c, g)), c * Value(g), P25519)
  {
    CongIntro(Value(Row0(c, g)), c * Value(g), P25519, -(0));
  }

  /** c times limb 1, times g: what wraps past 2^255 comes back 19-fold. */
  function Row1(c: int, g: Limbs): Limbs {
    Limbs((2 * c) * (19 * g.a9), c * g.a0, (2 * c) * g.a1, c * g.a2, (2 * c) * g.a3, c * g.a4, (2 * c) * g.a5,
          c * g.a6, (2 * c) * g.a7, c * g.a8)
  }

  lemma RowValue1(c: int, g: Limbs)
    ensures Cong(Value(Row1(c, g)), c * 0x400_0000 * Value(g), P25519)
  {
    CongIntro(Value(Row1(c, g)), c * 0x400_0000 * Value(g), P25519, -(c * g.a9 * 0x2));
  }

  /** c times limb 2, times g: what wraps past 2^255 comes back 19-fold. */
  function Row2(c: int, g: Limbs): Limbs {
    Limbs(c * (19 * g.a8), c * (19 * g.a9), c * g.a0, c * g.a1, c * g.a2, c * g.a3, c * g.a4, c * g.a5, c * g.a6,
          c * g.a7)
  }

  lemma RowValue2(c: int, g: Limbs)
    ensures Cong(Value(Row2(c, g)), c * 0x8_0000_0000_0000 * Value(g), P25519)
  {
    CongIntro(Value(Row2(c, g)), c * 0x8_0000_0000_0000 * Value(g), P25519, -(c * g.a8 + c * g.a9 * 0x400_0000));
  }

  /** c times limb 3, times g: what wraps past 2^255 comes back 19-fold. */
  function Row3(c: int, g: Limbs): Limbs {
    Limbs((2 * c) * (19 * g.a7), c * (19 * g.a8), (2 * c) * (19 * g.a9), c * g.a0, (2 * c) * g.a1, c * g.a2,
          (2 * c) * g.a3, c * g.a4, (2 * c) * g.a5, c * g.a6)
  }

  lemma RowValue3(c: int, g: Limbs)
    ensures Cong(Value(Row3(c, g)), c * 0x2000_0000_0000_0000_0000 * Value(g), P25519)
  {
    CongIntro(Value(Row3(c, g)), c * 0x2000_0000_0000_0000_0000 * Value(g), P25519,
              -(c * g.a7 * 0x2 + c * g.a8 * 0x400_0000 + c * g.a9 * 0x10_0000_0000_0000));
  }

  /** c times limb 4, times g: what wraps past 2^255 comes back 19-fold. */
  function Row4(c: int, g: Limbs): Limbs {
    Limbs(c * (19 * g.a6), c * (19 * g.a7), c * (19 * g.a8), c * (19 * g.a9), c * g.a0, c * g.a1, c * g.a2,
          c * g.a3, c * g.a4, c * g.a5)
  }

  lemma RowValue4(c: int, g: Limbs)
    ensures Cong(Value(Row4(c, g)), c * 0x40_0000_0000_0000_0000_0000_0000 * Value(g), P25519)
  {
    CongIntro(Value(Row4(c, g)), c * 0x40_0000_0000_0000_0000_0000_0000 * Value(g), P25519,
              -(c * g.a6 + c * g.a7 * 0x400_0000 + c * g.a8 * 0x8_0000_0000_0000
                + c * g.a9 * 0x2000_0000_0000_0000_0000));
  }

  /** c times limb 5, times g: what wraps past 2^255 comes back 19-fold. */
  function Row5(c: int, g: Limbs): Limbs {
    Limbs((2 * c) * (19 * g.a5), c * (19 * g.a6), (2 * c) * (19 * g.a7), c * (19 * g.a8), (2 * c) * (19 * g.a9),
          c * g.a0, (2 * c) * g.a1, c * g.a2, (2 * c) * g.a3, c * g.a4)
  }

  lemma RowValue5(c: int, g: Limbs)
    ensures Cong(Value(Row5(c, g)), c * 0x1_0000_0000_0000_0000_0000_0000_0000_0000 * Value(g), P25519)
  {
    CongIntro(Value(Row5(c, g)), c * 0x1_0000_0000_0000_0000_0000_0000_0000_0000 * Value(g), P25519,
              -(c * g.a5 * 0x2 + c * g.a6 * 0x400_0000 + c * g.a7 * 0x10_0000_0000_0000
                + c * g.a8 * 0x2000_0000_0000_0000_0000 + c * g.a9 * 0x80_0000_0000_0000_0000_0000_0000));
  }

  /** c times limb 6, times g: what wraps past 2^255 comes back 19-fold. */
  function Row6(c: int, g: Limbs): Limbs {
    Limbs(c * (19 * g.a4), c * (19 * g.a5), c * (19 * g.a6), c * (19 * g.a7), c * (19 * g.a8), c * (19 * g.a9),
          c * g.a0, c * g.a1, c * g.a2, c * g.a3)
  }

  lemma RowValue6(c: int, g: Limbs)
    ensures Cong(Value(Row6(c, g)), c * 0x200_0000_0000_0000_0000_0000_0000_0000_0000_0000 * Value(g), P25519)
  {
    CongIntro(Value(Row6(c, g)), c * 0x200_0000_0000_0000_0000_0000_0000_0000_0000_0000 * Value(g), P25519,
              -(c * g.a4 + c * g.a5 * 0x400_0000 + c * g.a6 * 0x8_0000_0000_0000
                + c * g.a7 * 0x2000_0000_0000_0000_0000 + c * g.a8 * 0x40_0000_0000_0000_0000_0000_0000
                + c * g.a9 * 0x1_0000_0000_0000_0000_0000_0000_0000_0000));
  }

  /** c times limb 7, times g: what wraps past 2^255 comes back 19-fold. */
  function Row7(c: int, g: Limbs): Limbs {
    Limbs((2 * c) * (19 * g.a3), c * (19 * g.a4), (2 * c) * (19 * g.a5), c * (19 * g.a6), (2 * c) * (19 * g.a7),
          c * (19 * g.a8), (2 * c) * (19 * g.a9), c * g.a0, (2 * c) * g.a1, c * g.a2)
  }

  lemma RowValue7(c: int, g: Limbs)
    ensures Cong(Value(Row7(c, g)), c * 0x8_0000_0000_0000_0000_0000_0000_0000_0000_0000_0000_0000 * Value(g), P25519)
  {
    CongIntro(Value(Row7(c, g)), c * 0x8_0000_0000_0000_0000_0000_0000_0000_0000_0000_0000_0000 * Value(g), P25519,
              -(c * g.a3 * 0x2 + c * g.a4 * 0x400_0000 + c * g.a5 * 0x10_0000_0000_0000
                + c * g.a6 * 0x2000_0000_0000_0000_0000 + c * g.a7 * 0x80_0000_0000_0000_0000_0000_0000
                + c * g.a8 * 0x1_0000_0000_0000_0000_0000_0000_0000_0000
                + c * g.a9 * 0x400_0000_0000_0000_0000_0000_0000_0000_0000_0000));
  }

  /** c times limb 8, times g: what wraps past 2^255 comes back 19-fold. */
  function Row8(c: int, g: Limbs): Limbs {
    Limbs(c * (19 * g.a2), c * (19 * g.a3), c * (19 * g.a4), c * (19 * g.a5), c * (19 * g.a6), c * (19 * g.a7),
          c * (19 * g.a8), c * (19 * g.a9), c * g.a0, c * g.a1)
  }

  lemma RowValue8(c: int, g: Limbs)
    ensures Cong(Value(Row8(c, g)),
                 c * 0x1000_0000_0000_0000_0000_0000_0000_0000_0000_0000_0000_0000_0000 * Value(g), P25519)
  {
    CongIntro(Value(Row8(c, g)), c * 0x1000_0000_0000_0000_0000_0000_0000_0000_0000_0000_0000_0000_0000 * Value(g),
              P25519, -(c * g.a2 + c * g.a3 * 0x400_0000 + c * g.a4 * 0x8_0000_0000_0000
                        + c * g.a5 * 0x2000_0000_0000_0000_0000 + c * g.a6 * 0x40_0000_0000_0000_0000_0000_0000
                        + c * g.a7 * 0x1_0000_0000_0000_0000_0000_0000_0000_0000
                        + c * g.a8 * 0x200_0000_0000_0000_0000_0000_0000_0000_0000_0000
                        + c * g.a9 * 0x8_0000_0000_0000_0000_0000_0000_0000_0000_0000_0000_0000));
  }

  /** c times limb 9, times g: what wraps past 2^255 comes back 19-fold. */
  function Row9(c: int, g: Limbs): Limbs {
    Limbs((2 * c) * (19 * g.a1), c * (19 * g.a2), (2 * c) * (19 * g.a3), c * (19 * g.a4), (2 * c) * (19 * g.a5),
          c * (19 * g.a6), (2 * c) * (19 * g.a7), c * (19 * g.a8), (2 * c) * (19 * g.a9), c * g.a0)
  }

  lemma RowValue9(c: int, g: Limbs)
    ensures Cong(Value(Row9(c, g)),
                 c * 0x40_0000_0000_0000_0000_0000_0000_0000_0000_0000_0000_0000_0000_0000_0000 * Value(g), P25519)
  {
    CongIntro(Value(Row9(c, g)),
              c * 0x40_0000_0000_0000_0000_0000_0000_0000_0000_0000_0000_0000_0000_0000_0000 * Value(g), P25519,
              -(c * g.a1 * 0x2 + c * g.a2 * 0x400_0000 + c * g.a3 * 0x10_0000_0000_0000
                + c * g.a4 * 0x2000_0000_0000_0000_0000 + c * g.a5 * 0x80_0000_0000_0000_0000_0000_0000
                + c * g.a6 * 0x1_0000_0000_0000_0000_0000_0000_0000_0000
                + c * g.a7 * 0x400_0000_0000_0000_0000_0000_0000_0000_0000_0000
                + c * g.a8 * 0x8_0000_0000_0000_0000_0000_0000_0000_0000_0000_0000_0000
                + c * g.a9 * 0x2000_0000_0000_0000_0000_0000_0000_0000_0000_0000_0000_0000_0000));
  }

  /** The ten sums of products. */
  function Product(f: Limbs, g: Limbs): Limbs {
    Limbs(f.a0 * g.a0 + (2 * f.a1) * (19 * g.a9) + f.a2 * (19 * g.a8) + (2 * f.a3) * (19 * g.a7)
          + f.a4 * (19 * g.a6) + (2 * f.a5) * (19 * g.a5) + f.a6 * (19 * g.a4) + (2 * f.a7) * (19 * g.a3)
          + f.a8 * (19 * g.a2) + (2 * f.a9) * (19 * g.a1),
          f.a0 * g.a1 + f.a1 * g.a0 + f.a2 * (19 * g.a9) + f.a3 * (19 * g.a8) + f.a4 * (19 * g.a7)
              + f.a5 * (19 * g.a6) + f.a6 * (19 * g.a5) + f.a7 * (19 * g.a4) + f.a8 * (19 * g.a3) + f.a9 * (19 * g.a2),
          f.a0 * g.a2 + (2 * f.a1) * g.a1 + f.a2 * g.a0 + (2 * f.a3) * (19 * g.a9) + f.a4 * (19 * g.a8)
              + (2 * f.a5) * (19 * g.a7) + f.a6 * (19 * g.a6) + (2 * f.a7) * (19 * g.a5) + f.a8 * (19 * g.a4)
              + (2 * f.a9) * (19 * g.a3),
          f.a0 * g.a3 + f.a1 * g.a2 + f.a2 * g.a1 + f.a3 * g.a0 + f.a4 * (19 * g.a9) + f.a5 * (19 * g.a8)
              + f.a6 * (19 * g.a7) + f.a7 * (19 * g.a6) + f.a8 * (19 * g.a5) + f.a9 * (19 * g.a4),
          f.a0 * g.a4 + (2 * f.a1) * g.a3 + f.a2 * g.a2 + (2 * f.a3) * g.a1 + f.a4 * g.a0
              + (2 * f.a5) * (19 * g.a9) + f.a6 * (19 * g.a8) + (2 * f.a7) * (19 * g.a7) + f.a8 * (19 * g.a6)
              + (2 * f.a9) * (19 * g.a5),
          f.a0 * g.a5 + f.a1 * g.a4 + f.a2 * g.a3 + f.a3 * g.a2 + f.a4 * g.a1 + f.a5 * g.a0 + f.a6 * (19 * g.a9)
              + f.a7 * (19 * g.a8) + f.a8 * (19 * g.a7) + f.a9 * (19 * g.a6),
          f.a0 * g.a6 + (2 * f.a1) * g.a5 + f.a2 * g.a4 + (2 * f.a3) * g.a3 + f.a4 * g.a2 + (2 * f.a5) * g.a1
              + f.a6 * g.a0 + (2 * f.a7) * (19 * g.a9) + f.a8 * (19 * g.a8) + (2 * f.a9) * (19 * g.a7),
          f.a0 * g.a7 + f.a1 * g.a6 + f.a2 * g.a5 + f.a3 * g.a4 + f.a4 * g.a3 + f.a5 * g.a2 + f.a6 * g.a1
              + f.a7 * g.a0 + f.a8 * (19 * g.a9) + f.a9 * (19 * g.a8),
          f.a0 * g.a8 + (2 * f.a1) * g.a7 + f.a2 * g.a6 + (2 * f.a3) * g.a5 + f.a4 * g.a4 + (2 * f.a5) * g.a3
              + f.a6 * g.a2 + (2 * f.a7) * g.a1 + f.a8 * g.a0 + (2 * f.a9) * (19 * g.a9),
          f.a0 * g.a9 + f.a1 * g.a8 + f.a2 * g.a7 + f.a3 * g.a6 + f.a4 * g.a5 + f.a5 * g.a4 + f.a6 * g.a3
              + f.a7 * g.a2 + f.a8 * g.a1 + f.a9 * g.a0)
  }

  /** The value in two halves. */
  function LowValue(t: Limbs): int {
    t.a0
    + t.a1 * 0x400_0000
    + t.a2 * 0x8_0000_0000_0000
    + t.a3 * 0x2000_0000_0000_0000_0000
    + t.a4 * 0x40_0000_0000_0000_0000_0000_0000
  }

  function HighValue(t: Limbs): int {
    t.a5 * 0x1_0000_0000_0000_0000_0000_0000_0000_0000
    + t.a6 * 0x200_0000_0000_0000_0000_0000_0000_0000_0000_0000
    + t.a7 * 0x8_0000_0000_0000_0000_0000_0000_0000_0000_0000_0000_0000
    + t.a8 * 0x1000_0000_0000_0000_0000_0000_0000_0000_0000_0000_0000_0000_0000
    + t.a9 * 0x40_0000_0000_0000_0000_0000_0000_0000_0000_0000_0000_0000_0000_0000_0000
  }

  lemma ProductRowsLow(f: Limbs, g: Limbs)
    ensures LowValue(Product(f, g)) == LowValue(Row0(f.a0, g)) + LowValue(Row1(f.a1, g)) + LowValue(Row2(f.a2, g))
            + LowValue(Row3(f.a3, g)) + LowValue(Row4(f.a4, g))
            + LowValue(Row5(f.a5, g)) + LowValue(Row6(f.a6, g)) + LowValue(Row7(f.a7, g)) + LowValue(Row8(f.a8, g))
            + LowValue(Row9(f.a9, g))
  {}

  lemma ProductRowsHigh(f: Limbs, g: Limbs)
    ensures HighValue(Product(f, g)) == HighValue(Row0(f.a0, g)) + HighValue(Row1(f.a1, g))
            + HighValue(Row2(f.a2, g)) + HighValue(Row3(f.a3, g)) + HighValue(Row4(f.a4, g))
            + HighValue(Row5(f.a5, g)) + HighValue(Row6(f.a6, g)) + HighValue(Row7(f.a7, g))
            + HighValue(Row8(f.a8, g)) + HighValue(Row9(f.a9, g))
  {}

  lemma Halves(t: Limbs)
    ensures Value(t) == LowValue(t) + HighValue(t)
  {}

  /** The product is the sum of its rows. */
  lemma ProductRows(f: Limbs, g: Limbs)
    ensures Value(Product(f, g)) == Value(Row0(f.a0, g)) + Value(Row1(f.a1, g)) + Value(Row2(f.a2, g))
            + Value(Row3(f.a3, g)) + Value(Row4(f.a4, g))
            + Value(Row5(f.a5, g)) + Value(Row6(f.a6, g)) + Value(Row7(f.a7, g)) + Value(Row8(f.a8, g))
            + Value(Row9(f.a9, g))
  {
    hide Value, LowValue, HighValue, Product, Row0, Row1, Row2, Row3, Row4, Row5, Row6, Row7, Row8, Row9;
    ProductRowsLow(f, g);
    ProductRowsHigh(f, g);
    Halves(Product(f, g));
    Halves(Row0(f.a0, g));
    Halves(Row1(f.a1, g));
    Halves(Row2(f.a2, g));
    Halves(Row3(f.a3, g));
    Halves(Row4(f.a4, g));
    Halves(Row5(f.a5, g));
    Halves(Row6(f.a6, g));
    Halves(Row7(f.a7, g));
    Halves(Row8(f.a8, g));
    Halves(Row9(f.a9, g));
  }

  /** Multiplying by one number distributes over the limbs. */
  lemma ValueTimes(f: Limbs, v: int)
    ensures Value(f) * v == f.a0 * v
            + f.a1 * 0x400_0000 * v
            + f.a2 * 0x8_0000_0000_0000 * v
            + f.a3 * 0x2000_0000_0000_0000_0000 * v
            + f.a4 * 0x40_0000_0000_0000_0000_0000_0000 * v
            + f.a5 * 0x1_0000_0000_0000_0000_0000_0000_0000_0000 * v
            + f.a6 * 0x200_0000_0000_0000_0000_0000_0000_0000_0000_0000 * v
            + f.a7 * 0x8_0000_0000_0000_0000_0000_0000_0000_0000_0000_0000_0000 * v
            + f.a8 * 0x1000_0000_0000_0000_0000_0000_0000_0000_0000_0000_0000_0000_0000 * v
            + f.a9 * 0x40_0000_0000_0000_0000_0000_0000_0000_0000_0000_0000_0000_0000_0000_0000 * v
  {}

  /** The limb product is the product modulo 2^255 - 19. */
  lemma ProductCong(f: Limbs, g: Limbs)
    ensures Cong(Value(Product(f, g)), Value(f) * Value(g), P25519)
  {
    hide Value, Product, Row0, Row1, Row2, Row3, Row4, Row5, Row6, Row7, Row8, Row9;
    var v := Value(g);
    ProductRows(f, g);
    ValueTimes(f, v);
    RowValue0(f.a0, g);
    RowValue1(f.a1, g);
    RowValue2(f.a2, g);
    RowValue3(f.a3, g);
    RowValue4(f.a4, g);
    RowValue5(f.a5, g);
    RowValue6(f.a6, g);
    RowValue7(f.a7, g);
    RowValue8(f.a8, g);
    RowValue9(f.a9, g);
    var l, r := Value(Row0(f.a0, g)), f.a0 * v;
    CongAdd(l, r, Value(Row1(f.a1, g)), f.a1 * 0x400_0000 * v, P25519);
    l, r := l + Value(Row1(f.a1, g)), r + f.a1 * 0x400_0000 * v;
    CongAdd(l, r, Value(Row2(f.a2, g)), f.a2 * 0x8_0000_0000_0000 * v, P25519);
    l, r := l + Value(Row2(f.a2, g)), r + f.a2 * 0x8_0000_0000_0000 * v;
    CongAdd(l, r, Value(Row3(f.a3, g)), f.a3 * 0x2000_0000_0000_0000_0000 * v, P25519);
    l, r := l + Value(Row3(f.a3, g)), r + f.a3 * 0x2000_0000_0000_0000_0000 * v;
    CongAdd(l, r, Value(Row4(f.a4, g)), f.a4 * 0x40_0000_0000_0000_0000_0000_0000 * v, P25519);
    l, r := l + Value(Row4(f.a4, g)), r + f.a4 * 0x40_0000_0000_0000_0000_0000_0000 * v;
    CongAdd(l, r, Value(Row5(f.a5, g)), f.a5 * 0x1_0000_0000_0000_0000_0000_0000_0000_0000 * v, P25519);
    l, r := l + Value(Row5(f.a5, g)), r + f.a5 * 0x1_0000_0000_0000_0000_0000_0000_0000_0000 * v;
    CongAdd(l, r, Value(Row6(f.a6, g)), f.a6 * 0x200_0000_0000_0000_0000_0000_0000_0000_0000_0000 * v, P25519);
    l, r := l + Value(Row6(f.a6, g)), r + f.a6 * 0x200_0000_0000_0000_0000_0000_0000_0000_0000_0000 * v;
    CongAdd(l, r, Value(Row7(f.a7, g)), f.a7 * 0x8_0000_0000_0000_0000_0000_0000_0000_0000_0000_0000_0000 * v, P25519);
    l, r := l + Value(Row7(f.a7, g)), r + f.a7 * 0x8_0000_0000_0000_0000_0000_0000_0000_0000_0000_0000_0000 * v;
    CongAdd(l, r, Value(Row8(f.a8, g)),
            f.a8 * 0x1000_0000_0000_0000_0000_0000_0000_0000_0000_0000_0000_0000_0000 * v, P25519);
    l, r := l + Value(Row8(f.a8, g)), r + f.a8 * 0x1000_0000_0000_0000_0000_0000_0000_0000_0000_0000_0000_0000_0000 * v;
    CongAdd(l, r, Value(Row9(f.a9, g)),
            f.a9 * 0x40_0000_0000_0000_0000_0000_0000_0000_0000_0000_0000_0000_0000_0000_0000 * v, P25519);
    l, r := l + Value(Row9(f.a9, g)), r
        + f.a9 * 0x40_0000_0000_0000_0000_0000_0000_0000_0000_0000_0000_0000_0000_0000_0000 * v;
  }

  /** Largest limbs `fe25519_sub` produces from short operands; every argument
      of a multiplication stays below them. */
  const LOOSE_EVEN: int := 0xc00_0000
  const LOOSE_ODD: int := 0x610_0000

  predicate Loose(s: seq<uint32>) {
    && |s| == 10
    && s[0] as int < LOOSE_EVEN && s[2] as int < LOOSE_EVEN && s[4] as int < LOOSE_EVEN
    && s[6] as int < LOOSE_EVEN && s[8] as int < LOOSE_EVEN
    && s[1] as int < LOOSE_ODD && s[3] as int < LOOSE_ODD && s[5] as int < LOOSE_ODD
    && s[7] as int < LOOSE_ODD && s[9] as int < LOOSE_ODD
  }

  /** Short limbs: what multiplications leave, and the operands that
      additions and subtractions take. */
  predicate Short(s: seq<uint32>) {
    && |s| == 10
    && s[0] < 0x400_0000 && s[2] < 0x400_0000 && s[4] < 0x400_0000 && s[6] < 0x400_0000 && s[8] < 0x400_0000
    && s[1] < 0x210_0000 && s[3] < 0x210_0000 && s[5] < 0x210_0000 && s[7] < 0x210_0000 && s[9] < 0x210_0000
  }

  /** The bounds `fe25519_mul` itself guarantees. */
  predicate Carried(s: seq<uint32>) {
    && |s| == 10
    && s[0] < 0x400_0000 && s[2] < 0x400_0000 && s[4] < 0x400_0000 && s[6] < 0x400_0000 && s[8] < 0x400_0000
    && s[1] < 0x202_0000 && s[3] < 0x200_0000 && s[5] < 0x200_0000 && s[7] < 0x200_0000 && s[9] < 0x200_0000
  }

  ghost function Ints(s: seq<uint32>): Limbs
    requires |s| == 10
  {
    Limbs(s[0] as int, s[1] as int, s[2] as int, s[3] as int, s[4] as int,
          s[5] as int, s[6] as int, s[7] as int, s[8] as int, s[9] as int)
  }

  /** The number a limb array stands for. */
  ghost function V(s: seq<uint32>): int
    requires |s| == 10
  {
    Value(Ints(s))
  }

  lemma TermBound(a: int, b: int)
    requires 0 <= a <= 0xc20_0000 && 0 <= b <= 19 * LOOSE_EVEN
    ensures 0 <= a * b <= 0xc20_0000 * (19 * LOOSE_EVEN)
  {
    MulMono(a, 0xc20_0000, b);
    MulMono(b, 19 * LOOSE_EVEN, 0xc20_0000);
  }

  /** Ten products of a (possibly doubled) limb and a (possibly 19-fold) limb
      add up inside 64 signed bits. */
  function Dot10(a0: int64, b0: int64, a1: int64, b1: int64, a2: int64, b2: int64, a3: int64, b3: int64,
                 a4: int64, b4: int64, a5: int64, b5: int64, a6: int64, b6: int64, a7: int64, b7: int64,
                 a8: int64, b8: int64, a9: int64, b9: int64): (r: int64)
    requires 0 <= a0 <= 0xc20_0000 && 0 <= a1 <= 0xc20_0000 && 0 <= a2 <= 0xc20_0000 && 0 <= a3 <= 0xc20_0000
             && 0 <= a4 <= 0xc20_0000
    requires 0 <= a5 <= 0xc20_0000 && 0 <= a6 <= 0xc20_0000 && 0 <= a7 <= 0xc20_0000 && 0 <= a8 <= 0xc20_0000
             && 0 <= a9 <= 0xc20_0000
    requires 0 <= b0 as int <= 19 * LOOSE_EVEN && 0 <= b1 as int <= 19 * LOOSE_EVEN
             && 0 <= b2 as int <= 19 * LOOSE_EVEN && 0 <= b3 as int <= 19 * LOOSE_EVEN
             && 0 <= b4 as int <= 19 * LOOSE_EVEN
    requires 0 <= b5 as int <= 19 * LOOSE_EVEN && 0 <= b6 as int <= 19 * LOOSE_EVEN
             && 0 <= b7 as int <= 19 * LOOSE_EVEN && 0 <= b8 as int <= 19 * LOOSE_EVEN
             && 0 <= b9 as int <= 19 * LOOSE_EVEN
    ensures r as int == a0 as int * b0 as int + a1 as int * b1 as int + a2 as int * b2 as int
            + a3 as int * b3 as int + a4 as int * b4 as int
            + a5 as int * b5 as int + a6 as int * b6 as int + a7 as int * b7 as int
            + a8 as int * b8 as int + a9 as int * b9 as int
    ensures 0 <= r as int <= 10 * (0xc20_0000 * (19 * LOOSE_EVEN))
  {
    TermBound(a0 as int, b0 as int);
    TermBound(a1 as int, b1 as int);
    TermBound(a2 as int, b2 as int);
    TermBound(a3 as int, b3 as int);
    TermBound(a4 as int, b4 as int);
    TermBound(a5 as int, b5 as int);
    TermBound(a6 as int, b6 as int);
    TermBound(a7 as int, b7 as int);
    TermBound(a8 as int, b8 as int);
    TermBound(a9 as int, b9 as int);
    a0 * b0 + a1 * b1 + a2 * b2 + a3 * b3 + a4 * b4 + a5 * b5 + a6 * b6 + a7 * b7 + a8 * b8 + a9 * b9
  }

  /** The ten sums of `fe25519_mul`. */
  method Products(f: array<uint32>, g: array<uint32>)
    returns (r0: int64, r1: int64, r2: int64, r3: int64, r4: int64, r5: int64, r6: int64, r7: int64, r8: int64,
             r9: int64)
    requires f.Length == 10 && g.Length == 10 && Loose(f[..]) && Loose(g[..])
    ensures Limbs(r0 as int, r1 as int, r2 as int, r3 as int, r4 as int, r5 as int, r6 as int, r7 as int,
                  r8 as int, r9 as int) == Product(Ints(f[..]), Ints(g[..]))
    ensures 0 <= r0 as int <= 10 * (0xc20_0000 * (19 * LOOSE_EVEN))
            && 0 <= r1 as int <= 10 * (0xc20_0000 * (19 * LOOSE_EVEN))
    ensures 0 <= r2 as int <= 10 * (0xc20_0000 * (19 * LOOSE_EVEN))
            && 0 <= r3 as int <= 10 * (0xc20_0000 * (19 * LOOSE_EVEN))
    ensures 0 <= r4 as int <= 10 * (0xc20_0000 * (19 * LOOSE_EVEN))
            && 0 <= r5 as int <= 10 * (0xc20_0000 * (19 * LOOSE_EVEN))
    ensures 0 <= r6 as int <= 10 * (0xc20_0000 * (19 * LOOSE_EVEN))
            && 0 <= r7 as int <= 10 * (0xc20_0000 * (19 * LOOSE_EVEN))
    ensures 0 <= r8 as int <= 10 * (0xc20_0000 * (19 * LOOSE_EVEN))
            && 0 <= r9 as int <= 10 * (0xc20_0000 * (19 * LOOSE_EVEN))
  {
    var f0, f1, f2, f3, f4 := f[0] as int64, f[1] as int64, f[2] as int64, f[3] as int64, f[4] as int64;
    var f5, f6, f7, f8, f9 := f[5] as int64, f[6] as int64, f[7] as int64, f[8] as int64, f[9] as int64;
    var g0, g1, g2, g3, g4 := g[0] as int64, g[1] as int64, g[2] as int64, g[3] as int64, g[4] as int64;
    var g5, g6, g7, g8, g9 := g[5] as int64, g[6] as int64, g[7] as int64, g[8] as int64, g[9] as int64;
    var f1_2, f3_2, f5_2, f7_2, f9_2 := 2 * f1, 2 * f3, 2 * f5, 2 * f7, 2 * f9;
    var g1_19, g2_19, g3_19, g4_19, g5_19 := 19 * g1, 19 * g2, 19 * g3, 19 * g4, 19 * g5;
    var g6_19, g7_19, g8_19, g9_19 := 19 * g6, 19 * g7, 19 * g8, 19 * g9;
    r0 := Dot10(f0, g0, f1_2, g9_19, f2, g8_19, f3_2, g7_19, f4, g6_19, f5_2, g5_19, f6, g4_19, f7_2, g3_19, f8,
                g2_19, f9_2, g1_19);
    r1 := Dot10(f0, g1, f1, g0, f2, g9_19, f3, g8_19, f4, g7_19, f5, g6_19, f6, g5_19, f7, g4_19, f8, g3_19, f9, g2_19);
    r2 := Dot10(f0, g2, f1_2, g1, f2, g0, f3_2, g9_19, f4, g8_19, f5_2, g7_19, f6, g6_19, f7_2, g5_19, f8, g4_19,
                f9_2, g3_19);
    r3 := Dot10(f0, g3, f1, g2, f2, g1, f3, g0, f4, g9_19, f5, g8_19, f6, g7_19, f7, g6_19, f8, g5_19, f9, g4_19);
    r4 := Dot10(f0, g4, f1_2, g3, f2, g2, f3_2, g1, f4, g0, f5_2, g9_19, f6, g8_19, f7_2, g7_19, f8, g6_19, f9_2,
                g5_19);
    r5 := Dot10(f0, g5, f1, g4, f2, g3, f3, g2, f4, g1, f5, g0, f6, g9_19, f7, g8_19, f8, g7_19, f9, g6_19);
    r6 := Dot10(f0, g6, f1_2, g5, f2, g4, f3_2, g3, f4, g2, f5_2, g1, f6, g0, f7_2, g9_19, f8, g8_19, f9_2, g7_19);
    r7 := Dot10(f0, g7, f1, g6, f2, g5, f3, g4, f4, g3, f5, g2, f6, g1, f7, g0, f8, g9_19, f9, g8_19);
    r8 := Dot10(f0, g8, f1_2, g7, f2, g6, f3_2, g5, f4, g4, f5_2, g3, f6, g2, f7_2, g1, f8, g0, f9_2, g9_19);
    r9 := Dot10(f0, g9, f1, g8, f2, g7, f3, g6, f4, g5, f5, g4, f6, g3, f7, g2, f8, g1, f9, g0);
  }

  /** `carry = lo >> 26; hi += carry; lo &= 0x3ffffff`. */
  method Carry26(lo: int64, hi: int64) returns (lo': int64, hi': int64, ghost c: int)
    requires 0 <= lo && 0 <= hi < 0x7f00_0000_0000_0000
    ensures lo as int == 0x400_0000 * c + lo' as int && 0 <= lo' < 0x400_0000
    ensures hi' as int == hi as int + c && 0 <= c
  {
    var carry := lo / 0x400_0000;
    hi' := hi + carry;
    lo' := lo % 0x400_0000;
    c := carry as int;
  }

  /** `carry = lo >> 25; hi += carry; lo &= 0x1ffffff`. */
  method Carry25(lo: int64, hi: int64) returns (lo': int64, hi': int64, ghost c: int)
    requires 0 <= lo && 0 <= hi < 0x7f00_0000_0000_0000
    ensures lo as int == 0x200_0000 * c + lo' as int && 0 <= lo' < 0x200_0000
    ensures hi' as int == hi as int + c && 0 <= c
  {
    var carry := lo / 0x200_0000;
    hi' := hi + carry;
    lo' := lo % 0x200_0000;
    c := carry as int;
  }

  /** `carry = hi >> 25; lo += 19*carry; hi &= 0x1ffffff`. */
  method CarryAround(hi: int64, lo: int64) returns (hi': int64, lo': int64, ghost c: int)
    requires 0 <= hi && 0 <= lo < 0x7f00_0000_0000_0000
    ensures hi as int == 0x200_0000 * c + hi' as int && 0 <= hi' < 0x200_0000
    ensures lo' as int == lo as int + 19 * c && 0 <= c
  {
    var carry := hi / 0x200_0000;
    lo' := lo + 19 * carry;
    hi' := hi % 0x200_0000;
    c := carry as int;
  }

  /** The carries of `fe25519_mul`. */
  method CarryProducts(d0: int64, d1: int64, d2: int64, d3: int64, d4: int64, d5: int64, d6: int64, d7: int64,
                       d8: int64, d9: int64)
    returns (n: seq<uint32>)
    requires 0 <= d0 as int <= 10 * (0xc20_0000 * (19 * LOOSE_EVEN))
             && 0 <= d1 as int <= 10 * (0xc20_0000 * (19 * LOOSE_EVEN))
    requires 0 <= d2 as int <= 10 * (0xc20_0000 * (19 * LOOSE_EVEN))
             && 0 <= d3 as int <= 10 * (0xc20_0000 * (19 * LOOSE_EVEN))
    requires 0 <= d4 as int <= 10 * (0xc20_0000 * (19 * LOOSE_EVEN))
             && 0 <= d5 as int <= 10 * (0xc20_0000 * (19 * LOOSE_EVEN))
    requires 0 <= d6 as int <= 10 * (0xc20_0000 * (19 * LOOSE_EVEN))
             && 0 <= d7 as int <= 10 * (0xc20_0000 * (19 * LOOSE_EVEN))
    requires 0 <= d8 as int <= 10 * (0xc20_0000 * (19 * LOOSE_EVEN))
             && 0 <= d9 as int <= 10 * (0xc20_0000 * (19 * LOOSE_EVEN))
    ensures Carried(n)
    ensures Cong(V(n), Value(Limbs(d0 as int, d1 as int, d2 as int, d3 as int, d4 as int, d5 as int, d6 as int,
                                   d7 as int, d8 as int, d9 as int)), P25519)
  {
    var r0, r1, r2, r3, r4, r5, r6, r7, r8, r9 := d0, d1, d2, d3, d4, d5, d6, d7, d8, d9;
    ghost var c0, c1, c2, c3, c4, c5, c6, c7, c8, c9, last;
    r0, r1, c0 := Carry26(r0, r1);
    r1, r2, c1 := Carry25(r1, r2);
    r2, r3, c2 := Carry26(r2, r3);
    r3, r4, c3 := Carry25(r3, r4);
    r4, r5, c4 := Carry26(r4, r5);
    r5, r6, c5 := Carry25(r5, r6);
    r6, r7, c6 := Carry26(r6, r7);
    r7, r8, c7 := Carry25(r7, r8);
    r8, r9, c8 := Carry26(r8, r9);
    r9, r0, c9 := CarryAround(r9, r0);
    r0, r1, last := Carry26(r0, r1);
    n := [r0 as uint32, r1 as uint32, r2 as uint32, r3 as uint32, r4 as uint32, r5 as uint32, r6 as uint32,
          r7 as uint32, r8 as uint32, r9 as uint32];
    CongIntro(V(n), Value(Limbs(d0 as int, d1 as int, d2 as int, d3 as int, d4 as int, d5 as int, d6 as int,
                                d7 as int, d8 as int, d9 as int)), P25519, -c9);
  }

  /** Arithmetic in the field, on canonical residues. */
  function FAdd(a: int, b: int): int { (a + b) % P25519 }
  function FSub(a: int, b: int): int { (a - b) % P25519 }
  function FMul(a: int, b: int): int { a * b % P25519 }

  /** The residue a limb array stands for. */
  ghost function Res(s: seq<uint32>): int
    requires |s| == 10
  {
    V(s) % P25519
  }

  lemma ResAdd(x: int, a: int, b: int)
    requires Cong(x, a + b, P25519)
    ensures x % P25519 == FAdd(a % P25519, b % P25519)
  {
    CongMod(a, P25519);
    CongMod(b, P25519);
    CongAdd(a, a % P25519, b, b % P25519, P25519);
  }

  lemma ResSub(x: int, a: int, b: int)
    requires Cong(x, a - b, P25519)
    ensures x % P25519 == FSub(a % P25519, b % P25519)
  {
    CongMod(a, P25519);
    CongMod(b, P25519);
    CongSub(a, a % P25519, b, b % P25519, P25519);
  }

  lemma ResMul(x: int, a: int, b: int)
    requires Cong(x, a * b, P25519)
    ensures x % P25519 == FMul(a % P25519, b % P25519)
  {
    CongMod(a, P25519);
    CongMod(b, P25519);
    CongMul(a, a % P25519, b, b % P25519, P25519);
  }

  /** fe25519_mul; `h` may be `f` or `g`. */
  method Mul(h: array<uint32>, f: array<uint32>, g: array<uint32>)
    requires h.Length == 10 && f.Length == 10 && g.Length == 10
    requires Loose(f[..]) && Loose(g[..])
    modifies h
    ensures Carried(h[..]) && Short(h[..])
    ensures Res(h[..]) == FMul(old(Res(f[..])), old(Res(g[..])))
  {
    hide Value, Product, FMul, Loose;
    ghost var a, b := V(f[..]), V(g[..]);
    var r0, r1, r2, r3, r4, r5, r6, r7, r8, r9 := Products(f, g);
    ProductCong(Ints(f[..]), Ints(g[..]));
    var n := CarryProducts(r0, r1, r2, r3, r4, r5, r6, r7, r8, r9);
    ResMul(V(n), a, b);
    StoreLimbs(h, n);
  }

  method StoreLimbs(h: array<uint32>, n: seq<uint32>)
    requires h.Length == 10 && |n| == 10
    modifies h
    ensures h[..] == n
  {
    for i := 0 to 10
      invariant h[..i] == n[..i]
    {
      h[i] := n[i];
    }
  }

  /** fe25519_sq. */
  method Sq(h: array<uint32>, f: array<uint32>)
    requires h.Length == 10 && f.Length == 10 && Loose(f[..])
    modifies h
    ensures Carried(h[..]) && Short(h[..])
    ensures Res(h[..]) == FMul(old(Res(f[..])), old(Res(f[..])))
  {
    Mul(h, f, f);
  }

  /** fe25519_add; `h` may be `f` or `g`. */
  method Add(h: array<uint32>, f: array<uint32>, g: array<uint32>)
    requires h.Length == 10 && f.Length == 10 && g.Length == 10
    requires Short(f[..]) && Short(g[..])
    modifies h
    ensures Loose(h[..])
    ensures Res(h[..]) == FAdd(old(Res(f[..])), old(Res(g[..])))
  {
    ghost var a, b := f[..], g[..];
    for i := 0 to 10
      invariant forall k :: 0 <= k < i ==> h[k] as int == a[k] as int + b[k] as int
      invariant forall k :: i <= k < 10 ==> f[k] == a[k] && g[k] == b[k]
    {
      ShortLimb(a, i);
      ShortLimb(b, i);
      h[i] := f[i] + g[i];
    }
    SumOfLimbs(a, b, h[..]);
  }

  lemma ShortLimb(s: seq<uint32>, i: nat)
    requires Short(s) && i < 10
    ensures s[i] < 0x400_0000
    ensures i % 2 == 1 ==> s[i] < 0x210_0000
  {}

  lemma SumOfLimbs(a: seq<uint32>, b: seq<uint32>, h: seq<uint32>)
    requires Short(a) && Short(b) && |h| == 10
    requires forall k :: 0 <= k < 10 ==> h[k] as int == a[k] as int + b[k] as int
    ensures Loose(h)
    ensures Res(h) == FAdd(Res(a), Res(b))
  {
    assert V(h) == V(a) + V(b);
    ResAdd(V(h), V(a), V(b));
  }

  /** Limb i of 2p. */
  function TwoP(i: nat): uint32
  {
    if i == 0 then 0x7ff_ffda else if i % 2 == 0 then 0x7ff_fffe else 0x3ff_fffe
  }

  /** fe25519_sub: f - g + 2p, limb by limb; `h` may be `f` or `g`. */
  method Sub(h: array<uint32>, f: array<uint32>, g: array<uint32>)
    requires h.Length == 10 && f.Length == 10 && g.Length == 10
    requires Short(f[..]) && Short(g[..])
    modifies h
    ensures Loose(h[..])
    ensures Res(h[..]) == FSub(old(Res(f[..])), old(Res(g[..])))
  {
    hide Short, Loose, Res, FSub;
    ghost var a, b := f[..], g[..];
    for i := 0 to 10
      invariant forall k :: 0 <= k < i ==> h[k] as int == a[k] as int - b[k] as int + TwoP(k) as int
      invariant forall k :: i <= k < 10 ==> f[k] == a[k] && g[k] == b[k]
    {
      ShortLimb(a, i);
      ShortLimb(b, i);
      var diff := f[i] as int64 - g[i] as int64 + TwoP(i) as int64;
      h[i] := diff as uint32;
    }
    DifferenceOfLimbs(a, b, h[..]);
  }

  lemma DifferenceOfLimbs(a: seq<uint32>, b: seq<uint32>, h: seq<uint32>)
    requires Short(a) && Short(b) && |h| == 10
    requires forall k :: 0 <= k < 10 ==> h[k] as int == a[k] as int - b[k] as int + TwoP(k) as int
    ensures Loose(h)
    ensures Res(h) == FSub(Res(a), Res(b))
  {
    assert V(h) == V(a) - V(b) + 2 * P25519;
    CongIntro(V(h), V(a) - V(b), P25519, 2);
    ResSub(V(h), V(a), V(b));
  }

  /** The carries of `fe25519_mul_a24`, the top limb first. */
  method CarryA24(d0: int64, d1: int64, d2: int64, d3: int64, d4: int64, d5: int64, d6: int64, d7: int64,
                  d8: int64, d9: int64)
    returns (n: seq<uint32>)
    requires 0 <= d0 as int <= LOOSE_EVEN * 121665 && 0 <= d1 as int <= LOOSE_ODD * 121665
    requires 0 <= d2 as int <= LOOSE_EVEN * 121665 && 0 <= d3 as int <= LOOSE_ODD * 121665
    requires 0 <= d4 as int <= LOOSE_EVEN * 121665 && 0 <= d5 as int <= LOOSE_ODD * 121665
    requires 0 <= d6 as int <= LOOSE_EVEN * 121665 && 0 <= d7 as int <= LOOSE_ODD * 121665
    requires 0 <= d8 as int <= LOOSE_EVEN * 121665 && 0 <= d9 as int <= LOOSE_ODD * 121665
    ensures Short(n)
    ensures Cong(V(n), Value(Limbs(d0 as int, d1 as int, d2 as int, d3 as int, d4 as int, d5 as int, d6 as int,
                                   d7 as int, d8 as int, d9 as int)), P25519)
  {
    var t0, t1, t2, t3, t4, t5, t6, t7, t8, t9 := d0, d1, d2, d3, d4, d5, d6, d7, d8, d9;
    ghost var c0, c1, c2, c3, c4, c5, c6, c7, c8, c9;
    t9, t0, c9 := CarryAround(t9, t0);
    t0, t1, c0 := Carry26(t0, t1);
    t1, t2, c1 := Carry25(t1, t2);
    t2, t3, c2 := Carry26(t2, t3);
    t3, t4, c3 := Carry25(t3, t4);
    t4, t5, c4 := Carry26(t4, t5);
    t5, t6, c5 := Carry25(t5, t6);
    t6, t7, c6 := Carry26(t6, t7);
    t7, t8, c7 := Carry25(t7, t8);
    t8, t9, c8 := Carry26(t8, t9);
    n := [t0 as uint32, t1 as uint32, t2 as uint32, t3 as uint32, t4 as uint32, t5 as uint32, t6 as uint32,
          t7 as uint32, t8 as uint32, t9 as uint32];
    CongIntro(V(n), Value(Limbs(d0 as int, d1 as int, d2 as int, d3 as int, d4 as int, d5 as int, d6 as int,
                                d7 as int, d8 as int, d9 as int)), P25519, -c9);
  }

  lemma LooseLimb(s: seq<uint32>, i: nat)
    requires Loose(s) && i < 10
    ensures s[i] as int <= LOOSE_EVEN
    ensures i % 2 == 1 ==> s[i] as int <= LOOSE_ODD
  {}

  /** fe25519_mul_a24: times 121665; `h` may be `f`. */
  method MulA24(h: array<uint32>, f: array<uint32>)
    requires h.Length == 10 && f.Length == 10 && Loose(f[..])
    modifies h
    ensures Short(h[..])
    ensures Res(h[..]) == FMul(old(Res(f[..])), 121665)
  {
    hide Value;
    ghost var a := f[..];
    var t := new int64[10](_ => 0);
    for i := 0 to 10
      invariant forall k :: 0 <= k < i ==> t[k] as int == a[k] as int * 121665
      invariant f[..] == a
    {
      LooseLimb(a, i);
      t[i] := f[i] as int64 * 121665;
    }
    A24Bounds(a);
    var n := CarryA24(t[0], t[1], t[2], t[3], t[4], t[5], t[6], t[7], t[8], t[9]);
    ScaledLimbs(Ints(a), 121665);
    ResMul(V(n), V(a), 121665);
    StoreLimbs(h, n);
  }

  lemma A24Bounds(a: seq<uint32>)
    requires Loose(a)
    ensures forall k :: 0 <= k < 10 ==>
            0 <= a[k] as int * 121665 <= (if k % 2 == 0 then LOOSE_EVEN else LOOSE_ODD) * 121665
  {}

  lemma ScaledLimbs(a: Limbs, c: int)
    ensures Value(Limbs(a.a0 * c, a.a1 * c, a.a2 * c, a.a3 * c, a.a4 * c, a.a5 * c, a.a6 * c, a.a7 * c, a.a8 * c,
                        a.a9 * c)) == Value(a) * c
  {}

  /** fe25519_cswap: exchanges the two elements when b is 1. */
  method CSwap(f: array<uint32>, g: array<uint32>, b: uint32)
    requires f.Length == 10 && g.Length == 10 && f != g && b <= 1
    modifies f, g
    ensures f[..] == if b == 1 then old(g[..]) else old(f[..])
    ensures g[..] == if b == 1 then old(f[..]) else old(g[..])
  {
    for i := 0 to 10
      invariant forall k :: 0 <= k < i ==> f[k] == if b == 1 then old(g[k]) else old(f[k])
      invariant forall k :: 0 <= k < i ==> g[k] == if b == 1 then old(f[k]) else old(g[k])
      invariant forall k :: i <= k < 10 ==> f[k] == old(f[k]) && g[k] == old(g[k])
    {
      if b == 1 {
        f[i], g[i] := g[i], f[i];
      }
    }
  }

  /** fe25519_0 and fe25519_1. */
  method SetSmall(h: array<uint32>, v: uint32)
    requires h.Length == 10 && v <= 1
    modifies h
    ensures Short(h[..]) && Res(h[..]) == v as int
  {
    for i := 0 to 10
      invariant forall k :: 0 <= k < i ==> h[k] == 0
    {
      h[i] := 0;
    }
    h[0] := v;
    SmallValue(h[..], v);
  }

  lemma SmallValue(s: seq<uint32>, v: uint32)
    requires |s| == 10 && v <= 1 && s[0] == v
    requires forall k :: 1 <= k < 10 ==> s[k] == 0
    ensures Short(s) && Res(s) == v as int
  {
    assert V(s) == v as int;
    ModSmall(v as int, P25519);
  }

  /** fe25519_copy. */
  method Copy(h: array<uint32>, f: array<uint32>)
    requires h.Length == 10 && f.Length == 10
    modifies h
    ensures h[..] == old(f[..])
  {
    for i := 0 to 10
      invariant h[..i] == old(f[..i])
      invariant forall k :: i <= k < 10 ==> f[k] == old(f[k])
    {
      h[i] := f[i];
    }
  }
}
