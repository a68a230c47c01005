/** `^` and `|` on words, as arithmetic on their bits. */
module Bitwise {
  import opened Words
  import opened ModArith

  /** Exclusive or of two n-bit numbers, from the low bit up. */
  function XorBits(a: nat, b: nat, n: nat): (r: nat)
    ensures r < Pow(2, n)
  {
    if n == 0 then 0
    else (if a % 2 == b % 2 then 0 else 1) + 2 * XorBits(a / 2, b / 2, n - 1)
  }

  function OrBits(a: nat, b: nat, n: nat): (r: nat)
    ensures r < Pow(2, n)
  {
    if n == 0 then 0
    else (if a % 2 == 0 && b % 2 == 0 then 0 else 1) + 2 * OrBits(a / 2, b / 2, n - 1)
  }

  /** Every bit of it is the sum of the two bits, without carry. */
  lemma {:induction false} XorBitAt(a: nat, b: nat, n: nat, i: nat)
    requires i < n
    ensures Bit(XorBits(a, b, n), i) == (Bit(a, i) + Bit(b, i)) % 2
  {
    var x := XorBits(a, b, n);
    BitOfHalf(a, i);
    BitOfHalf(b, i);
    BitOfHalf(x, i);
    assert x / 2 == XorBits(a / 2, b / 2, n - 1);
    if i > 0 {
      XorBitAt(a / 2, b / 2, n - 1, i - 1);
    }
  }

  /** Every bit of it is set when one of the two bits is. */
  lemma {:induction false} OrBitAt(a: nat, b: nat, n: nat, i: nat)
    requires i < n
    ensures Bit(OrBits(a, b, n), i) == if Bit(a, i) == 1 || Bit(b, i) == 1 then 1 else 0
  {
    var x := OrBits(a, b, n);
    BitOfHalf(a, i);
    BitOfHalf(b, i);
    BitOfHalf(x, i);
    assert x / 2 == OrBits(a / 2, b / 2, n - 1);
    if i > 0 {
      OrBitAt(a / 2, b / 2, n - 1, i - 1);
    }
  }

  lemma BitOfHalf(k: nat, i: nat)
    ensures Bit(k, i) == if i == 0 then k % 2 else Bit(k / 2, i - 1)
  {
    if i == 0 {
      assert Pow(2, 0) == 1;
    } else {
      PowPositive(2, i - 1);
      DivDiv(k, 2, Pow(2, i - 1), Pow(2, i));
    }
  }

  /** Dividing by a power of two moves the bits down. */
  lemma BitOfQuotient(x: nat, m: nat, t: nat)
    ensures Pow(2, m) > 0 && Bit(x / Pow(2, m), t) == Bit(x, m + t)
  {
    PowPositive(2, m);
    PowPositive(2, t);
    PowAdd(2, m, t);
    DivDiv(x, Pow(2, m), Pow(2, t), Pow(2, m + t));
  }

  /** Taking a remainder by a power of two clears the bits from there up. */
  lemma {:induction false} BitOfRemainder(x: nat, m: nat, t: nat)
    ensures Pow(2, m) > 0 && Bit(x % Pow(2, m), t) == if t < m then Bit(x, t) else 0
  {
    PowPositive(2, m);
    if m == 0 {
      PowPositive(2, t);
      assert 0 / Pow(2, t) == 0;
    } else {
      PowPositive(2, m - 1);
      DivDiv(x, 2, Pow(2, m - 1), Pow(2, m));
      BitOfHalf(x % Pow(2, m), t);
      BitOfHalf(x, t);
      DivModUnique(x % Pow(2, m), 2, x / 2 % Pow(2, m - 1), x % 2);
      if t > 0 {
        BitOfRemainder(x / 2, m - 1, t - 1);
      }
    }
  }

  /** Rounding down to a multiple of a power of two clears the bits below. */
  lemma {:induction false} BitOfMultiple(x: nat, m: nat, t: nat)
    ensures Pow(2, m) > 0 && Bit(x / Pow(2, m) * Pow(2, m), t) == if t < m then 0 else Bit(x, t)
  {
    PowPositive(2, m);
    if m > 0 {
      var p := Pow(2, m - 1);
      PowPositive(2, m - 1);
      DivDiv(x, 2, p, Pow(2, m));
      var y := x / Pow(2, m) * Pow(2, m);
      assert y == 2 * (x / 2 / p * p);
      BitOfHalf(y, t);
      BitOfHalf(x, t);
      if t > 0 {
        BitOfMultiple(x / 2, m - 1, t - 1);
      }
    }
  }

  /** Bit i of a byte string is bit i % 8 of byte i / 8. */
  lemma {:induction false} BitOfBytes(e: seq<uint8>, i: nat)
    requires i < 8 * |e|
    ensures Pow(2, i % 8) > 0
    ensures Bit(LeValue(e), i) == Bit(e[i / 8] as nat, i % 8)
  {
    PowPositive(2, i % 8);
    PowPositive(2, i);
    if i < 8 {
      LowBit(e[0] as int, LeValue(e[1..]), i);
    } else {
      BitOfBytes(e[1..], i - 8);
      HighBit(e[0] as int, LeValue(e[1..]), i);
      assert i % 8 == (i - 8) % 8 && i / 8 == (i - 8) / 8 + 1;
    }
  }

  lemma LowBit(a: nat, r: nat, i: nat)
    requires i < 8
    ensures Bit(a + 0x100 * r, i) == Bit(a, i)
  {
    PowPositive(2, i);
    PowPositive(2, 7 - i);
    var p, g := Pow(2, i), Pow(2, 7 - i);
    PowAdd(2, i, 7 - i);
    assert Pow(2, 7) == 0x80;
    hide Pow;
    assert 0x100 * r == p * (g * 2 * r);
    DivModUnique(a + 0x100 * r, p, a / p + g * 2 * r, a % p);
    DivModUnique(a / p + g * 2 * r, 2, a / p / 2 + g * r, a / p % 2);
  }

  lemma HighBit(a: nat, r: nat, i: nat)
    requires i >= 8 && a < 0x100
    ensures Bit(a + 0x100 * r, i) == Bit(r, i - 8)
  {
    PowPositive(2, i);
    PowPositive(2, i - 8);
    PowAdd(2, 8, i - 8);
    assert Pow(2, 8) == 0x100;
    hide Pow;
    DivModUnique(a + 0x100 * r, 0x100, r, a);
    DivDiv(a + 0x100 * r, 0x100, Pow(2, i - 8), Pow(2, i));
  }

  lemma {:induction false} XorBitsTwice(a: nat, k: nat, n: nat)
    requires a < Pow(2, n)
    ensures XorBits(XorBits(a, k, n), k, n) == a
  {
    if n > 0 {
      XorBitsTwice(a / 2, k / 2, n - 1);
      var x := XorBits(a, k, n);
      assert x / 2 == XorBits(a / 2, k / 2, n - 1);
    }
  }

  lemma {:induction false} XorBitsZero(a: nat, b: nat, n: nat)
    requires a < Pow(2, n) && b < Pow(2, n)
    ensures XorBits(a, b, n) == 0 <==> a == b
  {
    if n > 0 {
      XorBitsZero(a / 2, b / 2, n - 1);
    }
  }

  lemma {:induction false} OrBitsZero(a: nat, b: nat, n: nat)
    requires a < Pow(2, n) && b < Pow(2, n)
    ensures OrBits(a, b, n) == 0 <==> a == 0 && b == 0
  {
    if n > 0 {
      OrBitsZero(a / 2, b / 2, n - 1);
    }
  }

  lemma WordPowers()
    ensures Pow(2, 8) == 0x100 && Pow(2, 32) == 0x1_0000_0000
  {
    assert Pow(2, 4) == 16;
    PowAdd(2, 4, 4);
    PowAdd(2, 8, 8);
    PowAdd(2, 16, 16);
  }

  /** `^` and `|` on bytes and words. */
  function Xor8(a: uint8, b: uint8): uint8 {
    WordPowers();
    XorBits(a as nat, b as nat, 8) as uint8
  }

  function XorSeq(a: seq<uint8>, b: seq<uint8>): (c: seq<uint8>)
    requires |a| == |b|
    ensures |c| == |a|
  {
    seq(|a|, i requires 0 <= i < |a| => Xor8(a[i], b[i]))
  }

  function Xor32(x: uint32, y: uint32): uint32 {
    WordPowers();
    XorBits(x as nat, y as nat, 32) as uint32
  }

  function Or8(a: uint8, b: uint8): uint8 {
    WordPowers();
    OrBits(a as nat, b as nat, 8) as uint8
  }

  lemma XorTwice(a: uint8, k: uint8)
    ensures Xor8(Xor8(a, k), k) == a
  {
    hide XorBits;
    WordPowers();
    XorBitsTwice(a as nat, k as nat, 8);
  }

  /** Comparing by collecting differences: nothing collected means no byte
      differed. */
  lemma CollectZero(diff: uint8, a: uint8, b: uint8)
    ensures Or8(diff, Xor8(a, b)) == 0 <==> diff == 0 && a == b
  {
    hide XorBits, OrBits;
    WordPowers();
    XorBitsZero(a as nat, b as nat, 8);
    OrBitsZero(diff as nat, XorBits(a as nat, b as nat, 8), 8);
  }

  lemma XorWithZero(k: uint8)
    ensures Xor8(0, k) == k
  {
    WordPowers();
    XorBitsWithZero(k as nat, 8);
  }

  lemma {:induction false} XorBitsWithZero(k: nat, n: nat)
    requires k < Pow(2, n)
    ensures XorBits(0, k, n) == k
  {
    if n > 0 {
      XorBitsWithZero(k / 2, n - 1);
    }
  }

  /** A chunk of key stream onto a chunk of data; both arrays may be one. */
  method XorChunk(out: array<uint8>, src: array<uint8>, off: nat, n: nat, ks: seq<uint8>)
    requires off + n <= out.Length && off + n <= src.Length && n <= |ks|
    modifies out
    ensures forall i :: 0 <= i < out.Length && !(off <= i < off + n) ==> out[i] == old(out[i])
    ensures forall i :: off <= i < off + n ==> out[i] == Xor8(old(src[i]), ks[i - off])
  {
    hide Xor8;
    for i := 0 to n
      invariant forall k :: 0 <= k < out.Length && !(off <= k < off + i) ==> out[k] == old(out[k])
      invariant forall k :: off <= k < off + i ==> out[k] == Xor8(old(src[k]), ks[k - off])
    {
      assert src[off + i] == old(src[off + i]);
      out[off + i] := Xor8(src[off + i], ks[i]);
    }
  }
}
