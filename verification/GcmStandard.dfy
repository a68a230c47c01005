/** Galois/Counter Mode step by step as NIST SP 800-38D has it, and that the
    mode this model computes is that. */
module GcmStandard {
  import opened Words
  import opened ModArith
  import opened Bitwise
  import opened Gf128
  import opened Ghash
  import opened Gcm

  /** Section 6.2: the last four bytes count up modulo 2^32. */
  function Inc32(x: Block): Block {
    x[..12] + BeBytes(((BeValue(x[12..]) + 1) % 0x1_0000_0000) as uint32)
  }

  /** Section 6.5: block after block, the last one possibly shorter. */
  function Gctr(e: Cipher, counter: Block, data: seq<uint8>): (r: seq<uint8>)
    ensures |r| == |data|
    decreases |data|
  {
    if |data| <= 16 then XorSeq(data, e(counter)[..|data|])
    else XorSeq(data[..16], e(counter)) + Gctr(e, Inc32(counter), data[16..])
  }

  /** The nonce, 31 zero bits and a one bit. */
  function J0(nonce: seq<uint8>): Block
    requires |nonce| == 12
  {
    nonce + [0, 0, 0, 1]
  }

  /** What is hashed in step 5 of section 7.1. */
  function HashInput(aad: seq<uint8>, ciphertext: seq<uint8>): seq<uint8> {
    aad + ZeroPad(|aad|) + ciphertext + ZeroPad(|ciphertext|) + BigEndian(8 * |aad|, 8) + BigEndian(8 * |ciphertext|, 8)
  }

  // ----- counters -----

  lemma CounterFollows(nonce: seq<uint8>, value: uint32)
    requires |nonce| == 12
    ensures Inc32(CounterBlock(nonce, value)) == CounterBlock(nonce, CounterAt(value, 1))
  {
    hide BeBytes;
    var block := CounterBlock(nonce, value);
    assert block[..12] == nonce && block[12..] == BeBytes(value);
  }

  lemma FirstCounter(nonce: seq<uint8>)
    requires |nonce| == 12
    ensures J0(nonce) == CounterBlock(nonce, 1)
  {}

  lemma CountersAdd(start: uint32, n: nat)
    ensures CounterAt(CounterAt(start, 1), n) == CounterAt(start, n + 1)
  {
    var m := 0x1_0000_0000;
    CongMod(start as int + 1, m);
    CongAdd((start as int + 1) % m, start as int + 1, n, n, m);
  }

  // ----- the mode -----

  /** The key stream from some counter on. */
  function CryptFrom(e: Cipher, nonce: seq<uint8>, start: uint32, data: seq<uint8>): (r: seq<uint8>)
    requires |nonce| == 12
    ensures |r| == |data|
  {
    seq(|data|, i requires 0 <= i < |data| =>
      Xor8(data[i], e(CounterBlock(nonce, CounterAt(start, i / 16)))[i % 16]))
  }

  lemma CryptFromStep(e: Cipher, nonce: seq<uint8>, start: uint32, data: seq<uint8>)
    requires |nonce| == 12 && |data| > 16
    ensures CryptFrom(e, nonce, start, data)
            == CryptFrom(e, nonce, start, data[..16]) + CryptFrom(e, nonce, CounterAt(start, 1), data[16..])
  {
    hide CounterBlock, CounterAt, Xor8;
    forall i | 16 <= i < |data|
      ensures CryptFrom(e, nonce, start, data)[i] == CryptFrom(e, nonce, CounterAt(start, 1), data[16..])[i - 16]
    {
      CountersAdd(start, (i - 16) / 16);
      assert i / 16 == (i - 16) / 16 + 1 && i % 16 == (i - 16) % 16;
    }
  }

  lemma OneBlock(e: Cipher, nonce: seq<uint8>, start: uint32, data: seq<uint8>)
    requires |nonce| == 12 && |data| <= 16
    ensures CryptFrom(e, nonce, start, data) == XorSeq(data, e(CounterBlock(nonce, start))[..|data|])
  {
    hide CounterBlock, Xor8;
    ModSmall(start as int, 0x1_0000_0000);
    assert CounterAt(start, 0) == start;
  }

  lemma {:induction false} GctrIsCryptFrom(e: Cipher, nonce: seq<uint8>, start: uint32, data: seq<uint8>)
    requires |nonce| == 12
    ensures Gctr(e, CounterBlock(nonce, start), data) == CryptFrom(e, nonce, start, data)
    decreases |data|
  {
    hide CryptFrom, CounterBlock, CounterAt, Inc32, XorSeq;
    if |data| <= 16 {
      OneBlock(e, nonce, start, data);
    } else {
      CounterFollows(nonce, start);
      GctrIsCryptFrom(e, nonce, CounterAt(start, 1), data[16..]);
      CryptFromStep(e, nonce, start, data);
      OneBlock(e, nonce, start, data[..16]);
      var block := e(CounterBlock(nonce, start));
      assert block[..16] == block;
    }
  }

  /** Step 3 of section 7.1: the ciphertext is GCTR from the counter after J0. */
  lemma CryptIsGctr(e: Cipher, nonce: seq<uint8>, data: seq<uint8>)
    requires |nonce| == 12
    ensures Crypt(e, nonce, data) == Gctr(e, Inc32(J0(nonce)), data)
  {
    hide Gctr, CounterBlock, Inc32, J0, Xor8;
    FirstCounter(nonce);
    CounterFollows(nonce, 1);
    SecondCounter();
    GctrIsCryptFrom(e, nonce, 2, data);
    assert Crypt(e, nonce, data) == CryptFrom(e, nonce, 2, data);
  }

  lemma SecondCounter()
    ensures CounterAt(1, 1) == 2
  {}

  // ----- the tag -----

  lemma Be64Is(n: nat)
    requires n < 0x1_0000_0000_0000_0000
    ensures Be64(n) == BigEndian(n, 8)
  {
    assert Pow(0x100, 8) == 0x1_0000_0000_0000_0000;
    BigEndianValue(n, 8);
    Be64Value(n);
    hide Pow, BeValue, BigEndian, Be64;
    BeInjective(Be64(n), BigEndian(n, 8));
  }

  lemma Be64Value(n: nat)
    requires n < 0x1_0000_0000_0000_0000
    ensures BeValue(Be64(n)) == n
  {
    var hi, lo := (n / 0x1_0000_0000) as uint32, (n % 0x1_0000_0000) as uint32;
    hide BeValue, BeBytes;
    BeAppend(BeBytes(hi), BeBytes(lo));
    assert Pow(0x100, 4) == 0x1_0000_0000;
  }

  lemma HashInputIs(aad: seq<uint8>, ciphertext: seq<uint8>)
    requires |aad| < 0x1_0000_0000 && |ciphertext| < 0x1_0000_0000
    ensures Pad16(aad) + Pad16(ciphertext) + LengthBlock(|aad|, |ciphertext|) == HashInput(aad, ciphertext)
    ensures |HashInput(aad, ciphertext)| % 16 == 0
  {
    hide Pad16, ZeroPad, Be64, BigEndian;
    WholeBlocks(|Pad16(aad)|, |Pad16(ciphertext)|);
    PadIsZeroPad(aad);
    PadIsZeroPad(ciphertext);
    Be64Is(8 * |aad|);
    Be64Is(8 * |ciphertext|);
  }

  /** Steps 4 to 6 of section 7.1: the tag is GCTR from J0 of the hash. */
  lemma TagIsGctr(e: Cipher, nonce: seq<uint8>, aad: seq<uint8>, ciphertext: seq<uint8>, s: Block)
    requires |nonce| == 12 && |aad| < 0x1_0000_0000 && |ciphertext| < 0x1_0000_0000
    requires |HashInput(aad, ciphertext)| % 16 == 0
    requires Bits(s) == Hash(Zeros(N), Bits(e(seq(16, _ => 0))), HashInput(aad, ciphertext))
    ensures Bits(Gctr(e, J0(nonce), s)) == Tag(e, nonce, aad, ciphertext)
  {
    hide Hash, Bits, Pad16, HashInput, CounterBlock, LengthBlock;
    HashInputIs(aad, ciphertext);
    FirstCounter(nonce);
    var mask := e(CounterBlock(nonce, 1));
    assert mask[..16] == mask;
    BitsXor(s, mask);
  }
}
