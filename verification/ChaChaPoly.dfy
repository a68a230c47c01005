/** The ChaCha20-Poly1305 AEAD (tools/zz9k-crypto-soft.c) against section 2.8
    of RFC 8439. */
module ChaChaPoly {
  import opened Words
  import opened ModArith
  import opened Poly1305Spec
  import opened Poly1305
  import opened Bitwise
  import opened ChaCha20

  // ----- the construction of section 2.8 -----

  /** A length as eight bytes, least significant first. */
  function Le64(n: nat): (b: seq<uint8>)
    requires n < 0x1_0000_0000_0000_0000
    ensures |b| == 8 && LeValue(b) == n
  {
    var lo, hi := (n % 0x1_0000_0000) as uint32, (n / 0x1_0000_0000) as uint32;
    var b := Bytes32(lo) + Bytes32(hi);
    LeValueAppend(Bytes32(lo), Bytes32(hi));
    assert Pow(0x100, 4) == 0x1_0000_0000;
    b
  }

  /** The bytes that are authenticated. */
  function MacData(aad: seq<uint8>, ciphertext: seq<uint8>): seq<uint8>
    requires |aad| < 0x1_0000_0000 && |ciphertext| < 0x1_0000_0000
  {
    Pad16(aad) + Pad16(ciphertext) + (Le64(|aad|) + Le64(|ciphertext|))
  }

  /** Section 2.6: the first half of key stream block 0. */
  function OneTimeKey(key: seq<uint8>, nonce: seq<uint8>): (k: seq<uint8>)
    requires |key| == 32 && |nonce| == 12
    ensures |k| == 32
  {
    Block(key, nonce, 0)[..32]
  }

  /** The tag of a ciphertext as a number. */
  function AeadTag(aad: seq<uint8>, ciphertext: seq<uint8>, key: seq<uint8>, nonce: seq<uint8>): nat
    requires |aad| < 0x1_0000_0000 && |ciphertext| < 0x1_0000_0000 && |key| == 32 && |nonce| == 12
  {
    Tag(MacData(aad, ciphertext), OneTimeKey(key, nonce))
  }

  // ----- the code -----

  /** zz9k_soft_poly1305_aead_segment: folding the padded segment. */
  method Segment(st: Poly1305.State, data: seq<uint8>, ghost acc: int)
    requires st.Valid() && Cong(st.Acc(), acc, P1305)
    modifies st.h
    ensures st.Valid() && st.R() == old(st.R()) && st.S() == old(st.S())
    ensures Cong(st.Acc(), Accumulate(acc, st.R(), Blocks(Pad16(data))), P1305)
  {
    hide Radix26, Value5, Words4, LeValue, Clamp, Pow, BlockNumber, Next, Cong;
    var rest := data;
    ghost var at := acc;
    while |rest| >= 16
      invariant st.Valid() && st.R() == old(st.R()) && st.S() == old(st.S())
      invariant Cong(st.Acc(), at, P1305)
      invariant Accumulate(at, st.R(), Blocks(Pad16(rest))) == Accumulate(acc, st.R(), Blocks(Pad16(data)))
      decreases |rest|
    {
      at := FullStep(st, rest[..16], at);
      PadStep(rest);
      rest := rest[16..];
    }
    if |rest| > 0 {
      var block := new uint8[16](_ => 0);
      forall i | 0 <= i < |rest| {
        block[i] := rest[i];
      }
      assert block[..] == Pad16(rest);
      at := FullStep(st, block[..], at);
    }
  }

  lemma PadLess(data: seq<uint8>)
    requires |data| >= 16
    ensures |Pad16(data)| >= 16 && Pad16(data)[..16] == data[..16] && Pad16(data)[16..] == Pad16(data[16..])
  {
    assert (|data| - 16) % 16 == |data| % 16;
  }

  lemma PadStep(data: seq<uint8>)
    requires |data| >= 16
    ensures Blocks(Pad16(data)) == [data[..16]] + Blocks(Pad16(data[16..]))
  {
    PadLess(data);
    hide Pad16;
    BlocksStep(Pad16(data));
  }

  /** One whole block with the high bit. */
  method FullStep(st: Poly1305.State, block: seq<uint8>, ghost acc: int) returns (ghost next: int)
    requires st.Valid() && Cong(st.Acc(), acc, P1305) && |block| == 16
    modifies st.h
    ensures st.Valid() && st.R() == old(st.R()) && st.S() == old(st.S())
    ensures next == Next(acc, st.R(), block) && Cong(st.Acc(), next, P1305)
  {
    hide Radix26, Value5, Words4, LeValue, Clamp, Pow, BlockNumber, Next, Cong;
    ghost var x := st.Acc();
    st.Block(block, 0x100_0000);
    FullBlock(block);
    NextCong(x, acc, st.R(), block, st.Acc());
    next := Next(acc, st.R(), block);
  }

  /** The three parts of the authenticated bytes, folded one after another. */
  lemma FoldInParts(r: int, aad: seq<uint8>, ciphertext: seq<uint8>, lengths: seq<uint8>)
    requires |lengths| == 16
    ensures Next(Accumulate(Accumulate(0, r, Blocks(Pad16(aad))), r, Blocks(Pad16(ciphertext))), r, lengths)
            == Accumulate(0, r, Blocks(Pad16(aad) + Pad16(ciphertext) + lengths))
  {
    hide Pad16, Next;
    var a, c := Pad16(aad), Pad16(ciphertext);
    BlocksAppend(a + c, lengths);
    BlocksAppend(a, c);
    AccumulateAppend(0, r, Blocks(a) + Blocks(c), [lengths]);
    AccumulateAppend(0, r, Blocks(a), Blocks(c));
    var at := Accumulate(0, r, Blocks(a) + Blocks(c));
    assert [lengths][1..] == [];
    assert Accumulate(at, r, [lengths]) == Accumulate(Next(at, r, lengths), r, []);
  }

  /** The length block: each length in four bytes, then four zero bytes. */
  method LengthBlock(aadLength: nat, length: nat) returns (lengths: array<uint8>)
    requires aadLength < 0x1_0000_0000 && length < 0x1_0000_0000
    ensures fresh(lengths) && lengths[..] == Le64(aadLength) + Le64(length)
  {
    hide Bytes32;
    lengths := new uint8[16];
    ghost var b0, b1, zero := Bytes32(aadLength as uint32), Bytes32(length as uint32), Bytes32(0);
    Store32(lengths, 0, aadLength as uint32);
    assert lengths[..4] == b0;
    Store32(lengths, 4, 0);
    assert lengths[..8] == b0 + zero;
    Store32(lengths, 8, length as uint32);
    assert lengths[..12] == b0 + zero + b1;
    Store32(lengths, 12, 0);
    assert lengths[..] == b0 + zero + (b1 + zero);
    assert aadLength % 0x1_0000_0000 == aadLength && length % 0x1_0000_0000 == length;
    assert aadLength / 0x1_0000_0000 == 0 && length / 0x1_0000_0000 == 0;
  }

  /** The two segments and the length block. */
  method FoldAll(st: Poly1305.State, ciphertext: seq<uint8>, aad: seq<uint8>)
    requires st.Valid() && st.Acc() == 0
    requires |ciphertext| < 0x1_0000_0000 && |aad| < 0x1_0000_0000
    modifies st.h
    ensures st.Valid() && st.R() == old(st.R()) && st.S() == old(st.S())
    ensures Cong(st.Acc(), Accumulate(0, st.R(), Blocks(MacData(aad, ciphertext))), P1305)
  {
    assert Cong(0, 0, P1305);
    hide Radix26, Value5, Words4, Accumulate, Blocks, Pad16, Le64, Next, Cong;
    ghost var r := st.R();
    Segment(st, aad, 0);
    ghost var a := Accumulate(0, r, Blocks(Pad16(aad)));
    Segment(st, ciphertext, a);
    ghost var c := Accumulate(a, r, Blocks(Pad16(ciphertext)));
    var lengths := LengthBlock(|aad|, |ciphertext|);
    ghost var all := FullStep(st, lengths[..], c);
    FoldInParts(r, aad, ciphertext, lengths[..]);
  }

  /** zz9k_soft_chacha20_poly1305_tag: feeding segments gives the tag that
      Poly1305 gives to the whole construction. */
  method ComputeTag(tag: array<uint8>, ciphertext: seq<uint8>, aad: seq<uint8>, key: seq<uint8>, nonce: seq<uint8>)
    requires tag.Length == 16 && |ciphertext| < 0x1_0000_0000 && |aad| < 0x1_0000_0000
    requires |key| == 32 && |nonce| == 12
    modifies tag
    ensures LeValue(tag[..]) == AeadTag(aad, ciphertext, key, nonce)
  {
    hide Radix26, Value5, Words4, LeValue, Clamp, Accumulate, Blocks, MacData, Cong, Block, Crypt, Tag;
    var zeroBlock := new uint8[32](_ => 0);
    var otk := new uint8[64];
    ChaCha20.Xor(otk, zeroBlock, 32, key, nonce, 0);
    ZeroData(zeroBlock[..32], key, nonce);
    var st := new Poly1305.State(otk[..32]);
    ghost var r := st.R();
    FoldAll(st, ciphertext, aad);
    TagFromAccumulator(st.Acc(), r, MacData(aad, ciphertext), OneTimeKey(key, nonce));
    st.Finish(tag);
  }

  lemma TagFromAccumulator(acc: int, r: int, data: seq<uint8>, key: seq<uint8>)
    requires |key| == 32 && r == LeValue(Clamp(key[..16]))
    requires Cong(acc, Accumulate(0, r, Blocks(data)), P1305)
    ensures (acc % P1305 + LeValue(key[16..])) % 0x1_0000_0000_0000_0000_0000_0000_0000_0000 == Tag(data, key)
  {
    hide LeValue, Clamp, Pow, Blocks, Polynomial, Accumulate;
    AccumulateIsPolynomial(0, r, Blocks(data));
  }

  /** Encrypting zeros gives the key stream. */
  lemma ZeroData(zeros: seq<uint8>, key: seq<uint8>, nonce: seq<uint8>)
    requires |zeros| == 32 && |key| == 32 && |nonce| == 12
    requires forall i :: 0 <= i < 32 ==> zeros[i] == 0
    ensures Crypt(zeros, key, nonce, 0) == OneTimeKey(key, nonce)
  {
    hide Block, Xor8;
    forall i | 0 <= i < 32
      ensures Crypt(zeros, key, nonce, 0)[i] == OneTimeKey(key, nonce)[i]
    {
      XorWithZero(KeyByte(key, nonce, 0, i));
    }
  }

  /** zz9k_soft_chacha20_poly1305_encrypt; `plaintext` may be `ciphertext`. */
  method Encrypt(ciphertext: array<uint8>, tag: array<uint8>, plaintext: array<uint8>, length: nat,
                 aad: seq<uint8>, key: seq<uint8>, nonce: seq<uint8>)
    requires length <= ciphertext.Length && length <= plaintext.Length && length < 0x1_0000_0000
    requires tag.Length == 16 && tag != ciphertext && |aad| < 0x1_0000_0000 && |key| == 32 && |nonce| == 12
    modifies ciphertext, tag
    ensures ciphertext[..length] == Crypt(old(plaintext[..length]), key, nonce, 1)
    ensures ciphertext[length..] == old(ciphertext[length..])
    ensures LeValue(tag[..]) == AeadTag(aad, ciphertext[..length], key, nonce)
  {
    hide AeadTag, Crypt, LeValue;
    ChaCha20.Xor(ciphertext, plaintext, length, key, nonce, 1);
    ComputeTag(tag, ciphertext[..length], aad, key, nonce);
  }

  /** zz9k_soft_chacha20_poly1305_decrypt; `ciphertext` may be `plaintext`.
      Nothing is written unless the tag is the right one. */
  method Decrypt(plaintext: array<uint8>, ciphertext: array<uint8>, length: nat,
                 aad: seq<uint8>, tag: seq<uint8>, key: seq<uint8>, nonce: seq<uint8>) returns (ok: bool)
    requires length <= ciphertext.Length && length <= plaintext.Length && length < 0x1_0000_0000
    requires |tag| == 16 && |aad| < 0x1_0000_0000 && |key| == 32 && |nonce| == 12
    modifies plaintext
    ensures ok <==> LeValue(tag) == AeadTag(aad, old(ciphertext[..length]), key, nonce)
    ensures !ok ==> plaintext[..] == old(plaintext[..])
    ensures ok ==> plaintext[..length] == Crypt(old(ciphertext[..length]), key, nonce, 1)
    ensures ok ==> plaintext[length..] == old(plaintext[length..])
  {
    hide AeadTag, Crypt, LeValue, Or8, Xor8;
    ghost var sealed := ciphertext[..length];
    var expected := new uint8[16];
    ComputeTag(expected, ciphertext[..length], aad, key, nonce);
    assert sealed == old(ciphertext[..length]);
    ghost var right := expected[..];
    var diff: uint8 := 0;
    for i := 0 to 16
      invariant diff == 0 <==> expected[..i] == tag[..i]
      modifies {}
    {
      CollectZero(diff, expected[i], tag[i]);
      diff := Or8(diff, Xor8(expected[i], tag[i]));
      assert expected[..i + 1] == expected[..i] + [expected[i]] && tag[..i + 1] == tag[..i] + [tag[i]];
    }
    assert expected[..16] == expected[..] == right && tag[..16] == tag;
    assert ciphertext[..length] == sealed;
    if LeValue(right) == LeValue(tag) {
      LeValueInjective(right, tag);
    }
    if diff != 0 {
      return false;
    }
    ChaCha20.Xor(plaintext, ciphertext, length, key, nonce, 1);
    return true;
  }

  /** Encrypting in place and decrypting in place again: the tag is accepted
      and the data comes back. */
  method InPlaceRoundTrip(data: array<uint8>, tag: array<uint8>, length: nat,
                          aad: seq<uint8>, key: seq<uint8>, nonce: seq<uint8>) returns (ok: bool)
    requires length <= data.Length && length < 0x1_0000_0000
    requires tag.Length == 16 && tag != data && |aad| < 0x1_0000_0000 && |key| == 32 && |nonce| == 12
    modifies data, tag
    ensures ok && data[..] == old(data[..])
  {
    hide AeadTag, Crypt, LeValue;
    ghost var plain, rest := data[..length], data[length..];
    Encrypt(data, tag, data, length, aad, key, nonce);
    ok := Decrypt(data, data, length, aad, tag[..], key, nonce);
    CryptTwice(plain, key, nonce, 1);
    assert data[..] == data[..length] + data[length..];
  }
}
