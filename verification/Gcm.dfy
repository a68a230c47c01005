/** Galois/Counter Mode (tools/zz9k-crypto-soft.c) against sections 7.1 and
    7.2 of NIST SP 800-38D, over an arbitrary block cipher. */
module Gcm {
  import opened Words
  import opened Options
  import opened Bitwise
  import opened Gf128
  import opened Ghash

  type Block = b: seq<uint8> | |b| == 16 witness seq(16, _ => 0)

  /** The forward block cipher under some key. */
  type Cipher = Block -> Block

  const ZERO_BLOCK: Block := seq(16, _ => 0)

  /** zz9k_aes_init: 16 or 32 key bytes, expanded by some key schedule. */
  function Init(schedule: seq<uint8> -> Cipher, key: seq<uint8>): Option<Cipher> {
    if |key| == 16 || |key| == 32 then Some(schedule(key)) else None
  }

  // ----- the mode -----

  /** J0 with its counter field set: the nonce and four counter bytes. */
  function CounterBlock(nonce: seq<uint8>, counter: uint32): Block
    requires |nonce| == 12
  {
    nonce + BeBytes(counter)
  }

  /** inc32, n times from a start value. */
  function CounterAt(start: uint32, n: nat): uint32 {
    ((start as int + n) % 0x1_0000_0000) as uint32
  }

  /** Byte i of the key stream: counting starts at inc32(J0). */
  function KeyByte(e: Cipher, nonce: seq<uint8>, i: nat): uint8
    requires |nonce| == 12
  {
    e(CounterBlock(nonce, CounterAt(2, i / 16)))[i % 16]
  }

  /** GCTR. */
  function Crypt(e: Cipher, nonce: seq<uint8>, data: seq<uint8>): (r: seq<uint8>)
    requires |nonce| == 12
    ensures |r| == |data|
  {
    seq(|data|, i requires 0 <= i < |data| => Xor8(data[i], KeyByte(e, nonce, i)))
  }

  /** The counter mode undoes itself. */
  lemma CryptTwice(e: Cipher, nonce: seq<uint8>, data: seq<uint8>)
    requires |nonce| == 12
    ensures Crypt(e, nonce, Crypt(e, nonce, data)) == data
  {
    hide Xor8, KeyByte;
    var c := Crypt(e, nonce, data);
    var d := Crypt(e, nonce, c);
    forall i | 0 <= i < |data|
      ensures d[i] == data[i]
    {
      XorTwice(data[i], KeyByte(e, nonce, i));
    }
  }

  /** A bit count as eight bytes, most significant first. */
  function Be64(n: nat): (b: seq<uint8>)
    requires n < 0x1_0000_0000_0000_0000
    ensures |b| == 8
  {
    BeBytes((n / 0x1_0000_0000) as uint32) + BeBytes((n % 0x1_0000_0000) as uint32)
  }

  /** len(A) || len(C) as the standard has it, in bits. */
  function LengthBlock(aadLength: nat, length: nat): Block
    requires aadLength < 0x1_0000_0000 && length < 0x1_0000_0000
  {
    Be64(8 * aadLength) + Be64(8 * length)
  }

  /** The code multiplies by eight in 32 bits and writes zero high words. */
  function CodedLengthBlock(aadLength: uint32, length: uint32): Block {
    BeBytes(0) + BeBytes(Shl32(aadLength, 8)) + BeBytes(0) + BeBytes(Shl32(length, 8))
  }

  lemma BeBytesInjective(v: uint32, w: uint32)
    ensures BeBytes(v) == BeBytes(w) ==> v == w
  {}

  lemma SameTail(a: seq<uint8>, b: seq<uint8>, c: seq<uint8>, d: seq<uint8>)
    requires |a| == |c|
    ensures a + b == c + d ==> a == c && b == d
  {
    assert (a + b)[..|a|] == a && (c + d)[..|a|] == c && (a + b)[|a|..] == b && (c + d)[|a|..] == d;
  }

  lemma HalfBlock(n: uint32)
    ensures BeBytes(0) + BeBytes(Shl32(n, 8)) == Be64(8 * n as int) <==> n < 0x2000_0000
  {
    var m := 8 * n as int;
    var hi, lo := (m / 0x1_0000_0000) as uint32, (m % 0x1_0000_0000) as uint32;
    assert Shl32(n, 8) == lo;
    hide BeBytes;
    SameTail(BeBytes(0), BeBytes(lo), BeBytes(hi), BeBytes(lo));
    BeBytesInjective(0, hi);
  }

  /** It is the standard's length block exactly for lengths below 2^29. */
  lemma LengthBlockExact(aadLength: uint32, length: uint32)
    ensures CodedLengthBlock(aadLength, length) == LengthBlock(aadLength as nat, length as nat)
            <==> aadLength < 0x2000_0000 && length < 0x2000_0000
  {
    HalfBlock(aadLength);
    HalfBlock(length);
    hide BeBytes, Be64, Shl32;
    var a, b := BeBytes(0) + BeBytes(Shl32(aadLength, 8)), BeBytes(0) + BeBytes(Shl32(length, 8));
    assert CodedLengthBlock(aadLength, length) == a + b;
    SameTail(a, b, Be64(8 * aadLength as int), Be64(8 * length as int));
  }

  lemma WholeBlocks(m: nat, n: nat)
    requires m % 16 == 0 && n % 16 == 0
    ensures (m + n) % 16 == 0 && (m + n + 16) % 16 == 0
  {}

  /** The tag of a ciphertext, for some block with the lengths. */
  function TagWith(e: Cipher, nonce: seq<uint8>, aad: seq<uint8>, ciphertext: seq<uint8>, lengths: Block): (t: Poly)
    requires |nonce| == 12
    ensures |t| == N
  {
    var h := Bits(e(ZERO_BLOCK));
    var data := Pad16(aad) + Pad16(ciphertext) + lengths;
    WholeBlocks(|Pad16(aad)|, |Pad16(ciphertext)|);
    Add(Hash(Zeros(N), h, data), Bits(e(CounterBlock(nonce, 1))))
  }

  /** The tag the standard defines. */
  function Tag(e: Cipher, nonce: seq<uint8>, aad: seq<uint8>, ciphertext: seq<uint8>): Poly
    requires |nonce| == 12 && |aad| < 0x1_0000_0000 && |ciphertext| < 0x1_0000_0000
  {
    TagWith(e, nonce, aad, ciphertext, LengthBlock(|aad|, |ciphertext|))
  }

  /** The tag the code computes. */
  function CodedTag(e: Cipher, nonce: seq<uint8>, aad: seq<uint8>, ciphertext: seq<uint8>): Poly
    requires |nonce| == 12 && |aad| < 0x1_0000_0000 && |ciphertext| < 0x1_0000_0000
  {
    TagWith(e, nonce, aad, ciphertext, CodedLengthBlock(|aad| as uint32, |ciphertext| as uint32))
  }

  lemma CodedTagIsTag(e: Cipher, nonce: seq<uint8>, aad: seq<uint8>, ciphertext: seq<uint8>)
    requires |nonce| == 12 && |aad| < 0x2000_0000 && |ciphertext| < 0x2000_0000
    ensures CodedTag(e, nonce, aad, ciphertext) == Tag(e, nonce, aad, ciphertext)
  {
    LengthBlockExact(|aad| as uint32, |ciphertext| as uint32);
  }

  /** The block that is the polynomial 1. */
  function OneBlock(): (b: Block)
    ensures Bits(b) == [true] + Zeros(N - 1)
  {
    var b: Block := [0x80] + seq(15, _ => 0);
    OneBits(b);
    b
  }

  lemma OneBits(b: Block)
    requires b == [0x80] + seq(15, _ => 0)
    ensures Bits(b) == [true] + Zeros(N - 1)
  {
    forall i | 0 <= i < N
      ensures Bits(b)[i] == (i == 0)
    {
      BitAt(b, i);
      BitOfByte(b[i / 8], 7 - i % 8);
    }
  }

  lemma BitOfByte(v: uint8, t: nat)
    requires (v == 0 || v == 0x80) && t < 8
    ensures Bit(v as nat, t) == if v == 0x80 && t == 7 then 1 else 0
  {
    if v == 0 {
      assert 0 / Pow(2, t) == 0 by { PowPositive(2, t); }
    } else {
      assert Pow(2, 1) == 2 && Pow(2, 2) == 4 && Pow(2, 3) == 8 && Pow(2, 4) == 16;
      assert Pow(2, 5) == 32 && Pow(2, 6) == 64 && Pow(2, 7) == 128;
    }
  }

  /** With the hash key 1, the last block enters the hash as it is. */
  lemma LastBlockShows(y: Poly, s: seq<uint8>, block: Block)
    requires |y| == N && |s| % 16 == 0
    ensures |s + block| % 16 == 0
    ensures Hash(y, [true] + Zeros(N - 1), s + block) == Add(Hash(y, [true] + Zeros(N - 1), s), Bits(block))
  {
    hide Product, Bits;
    var one, all := [true] + Zeros(N - 1), s + block;
    assert all[..|all| - 16] == s && all[|all| - 16..] == block;
    TimesOne(Add(Hash(y, one, s), Bits(block)));
  }

  ghost predicate Undoes(d: Cipher, e: Cipher) {
    forall b: Block :: d(e(b)) == b && e(d(b)) == b
  }

  /** The cipher can be undone, as under every key. */
  ghost predicate Permutes(e: Cipher) {
    exists d: Cipher :: Undoes(d, e)
  }

  /** The permutation that exchanges the zero block and the block 1. */
  function Exchange(): (e: Cipher) {
    (b: Block) => if b == ZERO_BLOCK then OneBlock() else if b == OneBlock() then ZERO_BLOCK else b
  }

  lemma ExchangePermutes()
    ensures Permutes(Exchange()) && Exchange()(ZERO_BLOCK) == OneBlock()
  {
    hide OneBlock;
    assert Undoes(Exchange(), Exchange());
  }

  /** The coded tag is the standard's under every permutation of the blocks
      exactly when both lengths are below 2^29. */
  lemma CodedTagExact(nonce: seq<uint8>, aad: seq<uint8>, ciphertext: seq<uint8>)
    requires |nonce| == 12 && |aad| < 0x1_0000_0000 && |ciphertext| < 0x1_0000_0000
    ensures (forall e: Cipher :: Permutes(e) ==>
              CodedTag(e, nonce, aad, ciphertext) == Tag(e, nonce, aad, ciphertext))
            <==> |aad| < 0x2000_0000 && |ciphertext| < 0x2000_0000
  {
    hide CodedLengthBlock, LengthBlock, Hash, Bits, Pad16, CounterBlock, Exchange, Permutes;
    LengthBlockExact(|aad| as uint32, |ciphertext| as uint32);
    if CodedLengthBlock(|aad| as uint32, |ciphertext| as uint32) != LengthBlock(|aad|, |ciphertext|) {
      var e := Exchange();
      ExchangePermutes();
      TagsDiffer(e, nonce, aad, ciphertext, CodedLengthBlock(|aad| as uint32, |ciphertext| as uint32),
                 LengthBlock(|aad|, |ciphertext|));
      assert CodedTag(e, nonce, aad, ciphertext) != Tag(e, nonce, aad, ciphertext);
    }
  }

  /** With hash key 1 every length block gives another tag. */
  lemma TagsDiffer(e: Cipher, nonce: seq<uint8>, aad: seq<uint8>, ciphertext: seq<uint8>, l: Block, m: Block)
    requires |nonce| == 12 && l != m && e(ZERO_BLOCK) == OneBlock()
    ensures TagWith(e, nonce, aad, ciphertext, l) != TagWith(e, nonce, aad, ciphertext, m)
  {
    hide Hash, Bits, Pad16, CounterBlock;
    var s, one := Pad16(aad) + Pad16(ciphertext), [true] + Zeros(N - 1);
    WholeBlocks(|Pad16(aad)|, |Pad16(ciphertext)|);
    LastBlockShows(Zeros(N), s, l);
    LastBlockShows(Zeros(N), s, m);
    if TagWith(e, nonce, aad, ciphertext, l) == TagWith(e, nonce, aad, ciphertext, m) {
      var x := Hash(Zeros(N), one, s);
      AddCancels(Add(x, Bits(l)), Add(x, Bits(m)), Bits(e(CounterBlock(nonce, 1))));
      AddCancels(Bits(l), Bits(m), x);
      BitsInjective(l, m);
    }
  }

  lemma AddCancels(a: Poly, b: Poly, c: Poly)
    requires |a| == |b| == |c|
    ensures Add(a, c) == Add(b, c) ==> a == b
    ensures Add(c, a) == Add(c, b) ==> a == b
  {
    if Add(a, c) == Add(b, c) || Add(c, a) == Add(c, b) {
      forall i | 0 <= i < |a|
        ensures a[i] == b[i]
      {
        assert Add(a, c)[i] == Add(b, c)[i] || Add(c, a)[i] == Add(c, b)[i];
      }
    }
  }

  // ----- the code -----

  /** zz9k_put_be32_local. */
  method PutBe32(p: array<uint8>, off: nat, v: uint32)
    requires off + 4 <= p.Length
    modifies p
    ensures p[..] == old(p[..off]) + BeBytes(v) + old(p[off + 4..])
  {
    ghost var before := p[..];
    p[off] := (v as int / 0x100_0000) as uint8;
    p[off + 1] := (v as int / 0x1_0000 % 0x100) as uint8;
    p[off + 2] := (v as int / 0x100 % 0x100) as uint8;
    p[off + 3] := (v as int % 0x100) as uint8;
    assert p[..] == before[..off] + BeBytes(v) + before[off + 4..];
  }

  /** Reading the counter field back. */
  function GetBe32(p: seq<uint8>, off: nat): (v: uint32)
    requires off + 4 <= |p|
    ensures v as nat == BeValue(p[off..off + 4])
  {
    BeOfFour(p[off..off + 4]);
    (p[off] as int * 0x100_0000 + p[off + 1] as int * 0x1_0000 + p[off + 2] as int * 0x100
     + p[off + 3] as int) as uint32
  }

  /** The slice of `Crypt` that one cipher block covers. */
  lemma CryptChunk(e: Cipher, nonce: seq<uint8>, data: seq<uint8>, n: nat, i: nat)
    requires |nonce| == 12 && i < 16 && n * 16 + i < |data|
    ensures Crypt(e, nonce, data)[n * 16 + i] == Xor8(data[n * 16 + i], e(CounterBlock(nonce, CounterAt(2, n)))[i])
  {
    hide CounterBlock, Xor8;
    assert (n * 16 + i) / 16 == n && (n * 16 + i) % 16 == i;
  }

  /** inc32 on the last four bytes of a counter block. */
  method Increment(counter: array<uint8>, ghost nonce: seq<uint8>, ghost value: uint32)
    requires counter.Length == 16 && |nonce| == 12 && counter[..] == CounterBlock(nonce, value)
    modifies counter
    ensures counter[..] == CounterBlock(nonce, CounterAt(value, 1))
  {
    var ctr := GetBe32(counter[..], 12);
    assert counter[12..16] == BeBytes(value);
    assert ctr == value;
    PutBe32(counter, 12, ((ctr as int + 1) % 0x1_0000_0000) as uint32);
  }

  /** The counter-mode pass from `src` to `out`, which may be one array. */
  method CounterPass(e: Cipher, nonce: seq<uint8>, src: array<uint8>, out: array<uint8>, length: nat)
    requires |nonce| == 12 && length <= src.Length && length <= out.Length && length < 0x1_0000_0000
    modifies out
    ensures out[..length] == Crypt(e, nonce, old(src[..length]))
    ensures out[length..] == old(out[length..])
  {
    hide CounterBlock, Xor8, Crypt, KeyByte;
    var counter := new uint8[16];
    SetJ0(counter, nonce);
    var off := 0;
    ghost var n, value: uint32 := 0, 1;
    ghost var data := src[..length];
    ghost var want := Crypt(e, nonce, data);
    while off < length
      invariant off == if n * 16 < length then n * 16 else length
      invariant value == CounterAt(1, n)
      invariant counter[..] == CounterBlock(nonce, value)
      invariant forall k :: 0 <= k < off ==> out[k] == want[k]
      invariant forall k :: length <= k < out.Length ==> out[k] == old(out[k])
      invariant forall k :: off <= k < length ==> src[k] == data[k]
      decreases length - off
    {
      var chunk := length - off;
      if chunk > 16 {
        chunk := 16;
      }
      Increment(counter, nonce, value);
      value := CounterAt(value, 1);
      assert value == CounterAt(2, n);
      var ks := e(counter[..]);
      ghost var before := src[..];
      XorChunk(out, src, off, chunk, ks);
      forall k | off <= k < off + chunk
        ensures out[k] == want[k]
      {
        CryptChunk(e, nonce, data, n, k - off);
        assert before[k] == data[k];
      }
      off := off + chunk;
      n := n + 1;
    }
    assert out[..length] == want;
  }

  method SetJ0(j0: array<uint8>, nonce: seq<uint8>)
    requires j0.Length == 16 && |nonce| == 12
    modifies j0
    ensures j0[..] == CounterBlock(nonce, 1)
  {
    for i := 0 to 12
      invariant j0[..i] == nonce[..i]
    {
      j0[i] := nonce[i];
    }
    j0[12], j0[13], j0[14], j0[15] := 0, 0, 0, 1;
    assert j0[..] == nonce + [0, 0, 0, 1];
  }

  /** zz9k_aes_gcm_core: the tag is over the ciphertext, which is what `ct`
      holds before the pass when hashing first, after it otherwise. */
  method Core(e: Cipher, nonce: seq<uint8>, aad: seq<uint8>, src: array<uint8>, out: array<uint8>, length: nat,
              ct: array<uint8>, tag: array<uint8>, ghashFirst: bool)
    requires |nonce| == 12 && |aad| < 0x1_0000_0000 && length < 0x1_0000_0000
    requires length <= src.Length && length <= out.Length && tag.Length == 16 && tag != out
    requires ct == if ghashFirst then src else out
    modifies out, tag
    ensures out[..length] == Crypt(e, nonce, old(src[..length]))
    ensures out[length..] == old(out[length..])
    ensures Bits(tag[..]) == CodedTag(e, nonce, aad, if ghashFirst then old(src[..length]) else out[..length])
  {
    hide CounterBlock, Crypt, Bits, Hash, Pad16, CodedTag;
    var h, y := HashKey(e);
    ghost var ya := Hash(Zeros(N), Bits(h), Pad16(aad));
    Update(y, h, aad);
    ghost var hashed := src[..length];
    if ghashFirst {
      Update(y, h, ct[..length]);
    }
    CounterPass(e, nonce, src, out, length);
    if !ghashFirst {
      hashed := out[..length];
      Update(y, h, ct[..length]);
    }
    FinishTag(e, nonce, tag, y, h, aad, hashed, length, |aad| as uint32);
  }

  /** H and the cleared accumulator. */
  method HashKey(e: Cipher) returns (h: Block, y: array<uint8>)
    ensures h == e(ZERO_BLOCK) && fresh(y) && y.Length == 16 && Bits(y[..]) == Zeros(N)
  {
    var zero := new uint8[16](_ => 0);
    assert zero[..] == ZERO_BLOCK;
    h := e(zero[..]);
    y := new uint8[16](_ => 0);
    BitsOfZeros(16);
    assert y[..] == ZERO_BLOCK;
  }

  /** The length block goes in, and the hash is masked with E(J0). */
  method FinishTag(e: Cipher, nonce: seq<uint8>, tag: array<uint8>, y: array<uint8>, h: Block,
                   ghost aad: seq<uint8>, ghost hashed: seq<uint8>, length: nat, aadLength: uint32)
    requires |nonce| == 12 && |aad| == aadLength as int && |hashed| == length < 0x1_0000_0000
    requires tag.Length == y.Length == 16 && y != tag && h == e(ZERO_BLOCK)
    requires Bits(y[..]) == Hash(Hash(Zeros(N), Bits(h), Pad16(aad)), Bits(h), Pad16(hashed))
    modifies tag, y
    ensures Bits(tag[..]) == CodedTag(e, nonce, aad, hashed)
  {
    hide CounterBlock, Bits, Hash, Pad16, CodedLengthBlock;
    var lengths := WriteLengths(aadLength, length as uint32);
    XorInto(y, lengths);
    MulInPlace(y, h);
    WholeBlocks(|Pad16(aad)|, |Pad16(hashed)|);
    HashInParts(Bits(h), aad, hashed, lengths, Pad16(aad) + Pad16(hashed) + lengths);
    var j0 := new uint8[16];
    SetJ0(j0, nonce);
    Mask(tag, y[..], e(j0[..]));
  }

  /** Three parts hashed one after another. */
  lemma HashInParts(h: Poly, aad: seq<uint8>, ct: seq<uint8>, lengths: Block, all: seq<uint8>)
    requires |h| == N && all == Pad16(aad) + Pad16(ct) + lengths && |all| % 16 == 0
    ensures Product(Add(Hash(Hash(Zeros(N), h, Pad16(aad)), h, Pad16(ct)), Bits(lengths)), h) == Hash(Zeros(N), h, all)
  {
    hide Hash, Pad16, Product, Add, Bits;
    var a, c := Pad16(aad), Pad16(ct);
    WholeBlocks(|a|, |c|);
    HashAppend(Zeros(N), h, a, c, a + c);
    HashStep(Zeros(N), h, a + c, lengths, all);
  }

  method WriteLengths(aadLength: uint32, length: uint32) returns (lengths: Block)
    ensures lengths == CodedLengthBlock(aadLength, length)
  {
    hide BeBytes;
    var lenblk := new uint8[16];
    PutBe32(lenblk, 0, 0);
    PutBe32(lenblk, 4, Shl32(aadLength, 8));
    PutBe32(lenblk, 8, 0);
    PutBe32(lenblk, 12, Shl32(length, 8));
    lengths := lenblk[..];
  }

  /** Tag = GHASH ^ E(J0). */
  method Mask(tag: array<uint8>, y: seq<uint8>, ks: Block)
    requires tag.Length == 16 && |y| == 16
    modifies tag
    ensures Bits(tag[..]) == Add(Bits(y), Bits(ks))
  {
    hide Bits, Xor8;
    for i := 0 to 16
      invariant tag[..i] == XorSeq(y, ks)[..i]
    {
      tag[i] := Xor8(y[i], ks[i]);
    }
    assert tag[..] == tag[..16] == XorSeq(y, ks);
    BitsXor(y, ks);
  }

  /** zz9k_soft_aes_gcm_encrypt; `plaintext` may be `ciphertext`. */
  method Encrypt(schedule: seq<uint8> -> Cipher, key: seq<uint8>, ciphertext: array<uint8>, tag: array<uint8>,
                 plaintext: array<uint8>, length: nat,
                 aad: seq<uint8>, nonce: seq<uint8>) returns (ok: bool)
    requires |nonce| == 12 && |aad| < 0x1_0000_0000 && length < 0x1_0000_0000
    requires length <= plaintext.Length && length <= ciphertext.Length && tag.Length == 16 && tag != ciphertext
    modifies ciphertext, tag
    ensures ok <==> |key| == 16 || |key| == 32
    ensures !ok ==> ciphertext[..] == old(ciphertext[..]) && tag[..] == old(tag[..])
    ensures ok ==> ciphertext[..length] == Crypt(schedule(key), nonce, old(plaintext[..length]))
    ensures ok ==> ciphertext[length..] == old(ciphertext[length..])
    ensures ok ==> Bits(tag[..]) == CodedTag(schedule(key), nonce, aad, ciphertext[..length])
  {
    hide CodedTag, Crypt, Bits;
    var aes := Init(schedule, key);
    if aes.None? {
      return false;
    }
    Core(aes.value, nonce, aad, plaintext, ciphertext, length, ciphertext, tag, false);
    return true;
  }

  /** zz9k_soft_aes_gcm_decrypt; `ciphertext` may be `plaintext`. A wrong tag
      leaves zeros. */
  method Decrypt(schedule: seq<uint8> -> Cipher, key: seq<uint8>, plaintext: array<uint8>,
                 ciphertext: array<uint8>, length: nat,
                 aad: seq<uint8>, tag: seq<uint8>, nonce: seq<uint8>) returns (ok: bool)
    requires |nonce| == 12 && |aad| < 0x1_0000_0000 && length < 0x1_0000_0000
    requires length <= plaintext.Length && length <= ciphertext.Length && |tag| == 16
    modifies plaintext
    ensures ok <==>
            (|key| == 16 || |key| == 32)
            && Bits(tag) == CodedTag(schedule(key), nonce, aad, old(ciphertext[..length]))
    ensures ok ==> plaintext[..length] == Crypt(schedule(key), nonce, old(ciphertext[..length]))
    ensures !ok && (|key| == 16 || |key| == 32) ==> plaintext[..length] == seq(length, _ => 0)
    ensures |key| != 16 && |key| != 32 ==> plaintext[..] == old(plaintext[..])
    ensures plaintext[length..] == old(plaintext[length..])
  {
    hide CodedTag, Crypt, Bits, Or8, Xor8;
    var aes := Init(schedule, key);
    if aes.None? {
      return false;
    }
    var expected := new uint8[16];
    Core(aes.value, nonce, aad, ciphertext, plaintext, length, ciphertext, expected, true);
    ghost var right, result := expected[..], plaintext[..];
    var diff: uint8 := 0;
    for i := 0 to 16
      invariant diff == 0 <==> expected[..i] == tag[..i]
      modifies {}
    {
      CollectZero(diff, expected[i], tag[i]);
      diff := Or8(diff, Xor8(expected[i], tag[i]));
      assert expected[..i + 1] == expected[..i] + [expected[i]] && tag[..i + 1] == tag[..i] + [tag[i]];
    }
    assert expected[..16] == right && tag[..16] == tag;
    if Bits(right) == Bits(tag) {
      BitsInjective(right, tag);
    }
    if diff != 0 {
      for i := 0 to length
        invariant forall k :: 0 <= k < i ==> plaintext[k] == 0
        invariant plaintext[length..] == result[length..]
      {
        plaintext[i] := 0;
      }
      return false;
    }
    assert plaintext[..] == result;
    return true;
  }

  /** Encrypting and decrypting in place brings the data back. */
  method InPlaceRoundTrip(schedule: seq<uint8> -> Cipher, key: seq<uint8>, data: array<uint8>, tag: array<uint8>,
                          length: nat, aad: seq<uint8>, nonce: seq<uint8>)
    returns (ok: bool)
    requires |key| == 16 || |key| == 32
    requires |nonce| == 12 && |aad| < 0x1_0000_0000 && length < 0x1_0000_0000
    requires length <= data.Length && tag.Length == 16 && tag != data
    modifies data, tag
    ensures ok && data[..] == old(data[..])
  {
    hide CodedTag, Crypt, Bits;
    ghost var plain := data[..length];
    var sealed := Encrypt(schedule, key, data, tag, data, length, aad, nonce);
    ok := Decrypt(schedule, key, data, data, length, aad, tag[..], nonce);
    CryptTwice(schedule(key), nonce, plain);
    assert data[..] == data[..length] + data[length..];
  }
}
