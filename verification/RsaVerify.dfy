/** RSA PKCS#1 v1.5 signature verification with SHA-256
    (tools/zz9k-crypto-soft.c) against sections 8.2.2 and 9.2 of RFC 8017. */
module RsaVerify {
  import opened Words
  import opened ModArith
  import opened BigNum

  /** The DER prefix of a SHA-256 DigestInfo. */
  const DIGEST_INFO: seq<uint8> := [
    0x30, 0x31, 0x30, 0x0d, 0x06, 0x09, 0x60, 0x86, 0x48, 0x01,
    0x65, 0x03, 0x04, 0x02, 0x01, 0x05, 0x00, 0x04, 0x20]

  /** EMSA-PKCS1-v1_5 encoding of a SHA-256 hash in k bytes:
      00 01 FF..FF 00 DigestInfo hash. */
  function Encoding(hash: seq<uint8>, k: nat): (em: seq<uint8>)
    requires |hash| == 32 && k >= 62
    ensures |em| == k
  {
    [0, 1] + seq(k - 54, _ => 0xff) + [0] + DIGEST_INFO + hash
  }

  // ----- the prefix, as DER -----

  /** A DER value with a short length: tag, length, content (X.690, section
      8.1). */
  function Der(tag: uint8, content: seq<uint8>): seq<uint8>
    requires |content| < 128
  {
    [tag, |content| as uint8] + content
  }

  /** A number in base 128, most significant digit first, with the top bit set
      in all digits but the last. */
  function Base128(n: nat, last: bool): (b: seq<uint8>)
    decreases n
  {
    var digit := [(n % 128 + if last then 0 else 128) as uint8];
    if n < 128 then digit else Base128(n / 128, false) + digit
  }

  function Arcs(arcs: seq<nat>): seq<uint8> {
    if arcs == [] then [] else Base128(arcs[0], true) + Arcs(arcs[1..])
  }

  /** The content of an object identifier: the first two arcs share a number
      (X.690, section 8.19). */
  function ObjectIdentifier(arcs: seq<nat>): seq<uint8>
    requires |arcs| >= 2
  {
    Arcs([40 * arcs[0] + arcs[1]] + arcs[2..])
  }

  /** id-sha256 of RFC 8017, appendix B.1. */
  const ID_SHA256: seq<nat> := [2, 16, 840, 1, 101, 3, 4, 2, 1]

  const SEQUENCE: uint8 := 0x30
  const OBJECT_IDENTIFIER: uint8 := 0x06
  const NULL: uint8 := 0x05
  const OCTET_STRING: uint8 := 0x04

  lemma Sha256Identifier()
    ensures ObjectIdentifier(ID_SHA256) == [0x60, 0x86, 0x48, 0x01, 0x65, 0x03, 0x04, 0x02, 0x01]
  {
    hide Arcs, Base128;
    var rest: seq<nat> := [1, 101, 3, 4, 2, 1];
    assert [40 * ID_SHA256[0] + ID_SHA256[1]] + ID_SHA256[2..] == [96] + ([840] + rest);
    NextArc(96, [840] + rest);
    NextArc(840, rest);
    LargeArc();
    SmallArcs(rest);
  }

  lemma NextArc(arc: nat, rest: seq<nat>)
    ensures Arcs([arc] + rest) == Base128(arc, true) + Arcs(rest)
  {
    hide Base128;
    assert ([arc] + rest)[1..] == rest;
  }

  lemma LargeArc()
    ensures Base128(96, true) == [0x60] && Base128(840, true) == [0x86, 0x48]
  {}

  lemma {:induction false} SmallArcs(arcs: seq<nat>)
    requires forall i :: 0 <= i < |arcs| ==> arcs[i] < 128
    ensures Arcs(arcs) == seq(|arcs|, i requires 0 <= i < |arcs| => arcs[i] as uint8)
  {
    if arcs != [] {
      SmallArcs(arcs[1..]);
    }
  }

  /** Prefix and hash are a DigestInfo: the algorithm SHA-256 with empty
      parameters, and the hash. */
  lemma PrefixIsDigestInfo(hash: seq<uint8>)
    requires |hash| == 32
    ensures |ObjectIdentifier(ID_SHA256)| == 9
    ensures DIGEST_INFO + hash
            == Der(SEQUENCE, Der(SEQUENCE, Der(OBJECT_IDENTIFIER, ObjectIdentifier(ID_SHA256)) + Der(NULL, []))
                             + Der(OCTET_STRING, hash))
  {
    Sha256Identifier();
    hide ObjectIdentifier;
  }

  /** The limbs of a big-endian string: the last four bytes first. */
  lemma {:induction false} LimbsOfBe(s: seq<uint32>, b: seq<uint8>)
    requires |b| == 4 * |s|
    requires forall i :: 0 <= i < |s| ==> s[i] as int == BeValue(b[4 * (|s| - 1 - i)..4 * (|s| - i)])
    ensures Val(s) == BeValue(b)
  {
    if s == [] {
    } else {
      var n := 4 * (|s| - 1);
      forall i | 0 <= i < |s| - 1
        ensures s[1..][i] as int == BeValue(b[..n][4 * (|s| - 1 - 1 - i)..4 * (|s| - 1 - i)])
      {
        assert b[..n][4 * (|s| - 1 - 1 - i)..4 * (|s| - 1 - i)] == b[4 * (|s| - 1 - (i + 1))..4 * (|s| - (i + 1))];
      }
      LimbsOfBe(s[1..], b[..n]);
      BeAppend(b[..n], b[n..]);
      assert b == b[..n] + b[n..] && b[n..] == b[4 * (|s| - 1)..4 * |s|];
      assert Pow(0x100, 4) == BASE;
    }
  }

  /** bn_from_be. */
  method FromBe(r: array<uint32>, be: seq<uint8>)
    requires |be| == 4 * r.Length
    modifies r
    ensures Val(r[..]) == BeValue(be)
  {
    hide Val, BeValue;
    var n := r.Length;
    for i := 0 to n
      invariant forall k :: 0 <= k < i ==> r[k] as int == BeValue(be[4 * (n - 1 - k)..4 * (n - k)])
    {
      var p := 4 * (n - 1 - i);
      BeOfFour(be[p..p + 4]);
      r[i] := (be[p] as int * 0x100_0000 + be[p + 1] as int * 0x1_0000 + be[p + 2] as int * 0x100
               + be[p + 3] as int) as uint32;
    }
    LimbsOfBe(r[..], be);
  }

  /** Writes a word to four bytes, most significant first. */
  method StoreBe(be: array<uint8>, off: nat, v: uint32)
    requires off + 4 <= be.Length
    modifies be
    ensures be[..off] == old(be[..off]) && be[off..off + 4] == BeBytes(v) && be[off + 4..] == old(be[off + 4..])
  {
    be[off] := (v as int / 0x100_0000) as uint8;
    be[off + 1] := (v as int / 0x1_0000 % 0x100) as uint8;
    be[off + 2] := (v as int / 0x100 % 0x100) as uint8;
    be[off + 3] := (v as int % 0x100) as uint8;
  }

  /** bn_to_be. */
  method ToBe(be: array<uint8>, a: array<uint32>)
    requires be.Length == 4 * a.Length
    modifies be
    ensures BeValue(be[..]) == Val(a[..])
  {
    hide Val, BeValue, BeBytes;
    var n := a.Length;
    NoLimbs();
    assert be[..0] == [] && a[n..] == [];
    for i := 0 to n
      invariant BeValue(be[..4 * i]) == Val(a[n - i..])
    {
      ghost var done := be[..4 * i];
      StoreBe(be, 4 * i, a[n - 1 - i]);
      assert be[..4 * i + 4] == done + BeBytes(a[n - 1 - i]);
      assert a[n - 1 - i..] == [a[n - 1 - i]] + a[n - i..];
      MoreLimbs(done, a[n - 1 - i], a[n - i..]);
    }
    assert be[..4 * n] == be[..] && a[0..] == a[..];
  }

  lemma NoLimbs()
    ensures BeValue([]) == 0 && Val([]) == 0
  {}

  lemma MoreLimbs(done: seq<uint8>, v: uint32, high: seq<uint32>)
    requires BeValue(done) == Val(high)
    ensures BeValue(done + BeBytes(v)) == Val([v] + high)
  {
    BeAppend(done, BeBytes(v));
    assert ([v] + high)[1..] == high;
    assert Pow(0x100, 4) == BASE;
  }

  /** The encoding, part by part. */
  ghost predicate Layout(em: seq<uint8>, hash: seq<uint8>)
    requires |em| >= 62 && |hash| == 32
  {
    && em[0] == 0 && em[1] == 1
    && (forall i :: 2 <= i < |em| - 52 ==> em[i] == 0xff)
    && em[|em| - 52] == 0
    && em[|em| - 51..|em| - 32] == DIGEST_INFO
    && em[|em| - 32..] == hash
  }

  lemma SplitFive(s: seq<uint8>, k: nat)
    requires |s| == k >= 62
    ensures s == s[..2] + s[2..k - 52] + [s[k - 52]] + s[k - 51..k - 32] + s[k - 32..]
  {
    assert s[2..] == s[2..k - 52] + s[k - 52..];
    assert s[k - 52..] == [s[k - 52]] + s[k - 51..];
  }

  lemma JoinFive(a: seq<uint8>, b: seq<uint8>, c: seq<uint8>, d: seq<uint8>, e: seq<uint8>)
    requires |a| == 2 && |c| == 1 && |d| == 19 && |e| == 32
    ensures var s := a + b + c + d + e; var k := |s|;
            && s[..2] == a && s[2..k - 52] == b && s[k - 52] == c[0] && s[k - 51..k - 32] == d && s[k - 32..] == e
  {
  }

  lemma LayoutIsEncoding(em: seq<uint8>, hash: seq<uint8>)
    requires |em| >= 62 && |hash| == 32
    ensures Layout(em, hash) <==> em == Encoding(hash, |em|)
  {
    var k := |em|;
    var ff := seq(k - 54, _ => 0xff as uint8);
    if Layout(em, hash) {
      SplitFive(em, k);
      assert em[..2] == [0, 1];
      assert em[2..k - 52] == ff;
    }
    if em == Encoding(hash, k) {
      JoinFive([0, 1], ff, [0], DIGEST_INFO, hash);
      assert em[..2][0] == 0 && em[..2][1] == 1;
      forall i | 2 <= i < k - 52
        ensures em[i] == 0xff
      {
        assert em[i] == em[2..k - 52][i - 2];
      }
    }
  }

  /** The scanning parse accepts one string and no other. */
  method ParseEncoding(em: array<uint8>, hash: seq<uint8>) returns (ok: bool)
    requires em.Length >= 4 && |hash| == 32
    ensures ok <==> em.Length >= 62 && em[..] == Encoding(hash, em.Length)
  {
    hide Encoding;
    var emlen := em.Length;
    if emlen >= 62 {
      LayoutIsEncoding(em[..], hash);
    }
    if em[0] != 0 || em[1] != 1 {
      return false;
    }
    var pos := 2;
    while pos < emlen && em[pos] == 0xff
      invariant 2 <= pos <= emlen
      invariant forall k :: 2 <= k < pos ==> em[k] == 0xff
    {
      pos := pos + 1;
    }
    var psEnd := pos;
    assert emlen >= 62 && Layout(em[..], hash) ==> psEnd == emlen - 52;
    if psEnd - 2 < 8 {
      return false;
    }
    if psEnd >= emlen || em[psEnd] != 0 {
      return false;
    }
    pos := psEnd + 1;
    if emlen - pos != 19 + 32 {
      return false;
    }
    assert em[..][emlen - 51..emlen - 32] == em[pos..pos + 19] && em[..][emlen - 32..] == em[pos + 19..pos + 51];
    ok := Matches(em, pos, DIGEST_INFO);
    if ok {
      ok := Matches(em, pos + 19, hash);
    }
  }

  /** The bytes from pos on are compared one by one. */
  method Matches(em: array<uint8>, pos: nat, want: seq<uint8>) returns (same: bool)
    requires pos + |want| <= em.Length
    ensures same <==> em[pos..pos + |want|] == want
  {
    for i := 0 to |want|
      invariant em[pos..pos + i] == want[..i]
    {
      if em[pos + i] != want[i] {
        assert em[pos..pos + |want|][i] != want[i];
        return false;
      }
    }
    assert want[..|want|] == want;
    return true;
  }

  /** What verification means: the length matches, the signature is below the
      modulus, the exponent is not zero, and signature^e mod n is the one
      encoding of the hash in that many bytes. */
  ghost predicate Verifies(signature: seq<uint8>, hash: seq<uint8>, n: seq<uint8>, nBits: uint32, e: uint32)
    requires |hash| == 32
  {
    var k := nBits as int / 8;
    && nBits % 32 == 0 && 62 <= k <= 512
    && |signature| == k
    && e > 0
    && BeValue(signature) < BeValue(n)
    && Pow(BeValue(signature), e as int) % BeValue(n) == BeValue(Encoding(hash, k))
  }

  /** zz9k_soft_rsa_verify_pkcs1_sha256. */
  method Verify(signature: seq<uint8>, hash: seq<uint8>, n: seq<uint8>, nBits: uint32, e: uint32) returns (ok: bool)
    requires |hash| == 32 && |signature| < 0x1_0000_0000
    requires nBits % 32 == 0 && 0 < nBits <= 4096 ==> |n| == nBits as int / 8
    ensures ok <==> Verifies(signature, hash, n, nBits, e)
  {
    hide Encoding, BeValue, Val, Pow;
    var limbs := nBits as int / 32;
    var emlen := limbs * 4;
    if nBits == 0 || nBits % 32 != 0 || limbs > 128 {
      return false;
    }
    if |signature| != emlen {
      return false;
    }
    var sig, mod, m := new uint32[limbs], new uint32[limbs], new uint32[limbs];
    FromBe(sig, signature);
    FromBe(mod, n);
    assert sig[..limbs] == sig[..] && mod[..limbs] == mod[..];
    var c := Cmp(sig, mod, limbs);
    if c >= 0 {
      return false;
    }
    var ev := new uint32[1];
    ev[0] := e;
    ValOneLimb(ev[..1]);
    var ebits := BitLen(ev, 1);
    if ebits == 0 {
      return false;
    }
    assert (ebits + 31) / 32 == 1;
    ModExp(m, sig, ev, ebits, mod, limbs);
    ModSmall(e as int, Pow(2, ebits));
    assert m[..limbs] == m[..];
    var em := new uint8[emlen];
    ToBe(em, m);
    ok := ParseEncoding(em, hash);
    if emlen >= 62 && BeValue(em[..]) == BeValue(Encoding(hash, emlen)) {
      BeInjective(em[..], Encoding(hash, emlen));
    }
  }

  lemma ValOneLimb(s: seq<uint32>)
    requires |s| == 1
    ensures Val(s) == s[0] as int
  {
    assert Val(s[1..]) == 0;
  }
}
