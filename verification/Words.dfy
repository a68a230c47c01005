/** Machine words. Every arithmetic operation on these types is checked by the
    verifier to stay inside the word, so code written with them cannot wrap
    silently; where the C code relies on wrap-around, it is written out. */
module Words {
  import opened ModArith

  newtype uint8 = x: int | 0 <= x < 0x100
  newtype uint32 = x: int | 0 <= x < 0x1_0000_0000
  newtype uint64 = x: int | 0 <= x < 0x1_0000_0000_0000_0000
  newtype int64 = x: int | -0x8000_0000_0000_0000 <= x < 0x8000_0000_0000_0000

  /** `x << n` on 32 bits, where `factor` is 2^n: the high bits fall off. */
  function Shl32(x: uint32, factor: nat): (r: uint32)
    ensures r as int == (x as int * factor) % 0x1_0000_0000
  {
    ((x as int * factor) % 0x1_0000_0000) as uint32
  }

  /** b to the power e. */
  function Pow(b: int, e: nat): int {
    if e == 0 then 1 else b * Pow(b, e - 1)
  }

  lemma {:induction false} PowAdd(b: int, m: nat, n: nat)
    ensures Pow(b, m + n) == Pow(b, m) * Pow(b, n)
  {
    if m == 0 {
    } else {
      PowAdd(b, m - 1, n);
      assert Pow(b, m + n) == b * (Pow(b, m - 1) * Pow(b, n));
    }
  }

  lemma {:induction false} PowPositive(b: int, n: nat)
    requires b > 0
    ensures Pow(b, n) > 0
  {
    if n > 0 {
      PowPositive(b, n - 1);
    }
  }

  lemma {:induction false} PowMono(m: nat, n: nat)
    requires m <= n
    ensures 0 < Pow(2, m) <= Pow(2, n)
    decreases n
  {
    PowPositive(2, m);
    if m < n {
      PowMono(m, n - 1);
    }
  }

  function Min(a: nat, b: nat): nat { if a < b then a else b }

  /** Pieces one after another. */
  function Joined(chunks: seq<seq<uint8>>): seq<uint8> {
    if chunks == [] then [] else Joined(chunks[..|chunks| - 1]) + chunks[|chunks| - 1]
  }

  /** pad16: data followed by zeros up to a multiple of sixteen bytes. */
  function Pad16(data: seq<uint8>): (p: seq<uint8>)
    ensures |p| % 16 == 0 && data <= p
  {
    data + seq((16 - |data| % 16) % 16, _ => 0)
  }

  /** As many zero bytes as make whole blocks. */
  function ZeroPad(length: nat): seq<uint8> {
    RoundUp(length);
    seq(16 * ((length + 15) / 16) - length, _ => 0)
  }

  lemma RoundUp(n: nat)
    ensures 16 * ((n + 15) / 16) >= n
  {}

  lemma PadIsZeroPad(data: seq<uint8>)
    ensures Pad16(data) == data + ZeroPad(|data|)
  {
    var n := |data|;
    PadLength(n);
    assert Pad16(data) == data + seq((16 - n % 16) % 16, _ => 0);
    assert seq((16 - n % 16) % 16, _ => 0 as uint8) == ZeroPad(n);
  }

  lemma PadLength(n: nat)
    ensures 16 * ((n + 15) / 16) - n == (16 - n % 16) % 16
  {}

  /** `bytes` stand in the data at a position. */
  predicate At(data: seq<uint8>, pos: nat, bytes: seq<uint8>) {
    pos + |bytes| <= |data| && data[pos..pos + |bytes|] == bytes
  }

  lemma AtParts(data: seq<uint8>, pos: nat, a: seq<uint8>, b: seq<uint8>)
    requires At(data, pos, a + b)
    ensures At(data, pos, a) && At(data, pos + |a|, b)
  {
    assert data[pos..pos + |a|] == data[pos..pos + |a + b|][..|a|];
    assert data[pos + |a|..pos + |a| + |b|] == data[pos..pos + |a + b|][|a|..];
  }

  lemma AtIndex(data: seq<uint8>, pos: nat, bytes: seq<uint8>, j: nat)
    requires At(data, pos, bytes) && j < |bytes|
    ensures pos + j < |data| && data[pos + j] == bytes[j]
  {
    assert data[pos..pos + |bytes|][j] == data[pos + j];
  }

  lemma AtSlice(data: seq<uint8>, pos: nat, bytes: seq<uint8>)
    requires At(data, pos, bytes)
    ensures pos + |bytes| <= |data| && data[pos..pos + |bytes|] == bytes
  {}

  /** A text in ASCII. */
  function Ascii(s: string): (b: seq<uint8>)
    requires forall i :: 0 <= i < |s| ==> s[i] as int < 0x100
    ensures |b| == |s|
  {
    seq(|s|, i requires 0 <= i < |s| => s[i] as uint8)
  }

  /** The sum of the bytes. */
  function ByteSum(b: seq<uint8>): nat {
    if b == [] then 0 else ByteSum(b[..|b| - 1]) + b[|b| - 1] as nat
  }

  lemma {:induction false} ByteSumBound(b: seq<uint8>)
    ensures ByteSum(b) <= 255 * |b|
  {
    if b != [] {
      ByteSumBound(b[..|b| - 1]);
    }
  }

  lemma {:induction false} ByteSumUpdate(s: seq<uint8>, i: nat, b: uint8)
    requires i < |s|
    ensures ByteSum(s[i := b]) == ByteSum(s) - s[i] as int + b as int
  {
    var n := |s| - 1;
    if i == n {
      assert s[i := b][..n] == s[..n];
    } else {
      ByteSumUpdate(s[..n], i, b);
      assert s[i := b][..n] == s[..n][i := b];
    }
  }

  /** The little-endian number a byte string stands for. */
  function LeValue(b: seq<uint8>): nat {
    if b == [] then 0 else b[0] as nat + 0x100 * LeValue(b[1..])
  }

  lemma {:induction false} LeValueAppend(a: seq<uint8>, b: seq<uint8>)
    ensures LeValue(a + b) == LeValue(a) + Pow(0x100, |a|) * LeValue(b)
  {
    if a == [] {
      assert a + b == b;
    } else {
      LeValueAppend(a[1..], b);
      assert (a + b)[1..] == a[1..] + b;
      assert Pow(0x100, |a|) * LeValue(b) == 0x100 * (Pow(0x100, |a| - 1) * LeValue(b));
    }
  }

  lemma {:induction false} LeValueBound(b: seq<uint8>)
    ensures LeValue(b) < Pow(0x100, |b|)
  {
    if b != [] {
      LeValueBound(b[1..]);
    }
  }

  /** Zero bytes at the most significant end do not change the value. */
  lemma {:induction false} LeValueZeros(b: seq<uint8>)
    requires forall i :: 0 <= i < |b| ==> b[i] == 0
    ensures LeValue(b) == 0
  {
    if b != [] {
      LeValueZeros(b[1..]);
    }
  }

  /** The low bytes of a number, least significant first. */
  function LittleEndian(n: nat, width: nat): (b: seq<uint8>)
    ensures |b| == width
  {
    if width == 0 then [] else [(n % 0x100) as uint8] + LittleEndian(n / 0x100, width - 1)
  }

  lemma {:induction false} LittleEndianValue(n: nat, width: nat)
    ensures Pow(0x100, width) > 0 && LeValue(LittleEndian(n, width)) == n % Pow(0x100, width)
  {
    PowPositive(0x100, width);
    if width > 0 {
      LittleEndianValue(n / 0x100, width - 1);
      DivDiv(n, 0x100, Pow(0x100, width - 1), Pow(0x100, width));
    }
  }

  lemma LeValue4(b: seq<uint8>)
    requires |b| == 4
    ensures LeValue(b) == b[0] as nat + 0x100 * b[1] as nat + 0x1_0000 * b[2] as nat + 0x100_0000 * b[3] as nat
  {
    assert b[1..][1..] == b[2..] && b[2..][1..] == b[3..] && b[3..][1..] == [];
    assert LeValue(b[3..]) == b[3] as nat + 0x100 * LeValue([]);
    assert LeValue(b[2..]) == b[2] as nat + 0x100 * LeValue(b[3..]);
    assert LeValue(b[1..]) == b[1] as nat + 0x100 * LeValue(b[2..]);
  }

  /** Four bytes at `off`, least significant first. */
  function Load32(b: seq<uint8>, off: nat): (r: uint32)
    requires off + 4 <= |b|
    ensures r as nat == LeValue(b[off..off + 4])
  {
    LeValue4(b[off..off + 4]);
    (b[off] as int + 0x100 * b[off + 1] as int + 0x1_0000 * b[off + 2] as int
     + 0x100_0000 * b[off + 3] as int) as uint32
  }

  /** The four bytes a 32-bit word is stored as, least significant first. */
  function Bytes32(v: uint32): (b: seq<uint8>)
    ensures |b| == 4 && LeValue(b) == v as nat
  {
    var b := [(v as int % 0x100) as uint8, (v as int / 0x100 % 0x100) as uint8,
              (v as int / 0x1_0000 % 0x100) as uint8, (v as int / 0x100_0000) as uint8];
    LeValue4(b);
    DivDiv(v as int, 0x100, 0x100, 0x1_0000);
    DivDiv(v as int, 0x1_0000, 0x100, 0x100_0000);
    b
  }

  /** Writes a word to four bytes of an array. */
  method Store32(p: array<uint8>, off: nat, v: uint32)
    requires off + 4 <= p.Length
    modifies p
    ensures p[..] == old(p[..off]) + Bytes32(v) + old(p[off + 4..])
  {
    ghost var before := p[..];
    p[off] := (v as int % 0x100) as uint8;
    p[off + 1] := (v as int / 0x100 % 0x100) as uint8;
    p[off + 2] := (v as int / 0x1_0000 % 0x100) as uint8;
    p[off + 3] := (v as int / 0x100_0000) as uint8;
    assert p[..] == before[..off] + Bytes32(v) + before[off + 4..];
  }

  lemma LeValueWord(b: seq<uint8>)
    requires |b| >= 4
    ensures LeValue(b) == Load32(b, 0) as nat + 0x1_0000_0000 * LeValue(b[4..])
  {
    LeValueAppend(b[..4], b[4..]);
    assert b == b[..4] + b[4..];
    assert b[0..4] == b[..4];
    assert Pow(0x100, 4) == 0x1_0000_0000;
  }

  /** A 16-byte block is its four words. */
  lemma LeValue16(b: seq<uint8>)
    requires |b| == 16
    ensures LeValue(b) == Load32(b, 0) as nat + 0x1_0000_0000 * Load32(b, 4) as nat
                          + 0x1_0000_0000_0000_0000 * Load32(b, 8) as nat
                          + 0x1_0000_0000_0000_0000_0000_0000 * Load32(b, 12) as nat
  {
    var b1, b2, b3 := b[4..], b[8..], b[12..];
    LeValueWord(b);
    LeValueWord(b1);
    LeValueWord(b2);
    LeValueWord(b3);
    assert b1[4..] == b2 && b2[4..] == b3 && b3[4..] == [];
  }

  /** A number has one encoding of each length. */
  lemma {:induction false} LeValueInjective(a: seq<uint8>, b: seq<uint8>)
    requires |a| == |b| && LeValue(a) == LeValue(b)
    ensures a == b
  {
    if a != [] {
      DivModUnique(LeValue(a), 0x100, LeValue(a[1..]), a[0] as int);
      DivModUnique(LeValue(b), 0x100, LeValue(b[1..]), b[0] as int);
      LeValueInjective(a[1..], b[1..]);
    }
  }

  /** The big-endian number a byte string stands for (OS2IP). */
  function BeValue(b: seq<uint8>): nat {
    if b == [] then 0 else 0x100 * BeValue(b[..|b| - 1]) + b[|b| - 1] as nat
  }

  lemma {:induction false} BeAppend(a: seq<uint8>, b: seq<uint8>)
    ensures BeValue(a + b) == Pow(0x100, |b|) * BeValue(a) + BeValue(b)
  {
    if b == [] {
      assert a + b == a;
    } else {
      var n := |b| - 1;
      BeAppend(a, b[..n]);
      assert (a + b)[..|a + b| - 1] == a + b[..n];
      assert Pow(0x100, |b|) == 0x100 * Pow(0x100, n);
      assert 0x100 * (Pow(0x100, n) * BeValue(a)) == 0x100 * Pow(0x100, n) * BeValue(a);
    }
  }

  lemma {:induction false} BeInjective(a: seq<uint8>, b: seq<uint8>)
    requires |a| == |b| && BeValue(a) == BeValue(b)
    ensures a == b
  {
    if a != [] {
      var n := |a| - 1;
      DivModUnique(BeValue(a), 0x100, BeValue(a[..n]), a[n] as int);
      DivModUnique(BeValue(b), 0x100, BeValue(b[..n]), b[n] as int);
      BeInjective(a[..n], b[..n]);
      assert a == a[..n] + [a[n]] && b == b[..n] + [b[n]];
    }
  }

  /** The bytes of a number in `width` places, most significant first. */
  function BigEndian(n: nat, width: nat): (b: seq<uint8>)
    ensures |b| == width
  {
    if width == 0 then [] else BigEndian(n / 0x100, width - 1) + [(n % 0x100) as uint8]
  }

  lemma {:induction false} BigEndianValue(n: nat, width: nat)
    requires n < Pow(0x100, width)
    ensures BeValue(BigEndian(n, width)) == n
  {
    if width > 0 {
      BigEndianValue(n / 0x100, width - 1);
      var b := BigEndian(n, width);
      assert b[..width - 1] == BigEndian(n / 0x100, width - 1);
    }
  }

  lemma BeOfFour(b: seq<uint8>)
    requires |b| == 4
    ensures BeValue(b) == b[0] as int * 0x100_0000 + b[1] as int * 0x1_0000 + b[2] as int * 0x100 + b[3] as int
  {
    assert b[..3][..2] == b[..2] && b[..2][..1] == b[..1] && b[..1][..0] == [];
    assert BeValue(b[..1]) == 0x100 * BeValue([]) + b[0] as nat;
    assert BeValue(b[..2]) == 0x100 * BeValue(b[..1]) + b[1] as nat;
    assert BeValue(b[..3]) == 0x100 * BeValue(b[..2]) + b[2] as nat;
  }

  /** The four bytes of a word, most significant first. */
  function BeBytes(v: uint32): (b: seq<uint8>)
    ensures |b| == 4 && BeValue(b) == v as int
  {
    var b := [(v as int / 0x100_0000) as uint8, (v as int / 0x1_0000 % 0x100) as uint8,
              (v as int / 0x100 % 0x100) as uint8, (v as int % 0x100) as uint8];
    BeOfFour(b);
    DivDiv(v as int, 0x100, 0x100, 0x1_0000);
    DivDiv(v as int, 0x1_0000, 0x100, 0x100_0000);
    b
  }

  /** Bit t of k. */
  function Bit(k: nat, t: nat): (b: int)
    ensures b == 0 || b == 1
  {
    PowPositive(2, t);
    k / Pow(2, t) % 2
  }

  /** The bits of k from position t up. */
  function High(k: nat, t: nat): nat {
    PowPositive(2, t);
    k / Pow(2, t)
  }

  lemma HighStep(k: nat, t: nat)
    ensures High(k, t) == 2 * High(k, t + 1) + Bit(k, t)
  {
    PowPositive(2, t);
    DivDiv(k, Pow(2, t), 2, Pow(2, t + 1));
  }

  lemma DropLowBits(k: nat, t: nat)
    requires k < Pow(2, t)
    ensures High(k, t) == 0
  {
    hide Pow;
    DivModUnique(k, Pow(2, t), 0, k);
  }
}
