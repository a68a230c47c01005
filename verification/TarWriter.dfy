/** Tar headers and pax records as they are written, and that the readers
    (tools/zz9k-archive.c) give back what was written. */
module TarWriter {
  import opened Words
  import opened ModArith
  import opened Options
  import opened ArchiveNames
  import opened NameBuffer
  import opened TarHeader

  // ----- a header -----

  /** What a header says. The other fields of the block, from the mode to the
      modification time and from the link name to the device numbers, may hold
      anything. */
  datatype Fields = Fields(name: seq<uint8>, prefix: seq<uint8>, kind: uint8, size: nat, binary: bool,
                           owner: seq<uint8>, time: seq<uint8>, link: seq<uint8>, rest: seq<uint8>)

  predicate WellFormed(f: Fields) {
    && 0 < |f.name| <= 100 && |f.prefix| <= 155 && NoZero(f.name) && NoZero(f.prefix)
    && f.size < 0x1_0000_0000 && (f.binary ==> f.size <= 0x7fff_ffff)
    && |f.owner| == 24 && |f.time| == 12 && |f.link| == 188 && |f.rest| == 12
  }

  function Zeros(n: nat): (z: seq<uint8>)
    ensures |z| == n
  {
    seq(n, _ => 0)
  }

  function Padded(s: seq<uint8>, n: nat): (b: seq<uint8>)
    requires |s| <= n
    ensures |b| == n
  {
    s + Zeros(n - |s|)
  }

  /** Eleven octal digits and a zero byte, or a mark byte and eleven bytes. */
  function SizeField(n: nat, binary: bool): (b: seq<uint8>)
    ensures |b| == 12
  {
    if binary then [0x80] + BigEndian(n, 11) else OctalDigits(n, 11) + [0]
  }

  function BeforeSum(f: Fields): (b: seq<uint8>)
    requires WellFormed(f)
    ensures |b| == 148
  {
    Padded(f.name, 100) + f.owner + SizeField(f.size, f.binary) + f.time
  }

  function AfterSum(f: Fields): (a: seq<uint8>)
    requires WellFormed(f)
    ensures |a| == 356
  {
    [f.kind] + f.link + Padded(f.prefix, 155) + f.rest
  }

  /** The sum of all bytes, with eight spaces in its own place. */
  function HeaderSum(f: Fields): nat
    requires WellFormed(f)
  {
    ByteSum(BeforeSum(f)) + 8 * 0x20 + ByteSum(AfterSum(f))
  }

  /** The block. */
  function HeaderBytes(f: Fields): (h: Header)
    requires WellFormed(f)
  {
    BeforeSum(f) + (OctalDigits(HeaderSum(f), 6) + [0, 0x20]) + AfterSum(f)
  }

  /** Prefix, slash and name; just the name without a prefix. */
  function FullName(f: Fields): seq<uint8> {
    if f.prefix == [] then f.name else f.prefix + [0x2f] + f.name
  }

  // ----- its parts, read -----

  lemma PowersOfEight()
    ensures Pow(8, 6) == 0x4_0000 && Pow(8, 11) == 0x2_0000_0000
  {
    assert Pow(8, 6) == 0x4_0000;
    assert Pow(8, 5) == 0x8000;
    PowAdd(8, 6, 5);
  }

  lemma PaddedIsRead(s: seq<uint8>, n: nat)
    requires |s| <= n && NoZero(s)
    ensures CString(Padded(s, n)) == s
  {
    CStringUnique(Padded(s, n), |s|);
  }

  lemma {:induction false} FirstDigit(n: nat, width: nat)
    requires width > 0
    ensures 0x30 <= OctalDigits(n, width)[0] <= 0x37
  {
    if width > 1 {
      FirstDigit(n / 8, width - 1);
    }
  }

  lemma SizeIsRead(n: nat, binary: bool)
    requires n < 0x1_0000_0000 && (binary ==> n <= 0x7fff_ffff)
    ensures ParseNumber(SizeField(n, binary)) == Some(n)
  {
    hide OctalDigits, Pow;
    if binary {
      var b := BigEndian(n, 11);
      BinaryFits(n);
      BigEndianValue(n, 11);
      Base256Exact([0x80] + b);
      BeAppend([0], b);
      ZeroFirst();
    } else {
      PowersOfEight();
      FirstDigit(n, 11);
      OctalRoundTrip(n, 11, [0]);
    }
  }

  lemma BinaryFits(n: nat)
    requires n < 0x1_0000_0000
    ensures n < Pow(0x100, 11)
  {
    assert Pow(0x100, 4) == 0x1_0000_0000;
    PowAdd(0x100, 4, 7);
    PowPositive(0x100, 7);
  }

  lemma ZeroFirst()
    ensures BeValue([0]) == 0
  {
    assert [0 as uint8][..0] == [];
  }

  lemma SumIsRead(f: Fields)
    requires WellFormed(f)
    ensures ParseOctal(OctalDigits(HeaderSum(f), 6) + [0, 0x20]) == Some(HeaderSum(f))
  {
    hide OctalDigits, Pow;
    ByteSumBound(BeforeSum(f));
    ByteSumBound(AfterSum(f));
    PowersOfEight();
    OctalRoundTrip(HeaderSum(f), 6, [0, 0x20]);
  }

  /** Where the fields are in the block. */
  lemma FieldsOfBlock(f: Fields)
    requires WellFormed(f)
    ensures var h := HeaderBytes(f);
      && h[..148] == BeforeSum(f) && h[148..156] == OctalDigits(HeaderSum(f), 6) + [0, 0x20] && h[156..] == AfterSum(f)
      && h[..100] == Padded(f.name, 100) && h[124..136] == SizeField(f.size, f.binary)
      && h[156] == f.kind && h[345..500] == Padded(f.prefix, 155)
  {
    hide OctalDigits, HeaderSum, SizeField, Padded;
  }

  /** Every header is read as what it was written from. */
  lemma HeaderRoundTrip(f: Fields)
    requires WellFormed(f)
    ensures var h, full := HeaderBytes(f), FullName(f);
      var name := if Normalize(full).Some? then Normalize(full).value else [];
      && !Empty(h)
      && EntryFromHeader(h) ==
           if |full| >= 256 then None
           else if f.kind == 'L' as uint8 then Some(Head(name, f.size, GnuLongName, true, EndsWithSlash(name)))
           else if f.kind == 'x' as uint8 then Some(Head(name, f.size, Pax, true, EndsWithSlash(name)))
           else if f.kind == '0' as uint8 || f.kind == 0 then
             Some(Head(name, f.size, Plain, name == [], EndsWithSlash(name)))
           else if f.kind == '5' as uint8 then Some(Head(name, f.size, Plain, name == [], true))
           else Some(Head(name, f.size, Plain, true, EndsWithSlash(name)))
  {
    hide ByteSum, SignedSum, OctalDigits, OctalFrom, ParseNumber, ParseOctal, SizeField, Padded, HeaderSum, Normalize,
         CString, BeforeSum, AfterSum, HeaderBytes;
    FieldsOfBlock(f);
    SumIsRead(f);
    SizeIsRead(f.size, f.binary);
    PaddedIsRead(f.name, 100);
    PaddedIsRead(f.prefix, 155);
    NotEmpty(f);
    Normalized(FullName(f));
    SumIs(f);
  }

  lemma SumIs(f: Fields)
    requires WellFormed(f)
    ensures HeaderSum(f) == ByteSum(BeforeSum(f)) + 8 * 0x20 + ByteSum(AfterSum(f))
  {}

  lemma NotEmpty(f: Fields)
    requires WellFormed(f)
    ensures !Empty(HeaderBytes(f))
  {
    hide OctalDigits, HeaderSum, SizeField;
    assert HeaderBytes(f)[0] == f.name[0] != 0;
  }

  /** A normalized name is not empty. */
  lemma Normalized(name: seq<uint8>)
    ensures Normalize(name).Some? ==> Normalize(name).value != []
  {}

  // ----- damaged headers -----

  /** The signed sum differs by a multiple of 256. */
  lemma {:induction false} SumsAgree(s: seq<uint8>) returns (k: nat)
    ensures ByteSum(s) == SignedSum(s) + 0x100 * k
  {
    if s == [] {
      k := 0;
    } else {
      k := SumsAgree(s[..|s| - 1]);
      if s[|s| - 1] >= 0x80 {
        k := k + 1;
      }
    }
  }

  /** The low byte of the stored sum is that of the block's. */
  lemma LowByteOfSum(h: Header) returns (stored: nat)
    requires ChecksumValid(h)
    ensures ParseOctal(h[148..156]) == Some(stored)
    ensures stored % 0x100 == (ByteSum(h[..148]) + ByteSum(h[156..])) % 0x100
  {
    hide ByteSum, SignedSum, ParseOctal;
    stored := ParseOctal(h[148..156]).value;
    var k := SumsAgree(h[..148]);
    var l := SumsAgree(h[156..]);
    var u := ByteSum(h[..148]) + ByteSum(h[156..]);
    var v := SignedSum(h[..148]) + 8 * 0x20 + SignedSum(h[156..]);
    if stored == u + 8 * 0x20 {
      assert stored % 0x100 == u % 0x100;
    } else {
      SameLowByte(v, u, k as int + l as int - 1);
    }
  }

  lemma SameLowByte(v: int, u: nat, k: int)
    requires u == v + 0x100 * k
    ensures v % 0x1_0000_0000 % 0x100 == u % 0x100
  {
    var q := v / 0x1_0000_0000;
    var r := v % 0x1_0000_0000;
    assert u == r + 0x100 * (q * 0x100_0000 + k);
  }

  /** No change of a single byte outside the checksum goes unnoticed. */
  lemma OneByteErrorRefused(h: Header, i: nat, b: uint8)
    requires ChecksumValid(h) && i < 512 && !(148 <= i < 156) && b != h[i]
    ensures EntryFromHeader(h[i := b]) == None
  {
    hide ByteSum, ParseOctal, ChecksumValid;
    var d: Header := h[i := b];
    if ChecksumValid(d) {
      var stored := LowByteOfSum(h);
      var again := LowByteOfSum(d);
      assert d[148..156] == h[148..156];
      if i < 148 {
        assert d[..148] == h[..148][i := b] && d[156..] == h[156..];
        ByteSumUpdate(h[..148], i, b);
      } else {
        assert d[..148] == h[..148] && d[156..] == h[156..][i - 156 := b];
        ByteSumUpdate(h[156..], i - 156, b);
      }
    }
  }

  // ----- pax records -----

  /** The digits of n in `width` decimal places. */
  function DecimalDigits(n: nat, width: nat): (d: seq<uint8>)
    ensures |d| == width
  {
    if width == 0 then [] else DecimalDigits(n / 10, width - 1) + [(0x30 + n % 10) as uint8]
  }

  const PATH: seq<uint8> := [0x70, 0x61, 0x74, 0x68]
  const SIZE: seq<uint8> := [0x73, 0x69, 0x7a, 0x65]

  datatype Record = Path(path: seq<uint8>) | Size(size: nat, places: nat) | Other(key: seq<uint8>, value: seq<uint8>)

  predicate Readable(r: Record) {
    match r
    case Path(p) => NoZero(p) && |p| < 256
    case Size(n, places) => n <= 0x7fff_ffff && places > 0 && n < Pow(10, places)
    case Other(key, value) => 0x3d !in key && key != PATH && key != SIZE
  }

  /** The key, an equals sign, the value. */
  function Body(r: Record): seq<uint8> {
    match r
    case Path(p) => PATH + [0x3d] + p
    case Size(n, places) => SIZE + [0x3d] + DecimalDigits(n, places)
    case Other(key, value) => key + [0x3d] + value
  }

  /** Its own length in some places, a space, the body, a newline. */
  function RecordBytes(r: Record, places: nat): seq<uint8> {
    DecimalDigits(places + 2 + |Body(r)|, places) + [0x20] + Body(r) + [0x0a]
  }

  /** There are enough places for the length, which has at most six digits. */
  predicate LengthFits(r: Record, places: nat) {
    places > 0 && places + 2 + |Body(r)| < Pow(10, places) && places + 2 + |Body(r)| <= 999_999
  }

  /** A record and the places of its length. */
  type Framing = (Record, nat)

  function PaxBytes(rs: seq<Framing>): seq<uint8> {
    if rs == [] then [] else RecordBytes(rs[0].0, rs[0].1) + PaxBytes(rs[1..])
  }

  /** The path that holds in the end: that of the last record with one. */
  function LastPath(rs: seq<Framing>): Option<Option<seq<uint8>>> {
    if rs == [] then None
    else
      var r := rs[|rs| - 1].0;
      if r.Path? && r.path != [] then Some(Normalize(r.path)) else LastPath(rs[..|rs| - 1])
  }

  function LastSize(rs: seq<Framing>): Option<nat> {
    if rs == [] then None
    else
      var r := rs[|rs| - 1].0;
      if r.Size? then Some(r.size) else LastSize(rs[..|rs| - 1])
  }

  lemma {:induction false} DigitsAreDigits(n: nat, width: nat)
    ensures Digits(DecimalDigits(n, width), 0x30, 10)
    ensures n < Pow(10, width) ==> Spelled(DecimalDigits(n, width), 0x30, 10) == n
  {
    if width > 0 {
      var d := DecimalDigits(n, width);
      DigitsAreDigits(n / 10, width - 1);
      assert d[..width - 1] == DecimalDigits(n / 10, width - 1);
      assert forall i :: 0 <= i < width - 1 ==> d[i] == DecimalDigits(n / 10, width - 1)[i];
    }
  }

  lemma FindsKey(key: seq<uint8>, value: seq<uint8>)
    requires 0x3d !in key
    ensures FindEquals(key + [0x3d] + value) == |key|
  {
    if key != [] {
      FindsKey(key[1..], value);
      assert (key + [0x3d] + value)[1..] == key[1..] + [0x3d] + value;
    }
  }

  /** What a record says replaces what was said before. */
  lemma RecordApplied(r: Record, info: PaxInfo)
    requires Readable(r)
    ensures ApplyRecord(Body(r), info) == Some(
      match r
      case Path(p) => if p == [] then info else info.(path := Some(Normalize(p)))
      case Size(n, places) => info.(size := Some(n))
      case Other(key, value) => info)
  {
    hide Normalize, DecimalFrom, FindEquals, Pow, CString;
    var body := Body(r);
    match r
    case Path(p) =>
      FindsKey(PATH, p);
      assert body[..4] == PATH && body[5..] == p;
      CStringUnique(p, |p|);
      assert p[..|p|] == p;
    case Size(n, places) =>
      FindsKey(SIZE, DecimalDigits(n, places));
      assert body[..4] == SIZE && body[5..] == DecimalDigits(n, places);
      DigitsAreDigits(n, places);
      DecimalExact(body[5..]);
    case Other(key, value) =>
      FindsKey(key, value);
      assert body[..|key|] == key;
  }

  lemma {:induction false} DigitAt(n: nat, width: nat, i: nat)
    requires i < width
    ensures Pow(10, width - 1 - i) > 0
    ensures DecimalDigits(n, width)[i] as nat == 0x30 + n / Pow(10, width - 1 - i) % 10
  {
    PowPositive(10, width - 1 - i);
    if i == width - 1 {
      assert Pow(10, 0) == 1;
    } else {
      DigitAt(n / 10, width - 1, i);
      DivDiv(n, 10, Pow(10, width - 2 - i), Pow(10, width - 1 - i));
    }
  }

  /** What has been read of the length after i digits. */
  lemma {:induction false} LengthIsRead(data: seq<uint8>, n: nat, width: nat, i: nat)
    requires i <= width < |data| && data[..width] == DecimalDigits(n, width) && data[width] == 0x20
    requires n < Pow(10, width) && n <= 999_999
    ensures Pow(10, width - i) > 0 && RecordDigits(data, n / Pow(10, width - i), i) == Some((n, width))
    decreases width - i
  {
    PowPositive(10, width - i);
    if i == width {
      assert Pow(10, 0) == 1;
    } else {
      var p := Pow(10, width - i - 1);
      DigitAt(n, width, i);
      assert data[i] == data[..width][i];
      LengthIsRead(data, n, width, i + 1);
      DivDiv(n, p, 10, Pow(10, width - i));
      DivDiv(n, 10, p, Pow(10, width - i));
      QuotientBound(n / 10, p);
    }
  }

  lemma QuotientBound(x: nat, p: nat)
    requires p > 0
    ensures x / p <= x
  {
    assert x == p * (x / p) + x % p;
    MulMono(1, p, x / p);
  }

  lemma WholeLengthIsRead(data: seq<uint8>, n: nat, width: nat)
    requires width < |data| && data[..width] == DecimalDigits(n, width) && data[width] == 0x20
    requires n < Pow(10, width) && n <= 999_999
    ensures RecordDigits(data, 0, 0) == Some((n, width))
  {
    hide Pow;
    LengthIsRead(data, n, width, 0);
    ModSmall(n, Pow(10, width));
    DivModUnique(n, Pow(10, width), 0, n);
  }

  /** One record is taken off. */
  lemma RecordIsRead(r: Record, places: nat, rest: seq<uint8>, info: PaxInfo)
    requires Readable(r) && LengthFits(r, places)
    ensures ApplyRecord(Body(r), info).Some?
    ensures PaxFrom(RecordBytes(r, places) + rest, info) == PaxFrom(rest, ApplyRecord(Body(r), info).value)
  {
    hide Pow, DecimalDigits, RecordDigits, Body, ApplyRecord, Readable;
    var body, len := Body(r), places + 2 + |Body(r)|;
    var digits := DecimalDigits(len, places);
    var data := RecordBytes(r, places) + rest;
    assert data == digits + [0x20] + body + [0x0a] + rest;
    assert data[..places] == digits && data[places] == 0x20;
    WholeLengthIsRead(data, len, places);
    assert data[len - 1] == 0x0a && data[places + 1..len - 1] == body && data[len..] == rest;
    RecordApplied(r, info);
  }

  lemma {:induction false} LastPathFirst(rs: seq<Framing>)
    requires rs != []
    ensures LastPath(rs) ==
      if LastPath(rs[1..]).Some? then LastPath(rs[1..])
      else if rs[0].0.Path? && rs[0].0.path != [] then Some(Normalize(rs[0].0.path)) else None
    ensures LastSize(rs) ==
      if LastSize(rs[1..]).Some? then LastSize(rs[1..]) else if rs[0].0.Size? then Some(rs[0].0.size) else None
  {
    hide Normalize;
    var n := |rs| - 1;
    if n > 0 {
      LastPathFirst(rs[..n]);
      assert rs[..n][1..] == rs[1..][..n - 1] && rs[1..][n - 1] == rs[n];
    } else {
      assert rs[..0] == [];
    }
  }

  /** Any records are read back: the last path and the last size count, others
      are passed over. */
  lemma {:induction false} RecordsAreRead(rs: seq<Framing>, info: PaxInfo)
    requires forall i :: 0 <= i < |rs| ==> Readable(rs[i].0) && LengthFits(rs[i].0, rs[i].1)
    ensures PaxFrom(PaxBytes(rs), info) == Some(PaxInfo(
      if LastPath(rs).Some? then LastPath(rs) else info.path, if LastSize(rs).Some? then LastSize(rs) else info.size))
  {
    hide ApplyRecord, RecordBytes, Normalize, Readable, LengthFits, PaxFrom;
    if rs == [] {
      NothingToRead(info);
    } else {
      RecordIsRead(rs[0].0, rs[0].1, PaxBytes(rs[1..]), info);
      RecordApplied(rs[0].0, info);
      RecordsAreRead(rs[1..], ApplyRecord(Body(rs[0].0), info).value);
      LastPathFirst(rs);
    }
  }

  lemma NothingToRead(info: PaxInfo)
    ensures PaxFrom([], info) == Some(info)
  {}

  lemma PaxRoundTrip(rs: seq<Framing>)
    requires forall i :: 0 <= i < |rs| ==> Readable(rs[i].0) && LengthFits(rs[i].0, rs[i].1)
    ensures ParsePax(PaxBytes(rs)) == Some(PaxInfo(LastPath(rs), LastSize(rs)))
  {
    hide Readable, LengthFits;
    RecordsAreRead(rs, PaxInfo(None, None));
  }
}
