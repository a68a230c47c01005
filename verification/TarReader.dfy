/** The loops that read tar headers and pax records (tools/zz9k-archive.c). */
module TarReader {
  import opened Words
  import opened Options
  import opened ArchiveNames
  import opened NameBuffer
  import opened TarHeader

  // ----- numbers -----

  /** parse_octal: no shift leaves the word. */
  method ReadOctal(field: seq<uint8>) returns (r: Option<uint32>)
    ensures r.None? <==> ParseOctal(field).None?
    ensures r.Some? ==> ParseOctal(field) == Some(r.value as nat)
    ensures var part := OctalPart(field);
      (r.Some? <==> part != [] && Digits(part, 0x30, 8) && Spelled(part, 0x30, 8) <= 0xffff_ffff)
      && (r.Some? ==> r.value as nat == Spelled(part, 0x30, 8))
  {
    hide OctalPart, Spelled;
    OctalExact(field);
    var out: uint32, sawDigit, i := 0, false, 0;
    assert field[0..] == field;
    while i < |field| && field[i] != 0 && field[i] != 0x20
      invariant i <= |field| && OctalFrom(field, 0, false) == OctalFrom(field[i..], out as nat, sawDigit)
    {
      var c := field[i];
      if c < 0x30 || c > 0x37 || out > 0x1fff_ffff {
        return None;
      }
      out := out * 8 + (c - 0x30) as uint32;
      sawDigit := true;
      assert field[i..][1..] == field[i + 1..];
      i := i + 1;
    }
    return if sawDigit then Some(out) else None;
  }

  /** parse_base256 behind its first byte. */
  method ReadBase256(field: seq<uint8>) returns (r: Option<uint32>)
    requires field != [] && 0x80 <= field[0]
    ensures r.None? <==> ParseNumber(field).None?
    ensures r.Some? ==> ParseNumber(field) == Some(r.value as nat)
    ensures var bytes := [field[0] - 0x80] + field[1..];
      (r.Some? <==> field[0] < 0xc0 && BeValue(bytes) <= 0x7fff_ffff)
      && (r.Some? ==> r.value as nat == BeValue(bytes))
  {
    hide BeValue;
    Base256Exact(field);
    if field[0] >= 0xc0 {
      return None;
    }
    var out := (field[0] - 0x80) as uint32;
    for i := 1 to |field|
      invariant ParseNumber(field) == Base256From(field[i..], out as nat)
    {
      if out > 0x7f_ffff {
        return None;
      }
      assert field[i..][1..] == field[i + 1..];
      out := out * 0x100 + field[i] as uint32;
    }
    return if out > 0x7fff_ffff then None else Some(out);
  }

  /** parse_tar_number. */
  method ReadNumber(field: seq<uint8>) returns (r: Option<uint32>)
    ensures r.None? <==> ParseNumber(field).None?
    ensures r.Some? ==> ParseNumber(field) == Some(r.value as nat)
  {
    hide OctalFrom;
    if field == [] {
      return None;
    }
    if field[0] >= 0x80 {
      r := ReadBase256(field);
    } else {
      r := ReadOctal(field);
    }
  }

  /** parse_decimal on a field that is not empty. */
  method ReadDecimal(field: seq<uint8>) returns (r: Option<uint32>)
    requires field != []
    ensures r.None? <==> DecimalFrom(field, 0).None?
    ensures r.Some? ==> DecimalFrom(field, 0) == Some(r.value as nat)
    ensures r.Some? <==> Digits(field, 0x30, 10) && Spelled(field, 0x30, 10) <= 0x7fff_ffff
    ensures r.Some? ==> r.value as nat == Spelled(field, 0x30, 10)
  {
    hide Spelled;
    DecimalExact(field);
    var out: uint32 := 0;
    assert field[0..] == field;
    for i := 0 to |field|
      invariant out <= 0x7fff_ffff && DecimalFrom(field, 0) == DecimalFrom(field[i..], out as nat)
    {
      var c := field[i];
      if c < 0x30 || c > 0x39 || out > 0x7fff_ffff / 10 {
        return None;
      }
      out := out * 10;
      if (c - 0x30) as uint32 > 0x7fff_ffff - out {
        return None;
      }
      assert field[i..][1..] == field[i + 1..];
      out := out + (c - 0x30) as uint32;
    }
    return Some(out);
  }

  // ----- the header block -----

  /** The sums of the bytes before place i, the checksum field as spaces. */
  function SumTo(h: Header, i: nat): (s: nat)
    requires i <= 512
    ensures s <= 255 * i
    ensures i == 512 ==> s == ByteSum(h[..148]) + 8 * 0x20 + ByteSum(h[156..])
  {
    ByteSumBound(h[..if i < 148 then i else 148]);
    if i <= 148 then ByteSum(h[..i])
    else if i <= 156 then ByteSum(h[..148]) + 0x20 * (i - 148)
    else
      ByteSumBound(h[156..i]);
      assert h[156..512] == h[156..];
      ByteSum(h[..148]) + 8 * 0x20 + ByteSum(h[156..i])
  }

  function SignedTo(h: Header, i: nat): (s: int)
    requires i <= 512
    ensures i == 512 ==> s == SignedSum(h[..148]) + 8 * 0x20 + SignedSum(h[156..])
  {
    if i <= 148 then SignedSum(h[..i])
    else if i <= 156 then SignedSum(h[..148]) + 0x20 * (i - 148)
    else
      assert h[156..512] == h[156..];
      SignedSum(h[..148]) + 8 * 0x20 + SignedSum(h[156..i])
  }

  lemma SumStep(h: Header, i: nat)
    requires i < 512
    ensures SumTo(h, i + 1) == SumTo(h, i) + if 148 <= i < 156 then 0x20 else h[i] as nat
    ensures SignedTo(h, i + 1) == SignedTo(h, i)
            + if 148 <= i < 156 then 0x20 else if h[i] < 0x80 then h[i] as int else h[i] as int - 0x100
  {
    hide ByteSum, SignedSum;
    if i < 148 {
      assert h[..i + 1] == h[..i] + [h[i]];
      SumSnoc(h[..i], h[i]);
    } else if i >= 156 {
      assert h[156..i + 1] == h[156..i] + [h[i]];
      SumSnoc(h[156..i], h[i]);
      if i == 156 {
        assert h[156..156] == [];
        NoBytes();
      }
    }
  }

  lemma NoBytes()
    ensures ByteSum([]) == 0 && SignedSum([]) == 0
  {}

  lemma SumSnoc(b: seq<uint8>, x: uint8)
    ensures ByteSum(b + [x]) == ByteSum(b) + x as nat
    ensures SignedSum(b + [x]) == SignedSum(b) + if x < 0x80 then x as int else x as int - 0x100
  {
    var c := b + [x];
    assert c[..|c| - 1] == b && c[|c| - 1] == x;
  }

  /** tar_header_checksum_valid. */
  method SumMatches(h: Header) returns (ok: bool)
    ensures ok <==> ChecksumValid(h)
  {
    hide OctalFrom, ByteSum, SignedSum;
    var stored := ReadOctal(h[148..156]);
    if stored.None? {
      return false;
    }
    var sum: uint32, signedSum := 0, 0;
    SumStart(h);
    for i := 0 to 512
      invariant sum as nat == SumTo(h, i) && signedSum == SignedTo(h, i)
    {
      SumStep(h, i);
      assert SumTo(h, i + 1) <= 255 * (i + 1);
      if 148 <= i < 156 {
        sum, signedSum := sum + 0x20, signedSum + 0x20;
      } else {
        sum := sum + h[i] as uint32;
        signedSum := signedSum + if h[i] < 0x80 then h[i] as int else h[i] as int - 0x100;
      }
    }
    return stored.value == sum || stored.value as int == signedSum % 0x1_0000_0000;
  }

  lemma SumStart(h: Header)
    ensures SumTo(h, 0) == 0 && SignedTo(h, 0) == 0
  {}

  /** tar_header_empty. */
  method IsEmpty(h: Header) returns (empty: bool)
    ensures empty <==> Empty(h)
  {
    for i := 0 to 512
      invariant forall j :: 0 <= j < i ==> h[j] == 0
    {
      if h[i] != 0 {
        return false;
      }
    }
    return true;
  }

  /** The length of the string in a field that need not end with a zero. */
  method FieldLength(field: seq<uint8>) returns (n: nat)
    ensures n <= |field| && CString(field) == field[..n]
  {
    n := 0;
    while n < |field| && field[n] != 0
      invariant n <= |field| && forall i :: 0 <= i < n ==> field[i] != 0
    {
      n := n + 1;
    }
    CStringUnique(field, n);
  }

  /** tar_name: prefix, slash and name into a buffer. */
  method ReadName(h: Header, name: array<uint8>) returns (ok: bool)
    requires name.Length == MAX_NAME
    modifies name
    ensures ok <==> HeaderName(h).Some?
    ensures ok ==> Terminated(name[..]) && CString(name[..]) == HeaderName(h).value
  {
    hide CString;
    var nameLen := FieldLength(h[..100]);
    var prefixLen := FieldLength(h[345..500]);
    if nameLen == 0 {
      return false;
    }
    assert h[..100][..nameLen] == h[..nameLen] && h[345..500][..prefixLen] == h[345..345 + prefixLen];
    StringOfString(h[..100]);
    StringOfString(h[345..500]);
    if prefixLen == 0 {
      ok := CopyBytes(name, h[..nameLen]);
      return;
    }
    if prefixLen + 1 + nameLen >= MAX_NAME {
      return false;
    }
    name[0] := 0;
    CStringUnique(name[..], 0);
    CStringUnique([SLASH], 1);
    Append(name, h[345..345 + prefixLen]);
    Append(name, [SLASH]);
    Append(name, h[..nameLen]);
    assert CString(name[..]) == h[345..345 + prefixLen] + [SLASH] + h[..nameLen];
    return true;
  }

  /** tar_entry_from_header. */
  method ReadHeader(h: Header) returns (r: Option<Head>)
    ensures r == EntryFromHeader(h)
  {
    hide ChecksumValid, ParseNumber, HeaderName, Normalize, CString;
    var summed := SumMatches(h);
    if !summed {
      return None;
    }
    var name := new uint8[MAX_NAME];
    var named := ReadName(h, name);
    if !named {
      return None;
    }
    var size := ReadNumber(h[124..136]);
    if size.None? {
      return None;
    }
    var skip := NormalizeInPlace(name);
    var s := Text(name);
    var t := h[156];
    var kind := if t == 0x4c then GnuLongName else if t == 0x78 then Pax else Plain;
    var listed := t == 0 || t == 0x30 || t == 0x35;
    return Some(Head(s, size.value as nat, kind, skip || !listed, t == 0x35 || EndsWithSlash(s)));
  }

  // ----- pax records -----

  /** The decimal length in front of a record; it stays below a million. */
  method ReadDigits(data: seq<uint8>, pos: nat) returns (r: Option<(uint32, nat)>)
    requires pos <= |data|
    ensures r.None? <==> RecordDigits(data[pos..], 0, 0).None?
    ensures r.Some? ==> RecordDigits(data[pos..], 0, 0) == Some((r.value.0 as nat, r.value.1))
    ensures r.Some? ==> r.value.0 < 1_000_000
  {
    var len: uint32, digits: nat := 0, 0;
    while pos + digits < |data| && 0x30 <= data[pos + digits] <= 0x39
      invariant pos + digits <= |data| && len < 1_000_000
      invariant RecordDigits(data[pos..], 0, 0) == RecordDigits(data[pos..], len as nat, digits)
    {
      if len > 99999 {
        return None;
      }
      len := len * 10 + (data[pos + digits] - 0x30) as uint32;
      digits := digits + 1;
    }
    return Some((len, digits));
  }

  /** The place of the first "=" in a body, or its length. */
  method ScanEquals(body: seq<uint8>) returns (n: nat)
    ensures n == FindEquals(body)
  {
    n := 0;
    assert body[0..] == body;
    while n < |body| && body[n] != 0x3d
      invariant n <= |body| && FindEquals(body) == n + FindEquals(body[n..])
    {
      assert body[n..][1..] == body[n + 1..];
      n := n + 1;
    }
  }

  /** A path is cleaned in a buffer of its own. */
  method ReadPath(value: seq<uint8>) returns (r: Option<seq<uint8>>)
    requires |value| < MAX_NAME
    ensures r == Normalize(CString(value))
  {
    hide Normalize, CString;
    if value == [] {
      CStringUnique(value, 0);
      NoName();
      return None;
    }
    var path := new uint8[MAX_NAME];
    var ok := CopyBytes(path, value);
    var skip := NormalizeInPlace(path);
    if skip {
      return None;
    }
    var clean := Text(path);
    return Some(clean);
  }

  lemma NoName()
    ensures Normalize([]) == None
  {}

  /** What one record's body says. */
  method ReadRecord(body: seq<uint8>, info: PaxInfo) returns (r: Option<PaxInfo>)
    ensures r == ApplyRecord(body, info)
  {
    hide Normalize, CString, FindEquals, DecimalFrom;
    var eq := ScanEquals(body);
    if eq != 4 || eq + 1 >= |body| {
      return Some(info);
    }
    if body[..4] == [0x70, 0x61, 0x74, 0x68] {
      if |body| - 5 >= MAX_NAME {
        return None;
      }
      var path := ReadPath(body[5..]);
      return Some(info.(path := Some(path)));
    }
    if body[..4] == [0x73, 0x69, 0x7a, 0x65] {
      var size := ReadDecimal(body[5..]);
      if size.None? {
        return None;
      }
      return Some(info.(size := Some(size.value as nat)));
    }
    return Some(info);
  }

  /** A record at the front whose length, blank and newline are in place. */
  predicate Framed(rest: seq<uint8>, len: nat, digits: nat) {
    digits > 0 && digits + 1 < len <= |rest| && rest[digits] == 0x20 && rest[len - 1] == 0x0a
  }

  lemma OneRecord(rest: seq<uint8>, info: PaxInfo)
    requires rest != []
    ensures PaxFrom(rest, info) ==
      match RecordDigits(rest, 0, 0)
      case None => None
      case Some((len, digits)) =>
        if !Framed(rest, len, digits) then None
        else match ApplyRecord(rest[digits + 1..len - 1], info)
          case None => None
          case Some(next) => PaxFrom(rest[len..], next)
  {
    hide RecordDigits, ApplyRecord;
  }

  lemma SliceOfRest(data: seq<uint8>, pos: nat, from: nat, to: nat)
    requires pos <= |data| && from <= to <= |data| - pos
    ensures data[pos..][from..to] == data[pos + from..pos + to]
    ensures to == |data| - pos ==> data[pos..][from..] == data[pos + from..]
  {}

  /** A record is below a million bytes, so up to this length no position and
      record length added in 32 bits wrap. */
  const PAX_LIMIT: nat := 0xfff0_0000

  /** tar_parse_pax_info. */
  method ReadPax(data: seq<uint8>) returns (r: Option<PaxInfo>)
    requires |data| <= PAX_LIMIT
    ensures r == ParsePax(data)
  {
    hide RecordDigits, ApplyRecord, PaxFrom;
    var pos, info := 0, PaxInfo(None, None);
    assert data[0..] == data;
    while pos < |data|
      invariant pos <= |data| && ParsePax(data) == PaxFrom(data[pos..], info)
    {
      ghost var rest := data[pos..];
      OneRecord(rest, info);
      var d := ReadDigits(data, pos);
      if d.None? {
        return None;
      }
      var len, digits := d.value.0 as nat, d.value.1;
      assert pos + len < 0x1_0000_0000;
      if digits == 0 || pos + digits >= |data| || data[pos + digits] != 0x20 || len <= digits + 1
          || pos + len > |data| {
        return None;
      }
      if data[pos + len - 1] != 0x0a {
        return None;
      }
      var body := data[pos + digits + 1..pos + len - 1];
      SliceOfRest(data, pos, digits + 1, len - 1);
      SliceOfRest(data, pos, len, |rest|);
      var next := ReadRecord(body, info);
      if next.None? {
        return None;
      }
      pos, info := pos + len, next.value;
    }
    assert data[pos..] == [];
    NoRecord(info);
    return Some(info);
  }

  lemma NoRecord(info: PaxInfo)
    ensures PaxFrom([], info) == Some(info)
  {}
}
