/** Reading tar headers and pax records (tools/zz9k-archive.c). */
module TarHeader {
  import opened Words
  import opened Options
  import opened ArchiveNames

  const BLOCK: nat := 512

  // ----- numbers -----

  /** parse_octal from some digits on: stops at a zero byte or a space. */
  function OctalFrom(field: seq<uint8>, out: nat, sawDigit: bool): (r: Option<nat>)
    ensures out < 0x1_0000_0000 && r.Some? ==> r.value < 0x1_0000_0000
  {
    if field == [] || field[0] == 0 || field[0] == 0x20 then (if sawDigit then Some(out) else None)
    else if field[0] < 0x30 || field[0] > 0x37 || out > 0x1fff_ffff then None
    else OctalFrom(field[1..], out * 8 + (field[0] as nat - 0x30), true)
  }

  function ParseOctal(field: seq<uint8>): (r: Option<nat>)
    ensures r.Some? ==> r.value < 0x1_0000_0000
  {
    OctalFrom(field, 0, false)
  }

  function Base256From(rest: seq<uint8>, out: nat): (r: Option<nat>)
    ensures r.Some? ==> r.value <= 0x7fff_ffff
  {
    if rest == [] then (if out > 0x7fff_ffff then None else Some(out))
    else if out > 0x7f_ffff then None
    else Base256From(rest[1..], out * 0x100 + rest[0] as nat)
  }

  /** parse_tar_number: octal, or base 256 when the top bit is set. */
  function ParseNumber(field: seq<uint8>): (r: Option<nat>)
    ensures r.Some? ==> r.value < 0x1_0000_0000
  {
    if field == [] then None
    else if field[0] >= 0x80 then
      if field[0] >= 0xc0 then None else Base256From(field[1..], field[0] as nat - 0x80)
    else ParseOctal(field)
  }

  /** The digits of n in `width` octal places. */
  function OctalDigits(n: nat, width: nat): (d: seq<uint8>)
    ensures |d| == width
  {
    if width == 0 then [] else OctalDigits(n / 8, width - 1) + [(0x30 + n % 8) as uint8]
  }

  lemma {:induction false} OctalStep(n: nat, width: nat, rest: seq<uint8>, saw: bool)
    requires n < Pow(8, width) && n < 0x1_0000_0000
    ensures OctalFrom(OctalDigits(n, width) + rest, 0, saw) == OctalFrom(rest, n, saw || width > 0)
  {
    if width == 0 {
      assert OctalDigits(n, width) + rest == rest;
    } else {
      var last := [(0x30 + n % 8) as uint8];
      assert OctalDigits(n, width) + rest == OctalDigits(n / 8, width - 1) + (last + rest);
      OctalStep(n / 8, width - 1, last + rest, saw);
      assert (last + rest)[1..] == rest;
    }
  }

  /** Every number of 32 bits written in octal is read back. */
  lemma OctalRoundTrip(n: nat, width: nat, rest: seq<uint8>)
    requires n < Pow(8, width) && n < 0x1_0000_0000 && width > 0
    requires rest == [] || rest[0] == 0 || rest[0] == 0x20
    ensures ParseOctal(OctalDigits(n, width) + rest) == Some(n)
  {
    hide Pow;
    OctalStep(n, width, rest, false);
  }

  /** parse_decimal: all of the field is digits, below 2^31. */
  function DecimalFrom(field: seq<uint8>, out: nat): (r: Option<nat>)
    requires out <= 0x7fff_ffff
    ensures r.Some? ==> r.value <= 0x7fff_ffff
  {
    if field == [] then Some(out)
    else if field[0] < 0x30 || field[0] > 0x39 || out > 0x7fff_ffff / 10 then None
    else
      var d := field[0] as nat - 0x30;
      if d > 0x7fff_ffff - out * 10 then None else DecimalFrom(field[1..], out * 10 + d)
  }

  // ----- what the numbers are -----

  /** All bytes are digits of a base whose zero is written as `zero`. */
  predicate Digits(field: seq<uint8>, zero: uint8, base: nat) {
    forall i :: 0 <= i < |field| ==> zero <= field[i] && field[i] as nat < zero as nat + base
  }

  /** The number they spell, most significant digit first. */
  function Spelled(field: seq<uint8>, zero: uint8, base: nat): (v: nat)
    requires Digits(field, zero, base)
  {
    if field == [] then 0
    else base * Spelled(field[..|field| - 1], zero, base) + (field[|field| - 1] as nat - zero as nat)
  }

  /** What all three loops do: digit by digit, as long as a limit is kept. */
  function Bounded(field: seq<uint8>, zero: uint8, base: nat, limit: nat, out: nat): (r: Option<nat>) {
    if field == [] then Some(out)
    else if field[0] < zero || field[0] as nat >= zero as nat + base then None
    else
      var next := out * base + (field[0] as nat - zero as nat);
      if next > limit then None else Bounded(field[1..], zero, base, limit, next)
  }

  lemma {:induction false} SpelledGrows(field: seq<uint8>, zero: uint8, base: nat, i: nat)
    requires Digits(field, zero, base) && base > 0 && i <= |field|
    ensures Digits(field[..i], zero, base) && Spelled(field[..i], zero, base) <= Spelled(field, zero, base)
    decreases |field|
  {
    if i == |field| {
      assert field[..i] == field;
    } else {
      var init := field[..|field| - 1];
      SpelledGrows(init, zero, base, i);
      assert init[..i] == field[..i];
      AtLeast(base, Spelled(init, zero, base));
    }
  }

  lemma AtLeast(b: nat, v: nat)
    requires b > 0
    ensures v <= b * v
  {}

  /** It refuses exactly a byte that is no digit or a number above the limit:
      no guard on the way refuses a number that would have fitted. */
  lemma {:induction false} BoundedExact(field: seq<uint8>, zero: uint8, base: nat, limit: nat, i: nat)
    requires base > 0 && i <= |field| && Digits(field[..i], zero, base) && Spelled(field[..i], zero, base) <= limit
    ensures Bounded(field[i..], zero, base, limit, Spelled(field[..i], zero, base))
            == if Digits(field, zero, base) && Spelled(field, zero, base) <= limit
               then Some(Spelled(field, zero, base)) else None
    decreases |field| - i
  {
    if i == |field| {
      assert field[..i] == field;
    } else if zero <= field[i] && field[i] as nat < zero as nat + base {
      assert field[..i + 1][..i] == field[..i] && field[i..][1..] == field[i + 1..];
      assert Digits(field[..i + 1], zero, base);
      if Spelled(field[..i + 1], zero, base) <= limit {
        BoundedExact(field, zero, base, limit, i + 1);
      } else if Digits(field, zero, base) {
        SpelledGrows(field, zero, base, i + 1);
      }
    }
  }

  lemma {:induction false} DecimalIsBounded(field: seq<uint8>, out: nat)
    requires out <= 0x7fff_ffff
    ensures DecimalFrom(field, out) == Bounded(field, 0x30, 10, 0x7fff_ffff, out)
  {
    if field != [] && 0x30 <= field[0] <= 0x39 {
      var next := out * 10 + (field[0] as nat - 0x30);
      if next <= 0x7fff_ffff {
        DecimalIsBounded(field[1..], next);
      }
    }
  }

  /** parse_decimal: the number the digits spell, if it is below 2^31. */
  lemma DecimalExact(field: seq<uint8>)
    ensures DecimalFrom(field, 0) == if Digits(field, 0x30, 10) && Spelled(field, 0x30, 10) <= 0x7fff_ffff
                                     then Some(Spelled(field, 0x30, 10)) else None
  {
    DecimalIsBounded(field, 0);
    BoundedExact(field, 0x30, 10, 0x7fff_ffff, 0);
    assert field[0..] == field && field[..0] == [];
  }

  lemma {:induction false} Base256IsBounded(rest: seq<uint8>, out: nat)
    requires out <= 0x7fff_ffff
    ensures Base256From(rest, out) == Bounded(rest, 0, 0x100, 0x7fff_ffff, out)
  {
    if rest != [] && out <= 0x7f_ffff {
      Base256IsBounded(rest[1..], out * 0x100 + rest[0] as nat);
    }
  }

  /** parse_base256: the big-endian number below its mark bit, if it is below
      2^31; a second mark bit refuses it. */
  lemma Base256Exact(field: seq<uint8>)
    requires field != [] && field[0] >= 0x80
    ensures var bytes := [field[0] - 0x80] + field[1..];
      ParseNumber(field) == if field[0] < 0xc0 && BeValue(bytes) <= 0x7fff_ffff then Some(BeValue(bytes)) else None
  {
    var first := field[0] - 0x80;
    var bytes := [first] + field[1..];
    assert bytes[1..] == field[1..] && bytes[..1] == [first] && [first][..0] == [];
    SpelledIsBe(bytes);
    assert Spelled(bytes[..1], 0, 0x100) == first as nat;
    Base256IsBounded(field[1..], first as nat);
    BoundedExact(bytes, 0, 0x100, 0x7fff_ffff, 1);
  }

  lemma {:induction false} SpelledIsBe(b: seq<uint8>)
    ensures Digits(b, 0, 0x100) && Spelled(b, 0, 0x100) == BeValue(b)
  {
    if b != [] {
      SpelledIsBe(b[..|b| - 1]);
    }
  }

  /** The part of an octal field before its first zero byte or space. */
  function OctalPart(field: seq<uint8>): (p: seq<uint8>)
    ensures p <= field
  {
    if field == [] || field[0] == 0 || field[0] == 0x20 then [] else [field[0]] + OctalPart(field[1..])
  }

  lemma {:induction false} OctalIsBounded(field: seq<uint8>, out: nat, saw: bool)
    requires out <= 0xffff_ffff
    ensures OctalFrom(field, out, saw) ==
      if OctalPart(field) == [] && !saw then None else Bounded(OctalPart(field), 0x30, 8, 0xffff_ffff, out)
  {
    if field != [] && field[0] != 0 && field[0] != 0x20 {
      var part := OctalPart(field);
      assert part[1..] == OctalPart(field[1..]);
      if 0x30 <= field[0] <= 0x37 && out <= 0x1fff_ffff {
        OctalIsBounded(field[1..], out * 8 + (field[0] as nat - 0x30), true);
      }
    }
  }

  /** parse_octal: the number spelled before the terminator, if there is one
      and it fits 32 bits. */
  lemma OctalExact(field: seq<uint8>)
    ensures var part := OctalPart(field);
      ParseOctal(field) == if part != [] && Digits(part, 0x30, 8) && Spelled(part, 0x30, 8) <= 0xffff_ffff
                           then Some(Spelled(part, 0x30, 8)) else None
  {
    var part := OctalPart(field);
    OctalIsBounded(field, 0, false);
    BoundedExact(part, 0x30, 8, 0xffff_ffff, 0);
    assert part[0..] == part && part[..0] == [];
  }

  // ----- the header block -----

  type Header = h: seq<uint8> | |h| == 512 witness seq(512, _ => 0)

  function SignedSum(b: seq<uint8>): int {
    if b == [] then 0
    else SignedSum(b[..|b| - 1]) + if b[|b| - 1] < 0x80 then b[|b| - 1] as int else b[|b| - 1] as int - 0x100
  }

  /** The stored sum matches the unsigned or the signed sum of the block, its
      own field counted as spaces. */
  predicate ChecksumValid(h: Header) {
    var stored := ParseOctal(h[148..156]);
    && stored.Some?
    && (stored.value == ByteSum(h[..148]) + 8 * 0x20 + ByteSum(h[156..])
        || stored.value == (SignedSum(h[..148]) + 8 * 0x20 + SignedSum(h[156..])) % 0x1_0000_0000)
  }

  predicate Empty(h: Header) {
    forall i :: 0 <= i < 512 ==> h[i] == 0
  }

  function HeaderName(h: Header): (r: Option<seq<uint8>>) {
    var name, prefix := CString(h[..100]), CString(h[345..500]);
    if name == [] then None
    else if prefix == [] then Some(name)
    else if |prefix| + 1 + |name| >= MAX_NAME then None
    else Some(prefix + [SLASH] + name)
  }

  datatype Kind = Plain | GnuLongName | Pax

  datatype Head = Head(name: seq<uint8>, size: nat, kind: Kind, skip: bool, isDir: bool)

  /** tar_entry_from_header. */
  function EntryFromHeader(h: Header): (r: Option<Head>)
    ensures r.Some? ==> r.value.size < 0x1_0000_0000
    ensures r.Some? && r.value.kind != Plain ==> r.value.skip
  {
    var raw, size := HeaderName(h), ParseNumber(h[124..136]);
    if !ChecksumValid(h) || raw.None? || size.None? then None
    else
      var normal, t := Normalize(raw.value), h[156];
      var name := if normal.None? then [] else normal.value;
      var kind := if t == 0x4c then GnuLongName else if t == 0x78 then Pax else Plain;
      Some(Head(name, size.value, kind, normal.None? || !(t == 0 || t == 0x30 || t == 0x35), t == 0x35
                || EndsWithSlash(name)))
  }

  // ----- pax records -----

  /** The decimal digits at the front of a record: their value and number. */
  function RecordDigits(data: seq<uint8>, len: nat, digits: nat): (r: Option<(nat, nat)>)
    requires digits <= |data|
    ensures r.Some? ==> digits <= r.value.1 <= |data|
    decreases |data| - digits
  {
    if digits < |data| && 0x30 <= data[digits] <= 0x39 then
      if len > 99999 then None else RecordDigits(data, len * 10 + (data[digits] as nat - 0x30), digits + 1)
    else Some((len, digits))
  }

  function FindEquals(body: seq<uint8>): (n: nat)
    ensures n <= |body| && (n < |body| ==> body[n] == 0x3d)
  {
    if body == [] || body[0] == 0x3d then 0 else 1 + FindEquals(body[1..])
  }

  /** What the records say; `path` is None within Some for a skipped name. */
  datatype PaxInfo = PaxInfo(path: Option<Option<seq<uint8>>>, size: Option<nat>)

  /** One record's key and value, applied. */
  function ApplyRecord(body: seq<uint8>, info: PaxInfo): (r: Option<PaxInfo>)
  {
    var eq := FindEquals(body);
    if eq + 1 >= |body| || eq != 4 then Some(info)
    else if body[..4] == [0x70, 0x61, 0x74, 0x68] then
      if |body| - 5 >= MAX_NAME then None else Some(info.(path := Some(Normalize(CString(body[5..])))))
    else if body[..4] == [0x73, 0x69, 0x7a, 0x65] then
      var size := DecimalFrom(body[5..], 0);
      if size.None? then None else Some(info.(size := size))
    else Some(info)
  }

  /** tar_parse_pax_info on the records not read yet. */
  function PaxFrom(data: seq<uint8>, info: PaxInfo): (r: Option<PaxInfo>)
    decreases |data|
  {
    if data == [] then Some(info)
    else
      var d := RecordDigits(data, 0, 0);
      if d.None? then None
      else
        var (len, digits) := d.value;
        if digits == 0 || digits >= |data| || data[digits] != 0x20 || len <= digits + 1 || len > |data| then None
        else if data[len - 1] != 0x0a then None
        else
          var next := ApplyRecord(data[digits + 1..len - 1], info);
          if next.None? then None else PaxFrom(data[len..], next.value)
  }

  function ParsePax(data: seq<uint8>): Option<PaxInfo> {
    PaxFrom(data, PaxInfo(None, None))
  }

  // ----- names that are written to -----

  /** path_is_safe from a component boundary on: no empty component except
      after the last slash, no "." or "..", no colon or backslash. */
  predicate SafeFrom(path: seq<uint8>, component: nat, p: nat)
    requires component <= p <= |path|
    decreases |path| - p
  {
    if p < |path| && (path[p] == 0x3a || path[p] == 0x5c) then false
    else if p == |path| || path[p] == SLASH then
      if p == component then p == |path| && p != 0
      else if path[component..p] == [DOT] || path[component..p] == [DOT, DOT] then false
      else p == |path| || SafeFrom(path, p + 1, p + 1)
    else SafeFrom(path, component, p + 1)
  }

  predicate Safe(path: seq<uint8>) {
    path != [] && path[0] != SLASH && path[0] != 0x5c && SafeFrom(path, 0, 0)
  }
}
