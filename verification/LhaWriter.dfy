/** LHA headers of the levels 0, 1 and 2 as they are written, and that the
    parser (tools/zz9k-archive.c) gives back what was written. */
module LhaWriter {
  import opened Words
  import opened Options
  import opened ArchiveNames
  import opened NameBuffer
  import opened Lha

  // ----- names -----

  /** A clean name without a leading "./" and without the bytes that stand for
      separators or end a string. */
  predicate Proper(s: seq<uint8>) {
    && Clean(s) && !(|s| >= 3 && s[0] == DOT && s[1] == SLASH)
    && forall i :: 0 <= i < |s| ==> s[i] != 0 && s[i] != 0x5c && s[i] != 0xff
  }

  /** A way to write a name: separators are slashes, backslashes or 0xff. */
  predicate Spells(src: seq<uint8>, name: seq<uint8>) {
    && |src| == |name|
    && forall i :: 0 <= i < |src| ==> src[i] == name[i] || (name[i] == SLASH && src[i] in {0x5c, 0xff})
  }

  lemma AnySpellingIsRead(src: seq<uint8>, name: seq<uint8>)
    requires Proper(name) && Spells(src, name) && 0 < |name| < 256
    ensures CopyLhaName(src) == Some(name)
  {
    hide Strip;
    CStringUnique(src, |src|);
    assert src[..|src|] == src;
    var s := Replace(src, 0x5c, SLASH);
    HalfSpelled(s, name);
    StripProper(s);
    assert Replace(s, 0xff, SLASH) == name;
    StripProper(name);
  }

  /** With backslashes replaced, but not yet 0xff, there is nothing to strip. */
  lemma HalfSpelled(s: seq<uint8>, name: seq<uint8>)
    requires Proper(name) && |s| == |name|
    requires forall i :: 0 <= i < |s| ==> s[i] == name[i] || (name[i] == SLASH && s[i] == 0xff)
    ensures Clean(s) && !(|s| >= 3 && s[0] == DOT && s[1] == SLASH)
  {}

  lemma StripProper(s: seq<uint8>)
    requires Clean(s) && !(|s| >= 3 && s[0] == DOT && s[1] == SLASH)
    ensures Strip(s) == s
  {
    NothingToDrop(s);
    CleanStays(s);
  }

  // ----- extensions -----

  datatype Extension =
      NameExt(name: seq<uint8>, src: seq<uint8>, zeros: nat)
    | DirExt(dir: seq<uint8>, src: seq<uint8>, zeros: nat)
    | OtherExt(kind: uint8, data: seq<uint8>)

  function Kind(x: Extension): uint8 {
    match x
    case NameExt(_, _, _) => 1
    case DirExt(_, _, _) => 2
    case OtherExt(kind, _) => kind
  }

  /** Zero bytes may follow a name. */
  function Data(x: Extension): seq<uint8> {
    match x
    case NameExt(_, src, zeros) => src + seq(zeros, _ => 0)
    case DirExt(_, src, zeros) => src + seq(zeros, _ => 0)
    case OtherExt(_, data) => data
  }

  predicate SoundExt(x: Extension) {
    && |Data(x)| + 3 < 0x1_0000
    && match x
       case NameExt(name, src, _) => Proper(name) && Spells(src, name) && 0 < |name| < 256
       case DirExt(dir, src, _) => Proper(dir) && Spells(src, dir) && 0 < |dir| < 256
       case OtherExt(kind, _) => kind != 1 && kind != 2
  }

  predicate SoundExts(xs: seq<Extension>) {
    forall i :: 0 <= i < |xs| ==> SoundExt(xs[i])
  }

  function Bytes16(v: nat): (b: seq<uint8>)
    requires v < 0x1_0000
    ensures |b| == 2
  {
    [(v % 0x100) as uint8, (v / 0x100) as uint8]
  }

  /** The size of the first extension, with its own size field; zero for none. */
  function FirstSize(xs: seq<Extension>): (n: nat)
    requires SoundExts(xs)
    ensures n < 0x1_0000
  {
    if xs == [] then 0 else |Data(xs[0])| + 3
  }

  /** Kind, data and the size of the next one, for each. */
  function ChainBytes(xs: seq<Extension>): seq<uint8>
    requires SoundExts(xs)
  {
    if xs == [] then [] else [Kind(xs[0])] + Data(xs[0]) + Bytes16(FirstSize(xs[1..])) + ChainBytes(xs[1..])
  }

  /** The name, and the directory, that the last such extension gives. */
  function LastName(xs: seq<Extension>): seq<uint8> {
    if xs == [] then []
    else if xs[|xs| - 1].NameExt? then xs[|xs| - 1].name
    else LastName(xs[..|xs| - 1])
  }

  function LastDir(xs: seq<Extension>): seq<uint8> {
    if xs == [] then []
    else if xs[|xs| - 1].DirExt? then xs[|xs| - 1].dir
    else LastDir(xs[..|xs| - 1])
  }

  predicate Named(x: Extension) {
    (x.NameExt? ==> x.name != []) && (x.DirExt? ==> x.dir != [])
  }

  lemma {:induction false} LastFromFront(xs: seq<Extension>)
    requires xs != [] && forall i :: 0 <= i < |xs| ==> Named(xs[i])
    ensures LastName(xs) ==
      if LastName(xs[1..]) != [] then LastName(xs[1..]) else if xs[0].NameExt? then xs[0].name else []
    ensures LastDir(xs) == if LastDir(xs[1..]) != [] then LastDir(xs[1..]) else if xs[0].DirExt? then xs[0].dir else []
  {
    var n := |xs| - 1;
    if n > 0 {
      LastFromFront(xs[..n]);
      assert xs[..n][1..] == xs[1..][..n - 1] && xs[1..][n - 1] == xs[n];
      assert Named(xs[n]);
    } else {
      assert xs[..0] == [] && xs[1..] == [];
    }
  }

  lemma AllNamed(xs: seq<Extension>)
    requires SoundExts(xs)
    ensures forall i :: 0 <= i < |xs| ==> Named(xs[i])
  {
    forall i | 0 <= i < |xs|
      ensures Named(xs[i])
    {
      assert SoundExt(xs[i]);
    }
  }

  lemma SizeIsRead(hdr: seq<uint8>, pos: nat, v: nat)
    requires v < 0x1_0000 && At(hdr, pos, Bytes16(v))
    ensures pos + 2 <= |hdr| && Le16(hdr, pos) == v
  {
    AtIndex(hdr, pos, Bytes16(v), 0);
    AtIndex(hdr, pos, Bytes16(v), 1);
  }

  lemma {:induction false} ZerosAreTrimmed(s: seq<uint8>, zeros: nat)
    requires s != [] ==> s[|s| - 1] != 0
    ensures TrimZeros(s + seq(zeros, _ => 0)) == s
  {
    var z: seq<uint8> := seq(zeros, _ => 0);
    if zeros == 0 {
      assert s + z == s;
    } else {
      ZerosAreTrimmed(s, zeros - 1);
      assert (s + z)[..|s + z| - 1] == s + seq(zeros - 1, _ => 0);
    }
  }

  lemma NameIsTaken(hdr: seq<uint8>, e: Ext, size: nat, src: seq<uint8>, zeros: nat, name: seq<uint8>)
    requires Proper(name) && Spells(src, name) && 0 < |name| < 256
    requires size == |src| + zeros + 3 && e.pos + size <= |hdr| && hdr[e.pos] in {1, 2}
    requires hdr[e.pos + 1..e.pos + size - 2] == src + seq(zeros, _ => 0)
    ensures OneExtension(hdr, size, e)
            == Some(Ext(e.pos + size, e.total + size, if hdr[e.pos] == 2 then name else e.dir,
                        if hdr[e.pos] == 1 then name else e.name))
  {
    hide CopyLhaName, TrimZeros, Proper;
    LastNotZero(src, name);
    ZerosAreTrimmed(src, zeros);
    AnySpellingIsRead(src, name);
  }

  lemma OtherIsPassed(hdr: seq<uint8>, e: Ext, size: nat)
    requires size >= 3 && e.pos + size <= |hdr| && hdr[e.pos] != 1 && hdr[e.pos] != 2
    ensures OneExtension(hdr, size, e) == Some(Ext(e.pos + size, e.total + size, e.dir, e.name))
  {
    hide TrimZeros;
  }

  lemma ExtensionIsThere(hdr: seq<uint8>, pos: nat, kind: uint8, data: seq<uint8>, next: nat)
    requires next < 0x1_0000 && At(hdr, pos, [kind] + data + Bytes16(next))
    ensures pos + |data| + 3 <= |hdr| && hdr[pos] == kind && Le16(hdr, pos + |data| + 1) == next
    ensures hdr[pos + 1..pos + 1 + |data|] == data
  {
    hide Bytes16, Le16;
    AtParts(hdr, pos, [kind] + data, Bytes16(next));
    AtParts(hdr, pos, [kind], data);
    AtIndex(hdr, pos, [kind], 0);
    SizeIsRead(hdr, pos + 1 + |data|, next);
  }

  /** One extension with what was read so far. */
  lemma ExtensionIsRead(hdr: seq<uint8>, e: Ext, x: Extension, next: nat)
    requires SoundExt(x) && next < 0x1_0000 && At(hdr, e.pos, [Kind(x)] + Data(x) + Bytes16(next))
    ensures e.pos + |Data(x)| + 3 <= |hdr| && Le16(hdr, e.pos + |Data(x)| + 1) == next
    ensures OneExtension(hdr, |Data(x)| + 3, e)
            == Some(Ext(e.pos + |Data(x)| + 3, e.total + |Data(x)| + 3, if x.DirExt? then x.dir else e.dir,
                        if x.NameExt? then x.name else e.name))
  {
    hide OneExtension, Bytes16, Le16, Proper, Spells, At;
    ExtensionIsThere(hdr, e.pos, Kind(x), Data(x), next);
    match x {
      case NameExt(name, src, zeros) =>
        SameLength(src, name);
        NameIsTaken(hdr, e, |Data(x)| + 3, src, zeros, name);
      case DirExt(dir, src, zeros) =>
        SameLength(src, dir);
        NameIsTaken(hdr, e, |Data(x)| + 3, src, zeros, dir);
      case OtherExt(kind, data) => OtherIsPassed(hdr, e, |Data(x)| + 3);
    }
  }

  lemma SameLength(src: seq<uint8>, name: seq<uint8>)
    requires Spells(src, name)
    ensures |src| == |name|
  {}

  lemma LastNotZero(src: seq<uint8>, name: seq<uint8>)
    requires Proper(name) && Spells(src, name) && name != []
    ensures src[|src| - 1] != 0
  {}

  /** The whole chain. */
  lemma {:induction false} ChainIsRead(hdr: seq<uint8>, e: Ext, xs: seq<Extension>)
    requires SoundExts(xs) && At(hdr, e.pos, ChainBytes(xs))
    ensures Extensions(hdr, FirstSize(xs), e)
            == ChainEnd(Ext(e.pos + |ChainBytes(xs)|, e.total + |ChainBytes(xs)|,
                            if LastDir(xs) != [] then LastDir(xs) else e.dir,
                            if LastName(xs) != [] then LastName(xs) else e.name))
    decreases |xs|
  {
    hide OneExtension, Le16, Bytes16, Data, Kind, At, SoundExt, LastName, LastDir;
    if xs == [] {
      NoneIsLast();
    } else {
      var x, rest := xs[0], xs[1..];
      var first := [Kind(x)] + Data(x) + Bytes16(FirstSize(rest));
      AtParts(hdr, e.pos, first, ChainBytes(rest));
      ExtensionIsRead(hdr, e, x, FirstSize(rest));
      var next := OneExtension(hdr, |Data(x)| + 3, e).value;
      ChainIsRead(hdr, next, rest);
      AllNamed(xs);
      LastFromFront(xs);
    }
  }

  lemma NoneIsLast()
    ensures LastName([]) == [] && LastDir([]) == []
  {}

  // ----- a header -----

  /** The methods that are known, and others of the same families. */
  datatype Method = Lh0 | Lz4 | Lhd | Lh1 | Lh5 | Lh6 | Lh7 | Unknown(family: char, digit: uint8)

  function MethodId(m: Method): string {
    match m
    case Lh0 => "-lh0-"
    case Lz4 => "-lz4-"
    case Lhd => "-lhd-"
    case Lh1 => "-lh1-"
    case Lh5 => "-lh5-"
    case Lh6 => "-lh6-"
    case Lh7 => "-lh7-"
    case Unknown(family, digit) => ['-', 'l', family, digit as char, '-']
  }

  predicate SoundMethod(m: Method) {
    m.Unknown? ==>
      (m.family == 'h' && m.digit as char !in {'0', 'd', '1', '5', '6', '7'})
          || (m.family == 'z' && m.digit as char != '4')
  }

  /** The number the archive tool knows a method by. */
  function Number(m: Method): uint32 {
    match m
    case Lh0 => 0
    case Lz4 => 0
    case Lh1 => 1
    case Lh5 => 5
    case Lh6 => 6
    case Lh7 => 7
    case Lhd => 11
    case Unknown(_, _) => 0xffff_ffff
  }

  /** What a header says; `stamp` are time and attribute, `area` the bytes at the
      end of a header of level 0. */
  datatype Fields = Fields(level: nat, coding: Method, compressed: uint32, original: uint32, crc: nat, name: seq<uint8>,
                           src: seq<uint8>, exts: seq<Extension>, stamp: seq<uint8>, system: uint8, area: seq<uint8>)

  /** The name in the header, if it has one: level 2 has none. */
  predicate SoundName(f: Fields) {
    && |f.src| == |f.name| < 256
    && (f.name != [] ==> Proper(f.name) && Spells(f.src, f.name))
    && (f.level == 2 ==> f.name == [])
  }

  predicate Sound(f: Fields) {
    && f.level <= 2 && SoundMethod(f.coding) && f.crc < 0x1_0000 && |f.stamp| == 5
    && SoundName(f) && SoundExts(f.exts) && (f.level == 0 ==> f.exts == []) && (f.level != 0 ==> f.area == [])
    && (f.level == 0 ==> 22 + |f.name| + |f.area| < 0x100)
    && (f.level == 1 ==> 25 + |f.name| < 0x100 && |ChainBytes(f.exts)| + f.compressed as nat < 0x1_0000_0000)
    && (f.level == 2 ==> 26 + |ChainBytes(f.exts)| < 0x1_0000)
  }

  /** At level 2 the low byte of the size comes first, and a zero byte there
      would end the archive: writers avoid such sizes. */
  predicate StartsNonzero(f: Fields)
    requires Sound(f)
  {
    f.level == 2 ==> (26 + |ChainBytes(f.exts)|) % 0x100 != 0
  }

  /** At level 1 the size of the data is written with that of the extensions. */
  function SizeField(f: Fields): uint32
    requires Sound(f)
  {
    if f.level == 1 then (|ChainBytes(f.exts)| + f.compressed as nat) as uint32 else f.compressed
  }

  /** Method, sizes, time and attribute, level: bytes 2 to 20. */
  function CommonBytes(f: Fields): (b: seq<uint8>)
    requires Sound(f)
    ensures |b| == 19
  {
    Ascii(MethodId(f.coding)) + Bytes32(SizeField(f)) + Bytes32(f.original) + f.stamp + [f.level as uint8]
  }

  /** What follows the level byte, up to the extensions. */
  function LevelBytes(f: Fields): (b: seq<uint8>)
    requires Sound(f)
    ensures |b| == if f.level == 0 then 3 + |f.name| + |f.area| else if f.level == 1 then 6 + |f.name| else 5
  {
    if f.level == 0 then [|f.src| as uint8] + f.src + Bytes16(f.crc) + f.area
    else if f.level == 1 then [|f.src| as uint8] + f.src + Bytes16(f.crc) + [f.system] + Bytes16(FirstSize(f.exts))
    else Bytes16(f.crc) + [f.system] + Bytes16(FirstSize(f.exts))
  }

  /** The size of the base header and the sum of its bytes; at level 2 the size
      of the whole header. */
  function LeadBytes(f: Fields): (b: seq<uint8>)
    requires Sound(f)
    ensures |b| == 2
  {
    if f.level == 2 then Bytes16(26 + |ChainBytes(f.exts)|)
    else
      var body := CommonBytes(f) + LevelBytes(f);
      [|body| as uint8, (ByteSum(body) % 0x100) as uint8]
  }

  function HeaderBytes(f: Fields): seq<uint8>
    requires Sound(f)
  {
    LeadBytes(f) + CommonBytes(f) + LevelBytes(f) + ChainBytes(f.exts)
  }

  // ----- what is to be read -----

  /** The name from the extensions, otherwise the one in the header, otherwise a
      name for members without one. */
  function BaseName(f: Fields): seq<uint8> {
    if LastName(f.exts) != [] then LastName(f.exts) else if f.name != [] then f.name else UNNAMED
  }

  /** Directory, slash and name. */
  function FullName(f: Fields): seq<uint8> {
    var dir := LastDir(f.exts);
    if dir == [] then BaseName(f) else if EndsWithSlash(dir) then dir + BaseName(f) else dir + [0x2f] + BaseName(f)
  }

  /** A directory has a name with a slash at its end; it may come from the
      directory alone. */
  function DirName(f: Fields): seq<uint8> {
    var n := if LastDir(f.exts) != [] && LastName(f.exts) == [] then LastDir(f.exts) else FullName(f);
    if EndsWithSlash(n) then n else n + [0x2f]
  }

  predicate SoundFull(f: Fields) {
    Proper(FullName(f)) && |FullName(f)| < 256 && (f.coding.Lhd? ==> |DirName(f)| < 256)
  }

  function EntryOf(f: Fields): Entry
    requires Sound(f)
  {
    var name := if f.coding.Lhd? then DirName(f) else FullName(f);
    Entry(name, Number(f.coding), EndsWithSlash(name), Some(f.crc), f.compressed as nat, f.original as nat,
          |HeaderBytes(f)|)
  }

  // ----- the header, read -----

  lemma MethodIsRead(m: Method)
    requires SoundMethod(m)
    ensures var id := Ascii(MethodId(m));
      && |id| == 5 && id[0] == 0x2d && id[1] == 0x6c && (id[2] == 0x68 || id[2] == 0x7a) && id[4] == 0x2d
      && Coding(id) == Number(m)
  {
    hide Coding;
    var id := Ascii(MethodId(m));
    CodingOfTwo(id[2], id[3]);
    assert id == [0x2d, 0x6c, id[2], id[3], 0x2d];
  }

  /** The family and the digit decide. */
  lemma CodingOfTwo(family: uint8, digit: uint8)
    ensures Coding([0x2d, 0x6c, family, digit, 0x2d]) ==
      if (family as char, digit as char) in {('h', '0'), ('z', '4')} then 0
      else if family as char != 'h' then UNKNOWN_CODING
      else match digit as char
        case 'd' => LHD
        case '1' => 1
        case '5' => 5
        case '6' => 6
        case '7' => 7
        case _ => UNKNOWN_CODING
  {
    var id := [0x2d, 0x6c, family, digit, 0x2d];
    assert id[2] == family && id[3] == digit;
  }

  lemma WordIsRead(hdr: seq<uint8>, pos: nat, v: uint32)
    requires At(hdr, pos, Bytes32(v))
    ensures pos + 4 <= |hdr| && Load32(hdr, pos) == v
  {
    hide Bytes32;
    assert hdr[pos..pos + 4] == Bytes32(v);
  }

  lemma CommonIsRead(hdr: seq<uint8>, f: Fields)
    requires Sound(f) && At(hdr, 2, CommonBytes(f))
    ensures |hdr| >= 21 && hdr[2..7] == Ascii(MethodId(f.coding)) && hdr[20] as nat == f.level
    ensures Load32(hdr, 7) == SizeField(f) && Load32(hdr, 11) == f.original
  {
    MethodIsRead(f.coding);
    hide Bytes32, SizeField, MethodId, At, Load32, Sound;
    var id, size, original := Ascii(MethodId(f.coding)), Bytes32(SizeField(f)), Bytes32(f.original);
    AtParts(hdr, 2, id + size + original + f.stamp, [f.level as uint8]);
    AtIndex(hdr, 20, [f.level as uint8], 0);
    AtParts(hdr, 2, id + size + original, f.stamp);
    AtParts(hdr, 2, id + size, original);
    AtParts(hdr, 2, id, size);
    AtSlice(hdr, 2, id);
    WordIsRead(hdr, 7, SizeField(f));
    WordIsRead(hdr, 11, f.original);
  }

  /** The name and the checksum field of the levels 0 and 1. */
  lemma NameIsRead(hdr: seq<uint8>, src: seq<uint8>, crc: nat)
    requires |src| < 256 && crc < 0x1_0000 && At(hdr, 21, [|src| as uint8] + src + Bytes16(crc))
    ensures |hdr| >= 24 + |src| && hdr[21] as nat == |src| && hdr[22..22 + |src|] == src && Le16(hdr, 22 + |src|) == crc
  {
    hide Bytes16, At, Le16;
    AtParts(hdr, 21, [|src| as uint8] + src, Bytes16(crc));
    AtParts(hdr, 21, [|src| as uint8], src);
    AtIndex(hdr, 21, [|src| as uint8], 0);
    AtSlice(hdr, 22, src);
    SizeIsRead(hdr, 22 + |src|, crc);
  }

  lemma LevelIsRead(hdr: seq<uint8>, f: Fields)
    requires Sound(f) && At(hdr, 21, LevelBytes(f))
    ensures f.level != 2 ==> |hdr| >= 24 + |f.src| && hdr[21] as nat == |f.src| && hdr[22..22 + |f.src|] == f.src
                             && Le16(hdr, 22 + |f.src|) == f.crc
    ensures f.level == 1 ==> |hdr| >= 27 + |f.src| && Le16(hdr, 25 + |f.src|) == FirstSize(f.exts)
    ensures f.level == 2 ==> |hdr| >= 26 && Le16(hdr, 21) == f.crc && Le16(hdr, 24) == FirstSize(f.exts)
  {
    hide Bytes16, At, Le16, FirstSize, ChainBytes, SoundExts, SoundName;
    FewBytes(f);
    if f.level == 0 {
      AtParts(hdr, 21, [|f.src| as uint8] + f.src + Bytes16(f.crc), f.area);
      NameIsRead(hdr, f.src, f.crc);
    } else if f.level == 1 {
      AtParts(hdr, 21, [|f.src| as uint8] + f.src + Bytes16(f.crc) + [f.system], Bytes16(FirstSize(f.exts)));
      AtParts(hdr, 21, [|f.src| as uint8] + f.src + Bytes16(f.crc), [f.system]);
      NameIsRead(hdr, f.src, f.crc);
      SizeIsRead(hdr, 25 + |f.src|, FirstSize(f.exts));
    } else {
      AtParts(hdr, 21, Bytes16(f.crc) + [f.system], Bytes16(FirstSize(f.exts)));
      AtParts(hdr, 21, Bytes16(f.crc), [f.system]);
      SizeIsRead(hdr, 21, f.crc);
      SizeIsRead(hdr, 24, FirstSize(f.exts));
    }
  }

  lemma FewBytes(f: Fields)
    requires SoundName(f)
    ensures |f.src| == |f.name| < 256
  {}

  /** What is known of the base header. */
  function BaseOf(f: Fields): Base
    requires Sound(f)
  {
    var n := |f.name|;
    if f.level == 2 then Base(2, 26 + |ChainBytes(f.exts)|, 26, 0, 21, 24, 26)
    else if f.level == 1 then Base(1, 25 + n, 25, n, 22 + n, 25 + n, 27 + n)
    else Base(0, 22 + n + |f.area|, 22, n, 22 + n, 25 + n, 24 + n + |f.area|)
  }

  /** The parts of the header in their places. */
  lemma HeaderParts(hdr: seq<uint8>, f: Fields)
    requires Sound(f) && HeaderBytes(f) <= hdr
    ensures At(hdr, 0, LeadBytes(f)) && At(hdr, 2, CommonBytes(f) + LevelBytes(f))
    ensures At(hdr, 2, CommonBytes(f)) && At(hdr, 21, LevelBytes(f))
    ensures At(hdr, 21 + |LevelBytes(f)|, ChainBytes(f.exts))
  {
    hide LeadBytes, CommonBytes, LevelBytes, ChainBytes;
    var a, b, c, d := LeadBytes(f), CommonBytes(f), LevelBytes(f), ChainBytes(f.exts);
    assert At(hdr, 0, a + b + c + d);
    hide At;
    AtParts(hdr, 0, a + b + c, d);
    AtParts(hdr, 0, a + b, c);
    assert a + b + c == a + (b + c);
    AtParts(hdr, 0, a, b + c);
    AtParts(hdr, 2, b, c);
  }

  lemma LeadIsRead(hdr: seq<uint8>, f: Fields)
    requires Sound(f) && At(hdr, 0, LeadBytes(f))
    ensures |hdr| >= 2 && (hdr[0] != 0 <==> StartsNonzero(f))
    ensures f.level != 2 ==> hdr[0] as nat == 19 + |LevelBytes(f)|
    ensures f.level == 2 ==> Le16(hdr, 0) == 26 + |ChainBytes(f.exts)|
  {
    hide CommonBytes, ChainBytes, LevelBytes, Bytes16, ByteSum, At, SoundExts, SoundMethod, SoundName;
    if f.level == 2 {
      SizeIsRead(hdr, 0, 26 + |ChainBytes(f.exts)|);
      LowByte(hdr, 26 + |ChainBytes(f.exts)|);
    } else {
      AtIndex(hdr, 0, LeadBytes(f), 0);
      AtIndex(hdr, 0, LeadBytes(f), 1);
    }
  }

  lemma BaseIsRead(hdr: seq<uint8>, f: Fields)
    requires Sound(f) && HeaderBytes(f) <= hdr
    ensures |hdr| >= 24 && ReadBase(hdr) == BaseOf(f) && hdr[20] as nat == f.level
    ensures hdr[0] != 0 <==> StartsNonzero(f)
  {
    SoundParts(f);
    HeaderLength(f);
    hide Sound, CommonBytes, ChainBytes, LevelBytes, LeadBytes, At, HeaderBytes, Load32, Le16, FirstSize, SoundExts;
    HeaderParts(hdr, f);
    CommonIsRead(hdr, f);
    LevelIsRead(hdr, f);
    LeadIsRead(hdr, f);
  }

  lemma LowByte(hdr: seq<uint8>, v: nat)
    requires v < 0x1_0000 && |hdr| >= 2 && Le16(hdr, 0) == v
    ensures hdr[0] != 0 <==> v % 0x100 != 0
  {}

  lemma BaseIsValid(hdr: seq<uint8>, f: Fields)
    requires Sound(f) && HeaderBytes(f) <= hdr
    requires |hdr| >= 24 && ReadBase(hdr) == BaseOf(f)
    ensures BaseEnd(BaseOf(f)) <= |hdr| && BaseValid(hdr, BaseOf(f))
  {
    HeaderParts(hdr, f);
    CommonIsRead(hdr, f);
    IdIsRead(hdr, f);
    hide CommonBytes, ChainBytes, LevelBytes, Bytes16, ByteSum, At, SoundExts, SoundMethod, SoundName, Ascii, ReadBase,
         Load32, HeaderBytes;
    if f.level != 2 {
      var body := CommonBytes(f) + LevelBytes(f);
      AtSlice(hdr, 2, body);
      AtIndex(hdr, 0, LeadBytes(f), 1);
      FewBytes(f);
    } else {
      WholeHeader(hdr, f);
    }
  }

  lemma IdIsRead(hdr: seq<uint8>, f: Fields)
    requires Sound(f) && |hdr| >= 21 && hdr[2..7] == Ascii(MethodId(f.coding))
    ensures hdr[2] == 0x2d && hdr[6] == 0x2d && hdr[3] == 0x6c && (hdr[4] == 0x68 || hdr[4] == 0x7a)
  {
    MethodIsRead(f.coding);
    hide Sound, Ascii, MethodId;
    assert hdr[2] == hdr[2..7][0] && hdr[3] == hdr[2..7][1] && hdr[4] == hdr[2..7][2] && hdr[6] == hdr[2..7][4];
  }

  lemma WholeHeader(hdr: seq<uint8>, f: Fields)
    requires Sound(f) && HeaderBytes(f) <= hdr
    ensures |hdr| >= 21 + |LevelBytes(f)| + |ChainBytes(f.exts)|
  {
    hide LeadBytes, CommonBytes, LevelBytes, ChainBytes;
  }

  /** What the extensions have given in the end. */
  function ExtOf(f: Fields): Ext
    requires Sound(f)
  {
    Ext(|HeaderBytes(f)|, |ChainBytes(f.exts)|, LastDir(f.exts), LastName(f.exts))
  }

  lemma FirstExtension(hdr: seq<uint8>, f: Fields)
    requires Sound(f) && HeaderBytes(f) <= hdr && f.level != 0
    ensures BaseOf(f).extSizeOffset + 2 <= |hdr|
    ensures Le16(hdr, BaseOf(f).extSizeOffset) == FirstSize(f.exts)
    ensures At(hdr, BaseOf(f).extPos, ChainBytes(f.exts))
  {
    ExtensionsBegin(f);
    SoundLevel(f);
    hide Sound, LevelBytes, ChainBytes, HeaderBytes, Le16, FirstSize, At, BaseOf, SoundExts;
    HeaderParts(hdr, f);
    LevelIsRead(hdr, f);
  }

  lemma SoundLevel(f: Fields)
    requires Sound(f)
    ensures f.level <= 2
  {}

  lemma ChainOfHeader(hdr: seq<uint8>, f: Fields)
    requires Sound(f) && HeaderBytes(f) <= hdr && |hdr| >= 24
    ensures ReadChain(hdr, BaseOf(f)) == ChainEnd(ExtOf(f))
  {
    hide Sound, LevelBytes, ChainBytes, HeaderBytes, Le16, FirstSize, At, BaseOf, SoundExts, ReadChain, LastName,
        LastDir,
         Extensions;
    ExtensionsBegin(f);
    ReadChainIs(hdr, BaseOf(f));
    var start := BaseOf(f).extPos;
    ExtIs(f, start);
    if f.level == 0 {
      NoExtensions(f);
    } else {
      FirstExtension(hdr, f);
      ChainIsRead(hdr, Ext(start, 0, [], []), f.exts);
    }
  }

  lemma ExtIs(f: Fields, start: nat)
    requires Sound(f) && start == 21 + |LevelBytes(f)|
    ensures SoundExts(f.exts)
    ensures ExtOf(f) == Ext(start + |ChainBytes(f.exts)|, |ChainBytes(f.exts)|, LastDir(f.exts), LastName(f.exts))
  {
    hide LevelBytes, ChainBytes, HeaderBytes;
    HeaderLength(f);
  }

  lemma ExtensionsBegin(f: Fields)
    requires Sound(f)
    ensures BaseOf(f).level == f.level && BaseOf(f).extPos == 21 + |LevelBytes(f)|
    ensures BaseOf(f).extSizeOffset == if f.level == 2 then 24 else 25 + |f.src|
  {
    hide LevelBytes, ChainBytes, SoundMethod;
  }

  lemma ReadChainIs(hdr: seq<uint8>, b: Base)
    requires |hdr| >= 24
    ensures b.level == 0 ==> ReadChain(hdr, b) == ChainEnd(Ext(b.extPos, 0, [], []))
    ensures b.level != 0 && b.extSizeOffset + 2 <= |hdr|
            ==> ReadChain(hdr, b) == Extensions(hdr, Le16(hdr, b.extSizeOffset), Ext(b.extPos, 0, [], []))
  {
    hide Extensions, Le16;
  }

  lemma SoundParts(f: Fields)
    requires Sound(f)
    ensures f.level <= 2 && SoundExts(f.exts) && |f.src| == |f.name| < 256 && f.crc < 0x1_0000
    ensures f.level == 2 ==> f.src == []
    ensures f.level == 1 ==> SizeField(f) as nat == |ChainBytes(f.exts)| + f.compressed as nat
    ensures f.level != 1 ==> SizeField(f) == f.compressed
    ensures f.level == 0 ==> ChainBytes(f.exts) == []
  {
    hide SoundMethod;
  }

  lemma NoExtensions(f: Fields)
    requires Sound(f) && f.level == 0
    ensures |ChainBytes(f.exts)| == 0 && LastName(f.exts) == [] && LastDir(f.exts) == []
  {}

  lemma HeaderLength(f: Fields)
    requires Sound(f)
    ensures |HeaderBytes(f)| == 21 + |LevelBytes(f)| + |ChainBytes(f.exts)|
    ensures |LevelBytes(f)| == if f.level == 0 then 3 + |f.name| + |f.area| else if f.level == 1 then 6 + |f.name|
            else 5
  {
    hide LeadBytes, CommonBytes, LevelBytes, ChainBytes;
  }

  lemma JoinIsRead(dir: seq<uint8>, base: seq<uint8>)
    requires var full := if dir == [] then base else if EndsWithSlash(dir) then dir + base else dir + [SLASH] + base;
      Proper(full) && |full| < 256
    ensures JoinDirName(dir, base)
            == Some(if dir == [] then base else if EndsWithSlash(dir) then dir + base else dir + [SLASH] + base)
  {
    hide Strip;
    var path := if dir != [] && !EndsWithSlash(dir) then dir + [SLASH] + base else dir + base;
    assert dir == [] ==> path == base;
    StripProper(path);
  }

  lemma FullNameIsRead(hdr: seq<uint8>, f: Fields)
    requires Sound(f) && SoundFull(f) && |hdr| >= 22 + |f.src| && hdr[22..22 + |f.src|] == f.src
    ensures ReadName(hdr, BaseOf(f), ExtOf(f)) == Some(FullName(f))
  {
    hide CopyLhaName, JoinDirName, Proper, Spells, ChainBytes, HeaderBytes, SoundExts, LastDir, LastName, SoundMethod;
    FewBytes(f);
    if f.level != 2 && f.name != [] {
      AnySpellingIsRead(f.src, f.name);
    }
    if LastName(f.exts) != [] || LastDir(f.exts) != [] {
      JoinIsRead(LastDir(f.exts), BaseName(f));
    }
  }

  /** Every header is read as what it was written from, whatever stands behind
      it, exactly when it does not start with a zero byte and the data has
      room. */
  lemma HeaderRoundTrip(f: Fields, rest: seq<uint8>, avail: nat)
    requires Sound(f) && SoundFull(f)
    ensures Parse(HeaderBytes(f) + rest, avail)
            == if StartsNonzero(f) && |HeaderBytes(f)| + f.compressed as nat <= avail then Parsed(EntryOf(f))
                else Invalid
  {
    var hdr := HeaderBytes(f) + rest;
    BaseIsRead(hdr, f);
    BaseIsValid(hdr, f);
    BaseFits(hdr);
    ChainOfHeader(hdr, f);
    hide ReadBase, BaseValid, ReadChain, BaseEnd, Finish, HeaderBytes, ChainBytes, SoundExts, StartsNonzero;
    FinishIsEntry(hdr, f, avail);
    assert hdr[0] != 0 ==> Parse(hdr, avail) == ParseRest(hdr, BaseOf(f), avail);
  }

  /** Finish, once size and name are known. */
  lemma FinishWith(hdr: seq<uint8>, b: Base, e: Ext, avail: nat, size: nat, name: seq<uint8>)
    requires |hdr| >= 24 && 22 + b.nameLen <= |hdr| && b.crcOffset + 2 <= |hdr|
    requires Load32(hdr, 7) as nat == size + (if b.level == 1 then e.total else 0)
    requires ReadName(hdr, b, e) == Some(name)
    ensures var coding := Coding(hdr[2..7]);
      var full := if coding == LHD then DirectoryName(name, e) else Some(name);
      full.Some? ==>
        Finish(hdr, b, e, avail)
        == if e.pos + size > avail then Invalid
           else Parsed(Entry(full.value, coding, coding == LHD || EndsWithSlash(name),
                             Some(Le16(hdr, b.crcOffset)), size, Load32(hdr, 11) as nat, e.pos))
  {
    hide ReadName, DirectoryName, Coding, Load32, Le16;
  }

  lemma FinishIsEntry(hdr: seq<uint8>, f: Fields, avail: nat)
    requires Sound(f) && SoundFull(f) && HeaderBytes(f) <= hdr
    requires |hdr| >= 24 && 22 + BaseOf(f).nameLen <= |hdr| && BaseOf(f).crcOffset + 2 <= |hdr|
    ensures Finish(hdr, BaseOf(f), ExtOf(f), avail)
            == if |HeaderBytes(f)| + f.compressed as nat <= avail then Parsed(EntryOf(f)) else Invalid
  {
    SoundParts(f);
    MethodIsRead(f.coding);
    hide Sound, SoundFull, ReadName, HeaderBytes, ChainBytes, CommonBytes, LevelBytes, At, Load32, Le16, Coding, Ascii,
         MethodId, FullName, DirName, DirectoryName, Finish, SizeField, LastName, LastDir;
    HeaderParts(hdr, f);
    CommonIsRead(hdr, f);
    LevelIsRead(hdr, f);
    FullNameIsRead(hdr, f);
    NameOfDirectory(f);
    FinishWith(hdr, BaseOf(f), ExtOf(f), avail, f.compressed as nat, FullName(f));
    CodingNumbers(f.coding);
  }

  lemma CodingNumbers(m: Method)
    ensures Number(m) == LHD <==> m.Lhd?
  {}

  lemma NameOfDirectory(f: Fields)
    requires Sound(f) && SoundFull(f)
    ensures f.coding.Lhd? ==> DirectoryName(FullName(f), ExtOf(f)) == Some(DirName(f))
    ensures f.coding.Lhd? ==> EndsWithSlash(DirName(f))
  {
    hide Sound, Proper, FullName, HeaderBytes, ChainBytes, LastName, LastDir;
  }

  // ----- damaged headers -----

  /** No change of a single byte that the sum covers goes unnoticed at the levels
      0 and 1, the level itself apart. */
  lemma OneByteErrorRefused(hdr: seq<uint8>, i: nat, b: uint8, avail: nat)
    requires |hdr| >= 24 && hdr[20] <= 1 && BaseEnd(ReadBase(hdr)) <= |hdr| && BaseValid(hdr, ReadBase(hdr))
    requires 2 <= i < 2 + hdr[0] as nat && i != 20 && b != hdr[i]
    ensures Parse(hdr[i := b], avail) == Invalid
  {
    hide ByteSum, ParseRest;
    var d, size := hdr[i := b], hdr[0] as nat;
    assert d[2..2 + size] == hdr[2..2 + size][i - 2 := b];
    ByteSumUpdate(hdr[2..2 + size], i - 2, b);
  }

  // ----- archives -----

  datatype Item = Item(fields: Fields, body: seq<uint8>)

  predicate SoundItem(t: Item) {
    && Sound(t.fields) && SoundFull(t.fields) && StartsNonzero(t.fields)
    && t.fields.compressed as nat == |t.body|
  }

  predicate SoundItems(ts: seq<Item>) {
    forall i :: 0 <= i < |ts| ==> SoundItem(ts[i])
  }

  function ItemBytes(t: Item): seq<uint8>
    requires SoundItem(t)
  {
    HeaderBytes(t.fields) + t.body
  }

  function ArchiveBytes(ts: seq<Item>): seq<uint8>
    requires SoundItems(ts)
  {
    if ts == [] then [] else ItemBytes(ts[0]) + ArchiveBytes(ts[1..])
  }

  function ItemEntry(t: Item): Entry
    requires SoundItem(t)
  {
    EntryOf(t.fields)
  }

  /** The entries for items written from `pos` on. */
  function ItemsListed(ts: seq<Item>, pos: nat): (es: seq<Entry>)
    requires SoundItems(ts)
    ensures |es| == |ts|
  {
    if ts == [] then []
    else [Placed(pos, ItemEntry(ts[0]))] + ItemsListed(ts[1..], pos + |ItemBytes(ts[0])|)
  }

  lemma ItemIsRead(data: seq<uint8>, pos: nat, t: Item)
    requires SoundItem(t) && At(data, pos, ItemBytes(t))
    ensures !AtEnd(data, pos) && Parse(data[pos..], |data| - pos) == Parsed(ItemEntry(t))
    ensures NextPos(pos, ItemEntry(t)) == pos + |ItemBytes(t)| <= |data|
  {
    hide HeaderBytes, Parse, Sound, SoundFull, StartsNonzero;
    var h, tail := HeaderBytes(t.fields), data[pos..];
    AtParts(data, pos, h, t.body);
    assert tail[..|h|] == data[pos..pos + |h|] == h;
    assert tail == h + tail[|h|..];
    BaseIsRead(tail, t.fields);
    HeaderRoundTrip(t.fields, tail[|h|..], |data| - pos);
  }

  /** Any members, written one after another and followed by a zero byte or less
      than a header, are listed. */
  lemma {:induction false} ItemsAreListed(data: seq<uint8>, pos: nat, ts: seq<Item>, found: seq<Entry>)
    requires SoundItems(ts) && At(data, pos, ArchiveBytes(ts)) && AtEnd(data, pos + |ArchiveBytes(ts)|)
    ensures List(data, pos, found) == Accept(found + ItemsListed(ts, pos))
    decreases |ts|
  {
    hide ItemBytes, ItemEntry, At, SoundItem, Parse, AtEnd, Placed;
    if ts == [] {
      assert found + [] == found;
    } else {
      var first, next := Placed(pos, ItemEntry(ts[0])), pos + |ItemBytes(ts[0])|;
      AtParts(data, pos, ItemBytes(ts[0]), ArchiveBytes(ts[1..]));
      ItemIsRead(data, pos, ts[0]);
      ItemsAreListed(data, next, ts[1..], found + [first]);
      assert found + [first] + ItemsListed(ts[1..], next) == found + ItemsListed(ts, pos);
    }
  }

  lemma BodyIsThere(data: seq<uint8>, pos: nat, t: Item)
    requires SoundItem(t) && At(data, pos, ItemBytes(t))
    ensures var e := Placed(pos, ItemEntry(t));
      e.dataOffset + e.compressedSize <= |data| && data[e.dataOffset..e.dataOffset + e.compressedSize] == t.body
  {
    hide HeaderBytes, At, Sound, SoundFull;
    AtParts(data, pos, HeaderBytes(t.fields), t.body);
    AtSlice(data, pos + |HeaderBytes(t.fields)|, t.body);
  }

  /** Each entry's data is the body that was written. */
  lemma {:induction false} BodiesAreThere(data: seq<uint8>, pos: nat, ts: seq<Item>, i: nat)
    requires SoundItems(ts) && At(data, pos, ArchiveBytes(ts)) && i < |ts|
    ensures var e := ItemsListed(ts, pos)[i];
      e.dataOffset + e.compressedSize <= |data| && data[e.dataOffset..e.dataOffset + e.compressedSize] == ts[i].body
    decreases |ts|
  {
    hide ItemBytes, ItemEntry, Placed, At, SoundItem;
    AtParts(data, pos, ItemBytes(ts[0]), ArchiveBytes(ts[1..]));
    if i == 0 {
      BodyIsThere(data, pos, ts[0]);
    } else {
      BodiesAreThere(data, pos + |ItemBytes(ts[0])|, ts[1..], i - 1);
    }
  }

  /** Both walks list a written archive; the one through a window up to one
      gibibyte. */
  lemma WrittenIsListed(ts: seq<Item>, end: seq<uint8>)
    requires SoundItems(ts) && (end == [] || end[0] == 0 || |end| < 24)
    ensures List(ArchiveBytes(ts) + end, 0, []) == Accept(ItemsListed(ts, 0))
    ensures |ArchiveBytes(ts) + end| <= LIMIT ==>
      FileList(ArchiveBytes(ts) + end, 0, []) == Accept(ItemsListed(ts, 0))
  {
    hide ArchiveBytes, ItemsListed, SoundItems, List, FileList;
    var data := ArchiveBytes(ts) + end;
    assert At(data, 0, ArchiveBytes(ts)) && AtEnd(data, |ArchiveBytes(ts)|);
    ItemsAreListed(data, 0, ts, []);
    assert [] + ItemsListed(ts, 0) == ItemsListed(ts, 0);
    if |data| <= LIMIT {
      SmallArchivesAgree(data, 0, []);
    }
  }
}
