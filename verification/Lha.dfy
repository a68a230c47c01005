/** LHA archive listing (tools/zz9k-archive.c): one member header parsed from a
    window, the walk over an archive in memory, and the walk over a file
    through a small window that is moved and enlarged on demand. */
module Lha {
  import opened Words
  import opened Options
  import opened ArchiveNames
  import opened NameBuffer

  // ----- the header, as a function of the bytes in the window -----

  datatype Entry = Entry(name: seq<uint8>, coding: uint32, isDir: bool, crc: Option<nat>,
                         compressedSize: nat, uncompressedSize: nat, dataOffset: nat)

  datatype Verdict = Invalid | NeedsWindow | Parsed(entry: Entry)

  function Le16(b: seq<uint8>, off: nat): (v: nat)
    requires off + 2 <= |b|
    ensures v < 0x1_0000
  {
    b[off] as nat + 0x100 * b[off + 1] as nat
  }

  /** The fields whose place depends on the header level. */
  datatype Base = Base(level: nat, headerSize: nat, baseSize: nat, nameLen: nat,
                       crcOffset: nat, extSizeOffset: nat, extPos: nat)

  function ReadBase(hdr: seq<uint8>): (b: Base)
    requires |hdr| >= 24
  {
    var level, nameLen := hdr[20] as nat, hdr[21] as nat;
    if level == 2 then Base(2, Le16(hdr, 0), 26, 0, 21, 24, 26)
    else Base(level, hdr[0] as nat, if level == 0 then 22
              else 25, nameLen, 22 + nameLen, 25 + nameLen, 2 + hdr[0] as nat)
  }

  /** Bytes of window the base header takes. */
  function BaseEnd(b: Base): nat {
    if b.level == 2 then b.headerSize else 2 + b.headerSize
  }

  /** Everything about the base header that is checked from its own bytes. */
  predicate BaseValid(hdr: seq<uint8>, b: Base)
    requires |hdr| >= 24 && BaseEnd(b) <= |hdr| && b == ReadBase(hdr)
  {
    && b.headerSize >= b.baseSize
    && (b.level != 2 ==> ByteSum(hdr[2..2 + b.headerSize]) % 0x100 == hdr[1] as nat)
    && hdr[2] == 0x2d && hdr[6] == 0x2d && hdr[3] == 0x6c && (hdr[4] == 0x68 || hdr[4] == 0x7a)
    && (b.level != 2 ==> b.nameLen <= b.headerSize - b.baseSize)
  }

  /** What the extension chain has given so far. */
  datatype Ext = Ext(pos: nat, total: nat, dir: seq<uint8>, name: seq<uint8>)

  datatype Chain = ChainInvalid | ChainNeedsWindow | ChainEnd(ext: Ext)

  /** Trailing zero bytes removed. */
  function TrimZeros(s: seq<uint8>): (r: seq<uint8>)
    ensures r <= s
  {
    if s != [] && s[|s| - 1] == 0 then TrimZeros(s[..|s| - 1]) else s
  }

  /** One extension of `size` bytes at e.pos: a name, a directory or other. */
  function OneExtension(hdr: seq<uint8>, size: nat, e: Ext): (r: Option<Ext>)
    requires e.pos + size <= |hdr| && size >= 3
    ensures r.Some? ==> r.value.pos == e.pos + size && r.value.total == e.total + size
  {
    var kind, data := hdr[e.pos], TrimZeros(hdr[e.pos + 1..e.pos + size - 2]);
    if (kind != 1 && kind != 2) || data == [] then Some(e.(pos := e.pos + size, total := e.total + size))
    else match CopyLhaName(data)
      case None => None
      case Some(n) =>
        if kind == 1 then Some(Ext(e.pos + size, e.total + size, e.dir, n))
        else Some(Ext(e.pos + size, e.total + size, n, e.name))
  }

  /** The chain from an extension of `size` bytes at e.pos on. */
  function Extensions(hdr: seq<uint8>, size: nat, e: Ext): (c: Chain)
    ensures c.ChainEnd? && e.pos <= |hdr| ==> e.pos <= c.ext.pos <= |hdr| && c.ext.total - e.total == c.ext.pos - e.pos
    decreases |hdr| - e.pos
  {
    if size == 0 then ChainEnd(e)
    else if e.pos > |hdr| || size > |hdr| - e.pos then ChainNeedsWindow
    else if size < 3 then ChainInvalid
    else match OneExtension(hdr, size, e)
      case None => ChainInvalid
      case Some(next) => Extensions(hdr, Le16(hdr, e.pos + size - 2), next)
  }

  function ReadChain(hdr: seq<uint8>, b: Base): Chain
    requires |hdr| >= 24
  {
    var none := Ext(b.extPos, 0, [], []);
    if b.level == 0 then ChainEnd(none)
    else if b.extSizeOffset + 2 > |hdr| then ChainNeedsWindow
    else Extensions(hdr, Le16(hdr, b.extSizeOffset), none)
  }

  const UNNAMED: seq<uint8> := [0x75, 0x6e, 0x6e, 0x61, 0x6d, 0x65, 0x64]

  /** The member's name, from the base header and the extensions. */
  function ReadName(hdr: seq<uint8>, b: Base, e: Ext): (r: Option<seq<uint8>>)
    requires 22 + b.nameLen <= |hdr|
  {
    var own := if b.nameLen != 0 then CopyLhaName(hdr[22..22 + b.nameLen]) else Some(UNNAMED);
    if own.None? then None
    else if e.name != [] then JoinDirName(e.dir, e.name)
    else if e.dir != [] then JoinDirName(e.dir, own.value)
    else own
  }

  const LHD: uint32 := 11
  const UNKNOWN_CODING: uint32 := 0xffff_ffff

  function Coding(id: seq<uint8>): uint32 {
    if id == [0x2d, 0x6c, 0x68, 0x30, 0x2d] || id == [0x2d, 0x6c, 0x7a, 0x34, 0x2d] then 0
    else if id == [0x2d, 0x6c, 0x68, 0x64, 0x2d] then LHD
    else if id == [0x2d, 0x6c, 0x68, 0x31, 0x2d] then 1
    else if id == [0x2d, 0x6c, 0x68, 0x35, 0x2d] then 5
    else if id == [0x2d, 0x6c, 0x68, 0x36, 0x2d] then 6
    else if id == [0x2d, 0x6c, 0x68, 0x37, 0x2d] then 7
    else UNKNOWN_CODING
  }

  /** A directory member's name ends with a slash. */
  function DirectoryName(name: seq<uint8>, e: Ext): Option<seq<uint8>> {
    var n := if e.dir != [] && e.name == [] then e.dir else name;
    if EndsWithSlash(n) then Some(n)
    else if |n| + 1 >= MAX_NAME then None
    else Some(n + [SLASH])
  }

  /** From a complete header to the entry; the member's data must lie inside
      the archive. */
  function Finish(hdr: seq<uint8>, b: Base, e: Ext, avail: nat): (v: Verdict)
    requires |hdr| >= 24 && 22 + b.nameLen <= |hdr|
    ensures v.Parsed? ==> v.entry.dataOffset + v.entry.compressedSize <= avail && v.entry.dataOffset == e.pos
    ensures !v.NeedsWindow?
  {
    var field := Load32(hdr, 7) as nat;
    if b.level == 1 && e.total != 0 && field < e.total then Invalid
    else
      var size := if b.level == 1 then field - e.total else field;
      if e.pos + size > avail then Invalid
      else match ReadName(hdr, b, e)
        case None => Invalid
        case Some(name) =>
          var coding := Coding(hdr[2..7]);
          var crc := if b.crcOffset + 2 <= |hdr| then Some(Le16(hdr, b.crcOffset)) else None;
          var uncompressed := Load32(hdr, 11) as nat;
          if coding != LHD then Parsed(Entry(name, coding, EndsWithSlash(name), crc, size, uncompressed, e.pos))
          else match DirectoryName(name, e)
            case None => Invalid
            case Some(dirName) => Parsed(Entry(dirName, coding, true, crc, size, uncompressed, e.pos))
  }

  /** What follows a valid base header. */
  function ParseRest(hdr: seq<uint8>, b: Base, avail: nat): (v: Verdict)
    requires |hdr| >= 24 && 22 + b.nameLen <= |hdr| && 24 <= b.extPos <= |hdr|
    ensures v.Parsed? ==> 24 <= v.entry.dataOffset && v.entry.dataOffset + v.entry.compressedSize <= avail
  {
    match ReadChain(hdr, b)
    case ChainInvalid => Invalid
    case ChainNeedsWindow => NeedsWindow
    case ChainEnd(e) => Finish(hdr, b, e, avail)
  }

  /** lha_parse_header for a window `hdr` when `avail` archive bytes remain. */
  function Parse(hdr: seq<uint8>, avail: nat): (v: Verdict)
    ensures v.Parsed? ==> 24 <= v.entry.dataOffset && v.entry.dataOffset + v.entry.compressedSize <= avail
  {
    if |hdr| < 24 then NeedsWindow
    else if hdr[0] == 0 || hdr[20] > 2 then Invalid
    else
      var b := ReadBase(hdr);
      if BaseEnd(b) > |hdr| then NeedsWindow
      else if !BaseValid(hdr, b) then Invalid
      else ParseRest(hdr, b, avail)
  }

  // ----- a short window never changes the verdict -----

  lemma {:induction false} ExtensionsPrefix(p: seq<uint8>, f: seq<uint8>, size: nat, e: Ext)
    requires p <= f
    ensures Extensions(p, size, e) != ChainNeedsWindow ==> Extensions(f, size, e) == Extensions(p, size, e)
    decreases |p| - e.pos
  {
    hide OneExtension;
    if size >= 3 && e.pos + size <= |p| {
      OneExtensionPrefix(p, f, size, e);
      match OneExtension(p, size, e)
      case None =>
      case Some(next) => ExtensionsPrefix(p, f, Le16(p, e.pos + size - 2), next);
    }
  }

  lemma OneExtensionPrefix(p: seq<uint8>, f: seq<uint8>, size: nat, e: Ext)
    requires p <= f && size >= 3 && e.pos + size <= |p|
    ensures OneExtension(p, size, e) == OneExtension(f, size, e)
  {
    assert p[e.pos + 1..e.pos + size - 2] == f[e.pos + 1..e.pos + size - 2];
  }

  lemma BasePrefix(p: seq<uint8>, f: seq<uint8>)
    requires p <= f && |p| >= 24
    ensures ReadBase(p) == ReadBase(f)
    ensures BaseEnd(ReadBase(p)) <= |p| ==> BaseValid(p, ReadBase(p)) == BaseValid(f, ReadBase(p))
  {
    var b := ReadBase(p);
    if BaseEnd(b) <= |p| && b.level != 2 {
      assert p[2..2 + b.headerSize] == f[2..2 + b.headerSize];
    }
  }

  /** A valid base header holds its name and its checksum field. */
  lemma BaseFits(hdr: seq<uint8>)
    requires |hdr| >= 24 && hdr[20] <= 2
    requires BaseEnd(ReadBase(hdr)) <= |hdr| && BaseValid(hdr, ReadBase(hdr))
    ensures ReadBase(hdr).crcOffset + 2 <= |hdr| && 22 + ReadBase(hdr).nameLen <= |hdr|
    ensures ReadBase(hdr).level != 0 ==> ReadBase(hdr).extSizeOffset + 2 <= |hdr|
    ensures 24 <= ReadBase(hdr).extPos <= |hdr|
  {}

  lemma FinishPrefix(p: seq<uint8>, f: seq<uint8>, b: Base, e: Ext, avail: nat)
    requires p <= f && |p| >= 24 && 22 + b.nameLen <= |p| && b.crcOffset + 2 <= |p|
    ensures Finish(p, b, e, avail) == Finish(f, b, e, avail)
  {
    hide DirectoryName, Coding, CopyLhaName, JoinDirName;
    assert p[22..22 + b.nameLen] == f[22..22 + b.nameLen] && p[2..7] == f[2..7];
    assert ReadName(p, b, e) == ReadName(f, b, e);
    hide ReadName;
    assert Load32(p, 7) == Load32(f, 7) && Load32(p, 11) == Load32(f, 11);
  }

  lemma RestPrefix(p: seq<uint8>, f: seq<uint8>, b: Base, avail: nat)
    requires p <= f && |p| >= 24 && 22 + b.nameLen <= |p| && b.crcOffset + 2 <= |p| && 24 <= b.extPos <= |p|
    requires b.level != 0 ==> b.extSizeOffset + 2 <= |p|
    ensures ParseRest(p, b, avail) != NeedsWindow ==> ParseRest(f, b, avail) == ParseRest(p, b, avail)
  {
    hide Extensions, Finish;
    if b.level != 0 {
      ExtensionsPrefix(p, f, Le16(p, b.extSizeOffset), Ext(b.extPos, 0, [], []));
    }
    match ReadChain(p, b)
    case ChainEnd(e) => FinishPrefix(p, f, b, e, avail);
    case _ =>
  }

  /** Whatever a short window decides, the full view decides the same way; a
      short window can only ask for more. */
  lemma ParsePrefix(p: seq<uint8>, f: seq<uint8>, avail: nat)
    requires p <= f
    ensures Parse(p, avail) != NeedsWindow ==> Parse(f, avail) == Parse(p, avail)
  {
    if |p| >= 24 {
      BasePrefix(p, f);
      var b := ReadBase(p);
      hide ReadBase, BaseValid, ParseRest, BaseEnd;
      if p[0] != 0 && p[20] <= 2 && BaseEnd(b) <= |p| && BaseValid(p, b) {
        BaseFits(p);
        RestPrefix(p, f, b, avail);
      }
    }
  }

  // ----- what an entry promises -----

  /** Below level 2 the size field counts from the end of the base header: it
      spans the extensions, if there are any, and the data. */
  lemma SizeFieldSpansExtensions(hdr: seq<uint8>, avail: nat)
    requires |hdr| >= 24 && hdr[20] <= 1
    ensures var v := Parse(hdr, avail);
      v.Parsed? ==> v.entry.dataOffset + v.entry.compressedSize == 2 + hdr[0] as nat + Load32(hdr, 7) as nat
  {
    hide Extensions, BaseValid, ReadName, DirectoryName, Coding, Load32, Le16;
  }

  /** An entry is a directory exactly when its name ends with a slash, and the
      name fits its buffer. */
  lemma EntryNames(hdr: seq<uint8>, avail: nat)
    ensures var v := Parse(hdr, avail);
      v.Parsed? ==> |v.entry.name| < MAX_NAME && (v.entry.isDir <==> EndsWithSlash(v.entry.name))
  {
    hide Extensions, BaseValid, Coding, Load32, Le16, CopyLhaName, JoinDirName;
    if |hdr| >= 24 && Parse(hdr, avail).Parsed? {
      var b := ReadBase(hdr);
      var e := ReadChain(hdr, b).ext;
      if b.level != 0 {
        BaseFits(hdr);
        ChainNames(hdr, Le16(hdr, b.extSizeOffset), Ext(b.extPos, 0, [], []));
      }
      assert |e.dir| < MAX_NAME;
    }
  }

  /** Names collected from extensions fit their buffers. */
  lemma {:induction false} ChainNames(hdr: seq<uint8>, size: nat, e: Ext)
    requires |e.dir| < MAX_NAME && |e.name| < MAX_NAME
    ensures var c := Extensions(hdr, size, e);
      c.ChainEnd? ==> |c.ext.dir| < MAX_NAME && |c.ext.name| < MAX_NAME
    decreases |hdr| - e.pos
  {
    hide TrimZeros, CopyLhaName, Le16;
    if size >= 3 && e.pos + size <= |hdr| {
      match OneExtension(hdr, size, e)
      case None =>
      case Some(next) => ChainNames(hdr, Le16(hdr, e.pos + size - 2), next);
    }
  }

  // ----- the walks, as functions of the archive -----

  datatype Listing = Accept(entries: seq<Entry>) | Reject | Hangs

  /** Where the member's compressed data ends, and the next header starts. */
  function NextPos(pos: nat, e: Entry): nat {
    pos + e.dataOffset + e.compressedSize
  }

  function Placed(pos: nat, e: Entry): Entry {
    e.(dataOffset := pos + e.dataOffset)
  }

  /** The end of the data, a zero byte, or a tail shorter than any header. */
  predicate AtEnd(data: seq<uint8>, pos: nat)
    requires pos <= |data|
  {
    pos == |data| || data[pos] == 0 || |data| - pos < 24
  }

  /** lha_list: the members from `pos` on, every header seen whole. */
  function List(data: seq<uint8>, pos: nat, found: seq<Entry>): Listing
    requires pos <= |data|
    decreases |data| - pos
  {
    if AtEnd(data, pos) then Accept(found)
    else match Parse(data[pos..], |data| - pos)
      case Parsed(e) => List(data, NextPos(pos, e), found + [Placed(pos, e)])
      case _ => Reject
  }

  /** The largest window: four times this is zero in 32 bits. */
  const LIMIT: nat := 0x4000_0000

  /** A member whose header is not complete within the largest window, although
      the archive goes on. */
  predicate Stuck(data: seq<uint8>, pos: nat)
    requires pos <= |data|
  {
    |data| - pos > LIMIT && Parse(data[pos..pos + LIMIT], |data| - pos) == NeedsWindow
  }

  /** lha_list_file. */
  function FileList(data: seq<uint8>, pos: nat, found: seq<Entry>): Listing
    requires pos <= |data|
    decreases |data| - pos
  {
    if AtEnd(data, pos) then Accept(found)
    else if Stuck(data, pos) then Hangs
    else match Parse(data[pos..], |data| - pos)
      case Parsed(e) => FileList(data, NextPos(pos, e), found + [Placed(pos, e)])
      case _ => Reject
  }

  /** The in-memory walk comes to a stuck member. */
  predicate ReachesStuck(data: seq<uint8>, pos: nat)
    requires pos <= |data|
    decreases |data| - pos
  {
    !AtEnd(data, pos)
    && (Stuck(data, pos)
        || match Parse(data[pos..], |data| - pos)
           case Parsed(e) => ReachesStuck(data, NextPos(pos, e))
           case _ => false)
  }

  /** The two walks agree exactly when no member reached is stuck. */
  lemma {:induction false} WalksAgreeIff(data: seq<uint8>, pos: nat, found: seq<Entry>)
    requires pos <= |data|
    ensures FileList(data, pos, found) == List(data, pos, found) <==> !ReachesStuck(data, pos)
    ensures ReachesStuck(data, pos) ==> FileList(data, pos, found) == Hangs
    decreases |data| - pos
  {
    hide Parse, Stuck;
    if !AtEnd(data, pos) {
      match Parse(data[pos..], |data| - pos)
      case Parsed(e) =>
        WalksAgreeIff(data, NextPos(pos, e), found + [Placed(pos, e)]);
        ListNeverHangs(data, NextPos(pos, e), found + [Placed(pos, e)]);
      case _ =>
    }
  }

  lemma {:induction false} ListNeverHangs(data: seq<uint8>, pos: nat, found: seq<Entry>)
    requires pos <= |data|
    ensures List(data, pos, found) != Hangs
    decreases |data| - pos
  {
    hide Parse;
    if !AtEnd(data, pos) {
      match Parse(data[pos..], |data| - pos)
      case Parsed(e) => ListNeverHangs(data, NextPos(pos, e), found + [Placed(pos, e)]);
      case _ =>
    }
  }

  /** Up to one gibibyte no member can be stuck. */
  lemma {:induction false} SmallArchivesAgree(data: seq<uint8>, pos: nat, found: seq<Entry>)
    requires pos <= |data| <= LIMIT
    ensures FileList(data, pos, found) == List(data, pos, found)
    decreases |data| - pos
  {
    hide Parse;
    if !AtEnd(data, pos) {
      match Parse(data[pos..], |data| - pos)
      case Parsed(e) => SmallArchivesAgree(data, NextPos(pos, e), found + [Placed(pos, e)]);
      case _ =>
    }
  }

  /** Each entry's data lies inside the archive, after the data of the one
      before and a header of at least 24 bytes. */
  predicate LaidOut(entries: seq<Entry>, first: nat, start: nat, length: nat) {
    forall i :: first <= i < |entries| ==>
      && entries[i].dataOffset + entries[i].compressedSize <= length
      && (if i == first then start else entries[i - 1].dataOffset + entries[i - 1].compressedSize)
          + 24 <= entries[i].dataOffset
  }

  lemma {:induction false} MembersAreLaidOut(data: seq<uint8>, pos: nat, found: seq<Entry>)
    requires pos <= |data|
    ensures List(data, pos, found).Accept? ==>
      found <= List(data, pos, found).entries && LaidOut(List(data, pos, found).entries, |found|, pos, |data|)
    decreases |data| - pos
  {
    hide Parse;
    if !AtEnd(data, pos) {
      match Parse(data[pos..], |data| - pos)
      case Parsed(e) =>
        var more := found + [Placed(pos, e)];
        MembersAreLaidOut(data, NextPos(pos, e), more);
        var l := List(data, NextPos(pos, e), more);
        assert l.Accept? ==> l.entries[|found|] == more[|found|];
      case _ =>
    }
  }

  // ----- the code -----

  /** The loop of lha_header_checksum_valid; the sum is one byte. */
  method CheckSum(hdr: seq<uint8>, headerSize: nat) returns (sum: nat)
    requires 2 + headerSize <= |hdr|
    ensures sum == ByteSum(hdr[2..2 + headerSize]) % 0x100
  {
    hide ByteSum;
    sum := 0;
    NoBytes();
    assert hdr[2..2] == [];
    for i := 2 to 2 + headerSize
      invariant sum == ByteSum(hdr[2..i]) % 0x100
    {
      OneMoreByte(hdr[2..i], hdr[i]);
      assert hdr[2..i + 1] == hdr[2..i] + [hdr[i]];
      sum := (sum + hdr[i] as nat) % 0x100;
    }
  }

  lemma NoBytes()
    ensures ByteSum([]) == 0
  {}

  lemma OneMoreByte(b: seq<uint8>, x: uint8)
    ensures ByteSum(b + [x]) % 0x100 == (ByteSum(b) % 0x100 + x as nat) % 0x100
  {
    assert (b + [x])[..|b|] == b;
  }

  /** The loops that drop trailing zero bytes of an extension. */
  method TrimmedLength(hdr: seq<uint8>, start: nat, length: nat) returns (n: nat)
    requires start + length <= |hdr|
    ensures n <= length && hdr[start..start + n] == TrimZeros(hdr[start..start + length])
  {
    n := length;
    while n != 0 && hdr[start + n - 1] == 0
      invariant n <= length
      invariant TrimZeros(hdr[start..start + n]) == TrimZeros(hdr[start..start + length])
    {
      assert hdr[start..start + n][..n - 1] == hdr[start..start + (n - 1)];
      n := n - 1;
    }
  }

  /** The collected names are C strings that fit their buffers. */
  predicate NamesFit(e: Ext) {
    CString(e.dir) == e.dir && |e.dir| < MAX_NAME && CString(e.name) == e.name && |e.name| < MAX_NAME
  }

  /** A name copied and cleaned in a buffer of its own. */
  method TakeName(src: seq<uint8>) returns (r: Option<seq<uint8>>)
    ensures r == CopyLhaName(src)
    ensures r.Some? ==> CString(r.value) == r.value && |r.value| < MAX_NAME
  {
    hide CopyLhaName, CString;
    var buf := new uint8[MAX_NAME];
    var ok := CopyLha(buf, src);
    if !ok {
      return None;
    }
    var name := Text(buf);
    return Some(name);
  }

  /** The body of the extension loop for an extension inside the window. */
  method TakeExtension(hdr: seq<uint8>, size: nat, e: Ext) returns (r: Option<Ext>)
    requires e.pos + size <= |hdr| && size >= 3
    ensures r == OneExtension(hdr, size, e)
    ensures r.Some? && NamesFit(e) ==> NamesFit(r.value)
  {
    hide TrimZeros, CopyLhaName, CString;
    var kind, next := hdr[e.pos], e.(pos := e.pos + size, total := e.total + size);
    var n := TrimmedLength(hdr, e.pos + 1, size - 3);
    assert hdr[e.pos + 1..e.pos + 1 + (size - 3)] == hdr[e.pos + 1..e.pos + size - 2];
    if kind == 1 && n != 0 {
      var name := TakeName(hdr[e.pos + 1..e.pos + 1 + n]);
      if name.None? {
        return None;
      }
      next := next.(name := name.value);
    } else if kind == 2 && n != 0 {
      var dir := TakeName(hdr[e.pos + 1..e.pos + 1 + n]);
      if dir.None? {
        return None;
      }
      next := next.(dir := dir.value);
    }
    return Some(next);
  }

  /** The extension loop: follows the chain, collecting name and directory. */
  method WalkExtensions(hdr: seq<uint8>, firstSize: nat, firstPos: nat) returns (c: Chain)
    requires firstPos <= |hdr|
    ensures c == Extensions(hdr, firstSize, Ext(firstPos, 0, [], []))
    ensures c.ChainEnd? ==> NamesFit(c.ext)
  {
    hide OneExtension, Le16;
    var size: nat, e := firstSize, Ext(firstPos, 0, [], []);
    while size != 0
      invariant firstPos <= e.pos <= |hdr| && NamesFit(e)
      invariant Extensions(hdr, size, e) == Extensions(hdr, firstSize, Ext(firstPos, 0, [], []))
      decreases |hdr| - e.pos
    {
      if e.pos > |hdr| || size > |hdr| - e.pos {
        return ChainNeedsWindow;
      }
      if size < 3 {
        return ChainInvalid;
      }
      var next := Le16(hdr, e.pos + size - 2);
      var r := TakeExtension(hdr, size, e);
      if r.None? {
        return ChainInvalid;
      }
      e, size := r.value, next;
    }
    return ChainEnd(e);
  }

  /** The member's name in its buffer, joined in place with a directory. */
  method BuildName(name: array<uint8>, hdr: seq<uint8>, b: Base, e: Ext) returns (ok: bool)
    requires name.Length == MAX_NAME && 22 + b.nameLen <= |hdr| && NamesFit(e)
    modifies name
    ensures ok <==> ReadName(hdr, b, e).Some?
    ensures ok ==> Terminated(name[..]) && CString(name[..]) == ReadName(hdr, b, e).value
  {
    hide CopyLhaName, JoinDirName, CString;
    if b.nameLen != 0 {
      ok := CopyLha(name, hdr[22..22 + b.nameLen]);
    } else {
      CStringUnique(UNNAMED, 7);
      assert UNNAMED[..7] == UNNAMED;
      ok := CopyBytes(name, UNNAMED);
    }
    if ok && e.name != [] {
      ok := JoinDir(name, e.dir, e.name);
    } else if ok && e.dir != [] {
      var own := Text(name);
      ok := JoinDir(name, e.dir, own);
    }
  }

  /** A directory member's name, completed in place. */
  method BuildDirectoryName(name: array<uint8>, e: Ext) returns (ok: bool)
    requires name.Length == MAX_NAME && Terminated(name[..]) && NamesFit(e)
    modifies name
    ensures ok <==> DirectoryName(CString(old(name[..])), e).Some?
    ensures ok ==> Terminated(name[..]) && CString(name[..]) == DirectoryName(CString(old(name[..])), e).value
  {
    hide CString;
    if e.dir != [] && e.name == [] {
      var _ := CopyBytes(name, e.dir);
    }
    var s := Text(name);
    if EndsWithSlash(s) {
      return true;
    }
    if |s| + 1 >= MAX_NAME {
      return false;
    }
    CStringUnique([SLASH], 1);
    Append(name, [SLASH]);
    return true;
  }

  /** From a complete header to the entry. */
  method FinishEntry(hdr: seq<uint8>, b: Base, e: Ext, avail: nat) returns (v: Verdict)
    requires |hdr| >= 24 && 22 + b.nameLen <= |hdr| && NamesFit(e)
    ensures v == Finish(hdr, b, e, avail)
  {
    hide ReadName, DirectoryName, Coding, Load32, CString;
    var size := Load32(hdr, 7) as nat;
    if b.level == 1 && e.total != 0 {
      if size < e.total {
        return Invalid;
      }
      size := size - e.total;
    }
    if size > avail || e.pos > avail || size > avail - e.pos {
      return Invalid;
    }
    var name := new uint8[MAX_NAME];
    var ok := BuildName(name, hdr, b, e);
    if !ok {
      return Invalid;
    }
    var coding := Coding(hdr[2..7]);
    if coding == LHD {
      ok := BuildDirectoryName(name, e);
      if !ok {
        return Invalid;
      }
    }
    var text := Text(name);
    var crc := if b.crcOffset + 2 <= |hdr| then Some(Le16(hdr, b.crcOffset)) else None;
    return Parsed(Entry(text, coding, coding == LHD || EndsWithSlash(text), crc, size, Load32(hdr, 11) as nat, e.pos));
  }

  /** lha_parse_header: `hdr` is the readable window. */
  method ParseHeader(hdr: seq<uint8>, avail: nat) returns (v: Verdict)
    ensures v == Parse(hdr, avail)
  {
    hide Extensions, ByteSum, Le16, Finish;
    if |hdr| < 24 {
      return NeedsWindow;
    }
    if hdr[0] == 0 {
      return Invalid;
    }
    var level := hdr[20] as nat;
    if level > 2 {
      return Invalid;
    }
    var b := ReadBase(hdr);
    if (level == 2 && b.headerSize > |hdr|) || (level != 2 && 2 + b.headerSize > |hdr|) {
      return NeedsWindow;
    }
    if b.headerSize < b.baseSize || hdr[2] != 0x2d || hdr[6] != 0x2d || hdr[3] != 0x6c
       || (hdr[4] != 0x68 && hdr[4] != 0x7a) {
      return Invalid;
    }
    if level != 2 {
      var sum := CheckSum(hdr, b.headerSize);
      if sum != hdr[1] as nat || b.nameLen > b.headerSize - b.baseSize {
        return Invalid;
      }
    }
    BaseFits(hdr);
    var e := Ext(b.extPos, 0, [], []);
    if level != 0 {
      if b.extSizeOffset + 2 > |hdr| {
        return NeedsWindow;
      }
      var c := WalkExtensions(hdr, Le16(hdr, b.extSizeOffset), b.extPos);
      match c {
        case ChainInvalid => return Invalid;
        case ChainNeedsWindow => return NeedsWindow;
        case ChainEnd(end) => e := end;
      }
    }
    v := FinishEntry(hdr, b, e, avail);
  }

  /** lha_list: all members are counted, the first `entries.Length` stored. */
  method ListMembers(data: seq<uint8>, entries: array<Entry>) returns (ok: bool, count: nat)
    modifies entries
    ensures ok <==> List(data, 0, []).Accept?
    ensures !ok ==> count == 0
    ensures ok ==> count == |List(data, 0, []).entries|
    ensures ok ==> forall i :: 0 <= i < count && i < entries.Length ==> entries[i] == List(data, 0, []).entries[i]
  {
    hide Parse;
    ListNeverHangs(data, 0, []);
    var pos, used := 0, 0;
    ghost var found: seq<Entry> := [];
    while pos < |data|
      invariant pos <= |data| && used == |found|
      invariant List(data, pos, found) == List(data, 0, [])
      invariant forall i :: 0 <= i < used && i < entries.Length ==> entries[i] == found[i]
      decreases |data| - pos
    {
      if data[pos] == 0 {
        return true, used;
      }
      if |data| - pos < 24 {
        return true, used;
      }
      var v := ParseHeader(data[pos..], |data| - pos);
      if !v.Parsed? {
        return false, 0;
      }
      var entry := Placed(pos, v.entry);
      if used < entries.Length {
        entries[used] := entry;
      }
      found := found + [entry];
      used := used + 1;
      pos := entry.dataOffset + entry.compressedSize;
    }
    return true, used;
  }

  const CHUNK: nat := 0x1000

  /** The sizes the window goes through while it grows fourfold. */
  predicate FourfoldSize(n: nat) {
    n in {0x1000, 0x4000, 0x1_0000, 0x4_0000, 0x10_0000, 0x40_0000, 0x100_0000, 0x400_0000, 0x1000_0000, LIMIT}
  }

  /** What a member's window can look like: it grew fourfold, or it already
      covers the rest of the archive. */
  predicate GoodSize(room: nat, avail: nat) {
    0 < room <= LIMIT && (FourfoldSize(room) || avail <= room)
  }

  /** `window` holds the file's bytes from `base` on, as many as fit
      or are there. */
  predicate Holds(file: seq<uint8>, window: seq<uint8>, base: nat, room: nat) {
    base <= |file| && |window| == Min(|file| - base, room) && window == file[base..base + |window|]
  }

  function Fill(file: seq<uint8>, base: nat, room: nat): (window: seq<uint8>)
    requires base <= |file|
    ensures Holds(file, window, base, room)
  {
    file[base..base + Min(|file| - base, room)]
  }

  /** Multiplying by four in 32 bits. */
  function Fourfold(n: nat): nat { n * 4 % 0x1_0000_0000 }

  /** A window that does not cover the rest grows and stays good, unless it is
      the largest one. */
  lemma Growth(room: nat, avail: nat)
    requires GoodSize(room, avail) && room < avail
    ensures room == LIMIT ==> Fourfold(room) == 0
    ensures room < LIMIT ==> room < Min(Fourfold(room), avail) <= LIMIT
    ensures room < LIMIT ==> GoodSize(Min(Fourfold(room), avail), avail)
  {}

  /** What a window decides about the member at its position. */
  lemma WindowDecides(file: seq<uint8>, pos: nat, view: seq<uint8>)
    requires pos <= |file| && |view| <= LIMIT && |view| <= |file| - pos && view == file[pos..pos + |view|]
    ensures Parse(view, |file| - pos) != NeedsWindow
            ==> !Stuck(file, pos) && Parse(file[pos..], |file| - pos) == Parse(view, |file| - pos)
    ensures Parse(view, |file| - pos) == NeedsWindow && |view| == |file| - pos
            ==> !Stuck(file, pos) && Parse(file[pos..], |file| - pos) == NeedsWindow
    ensures Parse(view, |file| - pos) == NeedsWindow && |view| == LIMIT < |file| - pos ==> Stuck(file, pos)
  {
    hide Parse;
    assert view <= file[pos..];
    ParsePrefix(view, file[pos..], |file| - pos);
    if |file| - pos > LIMIT {
      assert view <= file[pos..pos + LIMIT];
      ParsePrefix(view, file[pos..pos + LIMIT], |file| - pos);
    } else if |view| == |file| - pos {
      assert view == file[pos..];
    }
  }

  /** The inner loop: the member at `pos`, through a window that is re-centred
      and enlarged until the header is decided. */
  method ReadMember(file: seq<uint8>, pos: nat, window0: seq<uint8>, base0: nat, room0: nat)
    returns (v: Option<Verdict>, window: seq<uint8>, base: nat, room: nat)
    requires |file| < 0x1_0000_0000 && pos < |file|
    requires Holds(file, window0, base0, room0) && base0 <= pos < base0 + |window0|
    requires GoodSize(room0, |file| - pos)
    ensures Holds(file, window, base, room) && base <= pos < base + |window|
    ensures GoodSize(room, |file| - pos) && room0 <= room
    ensures v.None? <==> Stuck(file, pos)
    ensures v.Some? ==> v.value == Parse(file[pos..], |file| - pos)
  {
    hide Parse, Stuck, FourfoldSize;
    window, base, room := window0, base0, room0;
    var avail := |file| - pos;
    while true
      invariant Holds(file, window, base, room) && base <= pos < base + |window|
      invariant GoodSize(room, avail) && room0 <= room
      decreases LIMIT - room, pos - base
    {
      var offset := pos - base;
      var view := window[offset..];
      WindowDecides(file, pos, view);
      var rc := ParseHeader(view, avail);
      if rc != NeedsWindow {
        return Some(rc), window, base, room;
      }
      if offset != 0 {
        base := pos;
        window := Fill(file, pos, room);
        continue;
      }
      if |window| >= avail {
        return Some(rc), window, base, room;
      }
      var grown := Fourfold(room);
      if grown > avail {
        grown := avail;
      }
      Growth(room, avail);
      if grown <= room {
        // The refill below reproduces the state the loop is already in.
        assert Fill(file, pos, room) == window && base == pos;
        return None, window, base, room;
      }
      room := grown;
      base := pos;
      window := Fill(file, pos, room);
    }
  }

  /** lha_list_file, for reads that succeed. */
  method ListFile(file: seq<uint8>) returns (r: Listing)
    requires |file| < 0x1_0000_0000
    ensures r == FileList(file, 0, [])
  {
    hide Parse, Stuck, FourfoldSize;
    var pos: nat, room: nat, base: nat := 0, CHUNK, 0;
    var window: seq<uint8>, entries: seq<Entry> := [], [];
    assert GoodSize(CHUNK, |file|) by { FirstSize(|file|); }
    while pos < |file|
      invariant pos <= |file|
      invariant window == [] || Holds(file, window, base, room)
      invariant GoodSize(room, |file| - pos)
      invariant FileList(file, pos, entries) == FileList(file, 0, [])
      decreases |file| - pos
    {
      var avail := |file| - pos;
      if pos < base || pos >= base + |window| {
        base := pos;
        window := Fill(file, pos, room);
      }
      assert window[pos - base] == file[pos];
      if window[pos - base] == 0 {
        return Accept(entries);
      }
      if avail < 24 {
        return Accept(entries);
      }
      var v;
      v, window, base, room := ReadMember(file, pos, window, base, room);
      if v.None? {
        return Hangs;
      }
      if !v.value.Parsed? {
        return Reject;
      }
      var entry := Placed(pos, v.value.entry);
      entries := entries + [entry];
      pos := entry.dataOffset + entry.compressedSize;
    }
    return Accept(entries);
  }

  lemma FirstSize(avail: nat)
    ensures GoodSize(CHUNK, avail)
  {}

  // ----- a stuck archive -----

  const EXT_SIZE: nat := 0x303
  const EXT_COUNT: nat := 1392662

  const CHAIN_HEADER: seq<uint8> := [
    26, 0, 0x2d, 0x6c, 0x68, 0x30, 0x2d, 0, 0, 0, 0, 0, 0, 0, 0, 0, 0, 0, 0, 0, 2, 0, 0, 0, 3, 3]

  /** A level-2 header whose chain of 771-byte extensions is longer than one
      gibibyte: every byte after the header is 3, so every extension announces
      another of 0x0303 bytes, except that the very last one announces none. */
  function LongChain(): (data: seq<uint8>)
    ensures |data| == 26 + EXT_SIZE * EXT_COUNT
    ensures data[..26] == CHAIN_HEADER
    ensures forall k :: 26 <= k < |data| - 2 ==> data[k] == 3
    ensures data[|data| - 2] == 0 && data[|data| - 1] == 0
  {
    CHAIN_HEADER + seq(EXT_SIZE * EXT_COUNT - 2, _ => 3) + [0, 0]
  }

  function ChainAt(i: nat): Ext {
    Ext(26 + EXT_SIZE * i, EXT_SIZE * i, [], [])
  }

  /** The whole chain ends with the data. */
  lemma {:induction false} WholeChainEnds(i: nat)
    requires i < EXT_COUNT
    ensures Extensions(LongChain(), EXT_SIZE, ChainAt(i)) == ChainEnd(ChainAt(EXT_COUNT))
    decreases EXT_COUNT - i
  {
    hide LongChain, TrimZeros, CopyLhaName;
    var data, e := LongChain(), ChainAt(i);
    assert OneExtension(data, EXT_SIZE, e) == Some(ChainAt(i + 1));
    if i + 1 < EXT_COUNT {
      assert data[e.pos + EXT_SIZE - 2] == 3 && data[e.pos + EXT_SIZE - 1] == 3;
      WholeChainEnds(i + 1);
    } else {
      assert e.pos + EXT_SIZE == |data|;
      assert Extensions(data, 0, ChainAt(i + 1)) == ChainEnd(ChainAt(i + 1));
    }
  }

  /** Every byte behind the header is 3. */
  predicate Threes(window: seq<uint8>) {
    forall k :: 26 <= k < |window| ==> window[k] == 3
  }

  /** A chain in such a window goes on behind its end. */
  lemma {:induction false} ChainOutlastsWindow(window: seq<uint8>, i: nat)
    requires Threes(window) && ChainAt(i).pos <= |window|
    ensures Extensions(window, EXT_SIZE, ChainAt(i)) == ChainNeedsWindow
    decreases |window| - i
  {
    hide TrimZeros, CopyLhaName;
    var e := ChainAt(i);
    if e.pos + EXT_SIZE <= |window| {
      assert OneExtension(window, EXT_SIZE, e) == Some(ChainAt(i + 1));
      assert Le16(window, e.pos + EXT_SIZE - 2) == EXT_SIZE;
      ChainOutlastsWindow(window, i + 1);
    }
  }

  lemma ChainHeaderRead(window: seq<uint8>)
    requires |window| >= 26 && window[..26] == CHAIN_HEADER
    ensures window[0] == 26 && window[20] == 2 && ReadBase(window) == Base(2, 26, 26, 0, 21, 24, 26)
    ensures BaseValid(window, ReadBase(window))
    ensures Le16(window, 24) == EXT_SIZE && Load32(window, 7) == 0
  {
    assert forall k :: 0 <= k < 26 ==> window[k] == window[..26][k];
  }

  /** A header with a chain that fills the largest window and goes on. */
  lemma UnfinishedChainHangs(data: seq<uint8>)
    requires |data| > LIMIT && data[..26] == CHAIN_HEADER && Threes(data[..LIMIT])
    ensures Stuck(data, 0) && FileList(data, 0, []) == Hangs
  {
    hide BaseValid, Extensions, ReadBase, Le16, Load32;
    var window := data[0..0 + LIMIT];
    assert window[..26] == data[..26] && window == data[..LIMIT] && data[0..] == data;
    ChainHeaderRead(window);
    assert data[0] == data[..26][0];
    assert ChainAt(0) == Ext(26, 0, [], []);
    ChainOutlastsWindow(window, 0);
  }

  /** An archive the in-memory walk accepts and the file walk never gets past:
      so the two do not agree on every archive. */
  lemma LongChainHangs()
    ensures |LongChain()| < 0x1_0000_0000
    ensures List(LongChain(), 0, []).Accept? && FileList(LongChain(), 0, []) == Hangs
  {
    hide LongChain, BaseValid, Extensions, ReadBase, Le16, Load32;
    var data := LongChain();
    assert data[0..] == data;
    ChainHeaderRead(data);
    UnfinishedChainHangs(data);
    assert ChainAt(0) == Ext(26, 0, [], []);
    WholeChainEnds(0);
    assert Parse(data, |data|) == Finish(data, ReadBase(data), ChainAt(EXT_COUNT), |data|);
    assert NextPos(0, Parse(data, |data|).entry) == |data|;
  }

  /** The walks agree on all archives of a length exactly up to one gibibyte. */
  lemma AgreeOnLengthIff(length: nat)
    requires length < 0x1_0000_0000
    ensures (forall data: seq<uint8> :: |data| == length ==> FileList(data, 0, []) == List(data, 0, []))
            <==> length <= LIMIT
  {
    hide FileList, List, Stuck;
    if length <= LIMIT {
      forall data: seq<uint8> | |data| == length
        ensures FileList(data, 0, []) == List(data, 0, [])
      {
        SmallArchivesAgree(data, 0, []);
      }
    } else {
      var data := CHAIN_HEADER + seq(length - 26, _ => 3);
      UnfinishedChainHangs(data);
      ListNeverHangs(data, 0, []);
    }
  }
}
