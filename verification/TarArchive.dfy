/** Whole tar archives as they are written: the lister and the stream
    (tools/zz9k-archive.c) give back the members they were made of. */
module TarArchive {
  import opened Words
  import opened Options
  import opened ArchiveNames
  import opened NameBuffer
  import opened TarHeader
  import opened TarReader
  import opened TarWriter
  import opened Tar
  import opened TarStream

  // ----- what is written -----

  /** What comes before a member: nothing, pax records, or a long name; `end` is
      whatever follows the name. */
  datatype Extra =
      Bare
    | WithPax(header: Fields, records: seq<Framing>)
    | WithLongName(header: Fields, long: seq<uint8>, end: seq<uint8>)

  datatype Item = Item(extra: Extra, fields: Fields, body: seq<uint8>)

  predicate Sound(f: Fields) {
    WellFormed(f) && |FullName(f)| < 256
  }

  predicate NoLine(name: seq<uint8>) {
    forall i :: 0 <= i < |name| ==> name[i] != 0 && name[i] != 0x0a
  }

  predicate SoundExtra(x: Extra) {
    match x
    case Bare => true
    case WithPax(h, rs) =>
      Sound(h) && h.kind == 'x' as uint8 && h.size == |PaxBytes(rs)|
      && forall i :: 0 <= i < |rs| ==> Readable(rs[i].0) && LengthFits(rs[i].0, rs[i].1)
    case WithLongName(h, long, end) =>
      Sound(h) && h.kind == 'L' as uint8 && h.size == |long| + |end| && 0 < |long| < 256 && NoLine(long)
      && (end != [] ==> end[0] == 0 || end[0] == 0x0a)
  }

  /** The size a member's pax records announce. */
  function AnnouncedSize(x: Extra): Option<nat> {
    if x.WithPax? then LastSize(x.records) else None
  }

  /** The name they announce; None within Some for one that is skipped. */
  function AnnouncedName(x: Extra): Option<Option<seq<uint8>>> {
    match x
    case Bare => None
    case WithPax(h, rs) => LastPath(rs)
    case WithLongName(h, long, end) => Some(Normalize(long))
  }

  /** The header gives the size of the data, unless the records do: then the
      header may give less. */
  predicate SoundItem(t: Item) {
    && SoundExtra(t.extra) && Sound(t.fields) && t.fields.kind != 'x' as uint8 && t.fields.kind != 'L' as uint8
    && (AnnouncedSize(t.extra).None? ==> t.fields.size == |t.body|)
    && (AnnouncedSize(t.extra).Some? ==> AnnouncedSize(t.extra).value == |t.body| && t.fields.size <= |t.body|)
  }

  /** A header, the data, zeros up to a whole block. */
  function MemberBytes(f: Fields, data: seq<uint8>): (b: seq<uint8>)
    requires WellFormed(f)
    ensures |b| == BLOCK + |data| + Padding(|data|)
  {
    HeaderBytes(f) + data + Zeros(Padding(|data|))
  }

  function ExtraBytes(x: Extra): seq<uint8>
    requires SoundExtra(x)
  {
    match x
    case Bare => []
    case WithPax(h, rs) => MemberBytes(h, PaxBytes(rs))
    case WithLongName(h, long, end) => MemberBytes(h, long + end)
  }

  function ItemBytes(t: Item): (b: seq<uint8>)
    requires SoundItem(t)
    ensures |b| >= BLOCK + |t.body|
  {
    ExtraBytes(t.extra) + MemberBytes(t.fields, t.body)
  }

  predicate SoundItems(ts: seq<Item>) {
    forall i :: 0 <= i < |ts| ==> SoundItem(ts[i])
  }

  function ArchiveBytes(ts: seq<Item>): seq<uint8>
    requires SoundItems(ts)
  {
    if ts == [] then [] else ItemBytes(ts[0]) + ArchiveBytes(ts[1..])
  }

  lemma WholeBlocks(a: nat, b: nat)
    requires a % BLOCK == 0 && b % BLOCK == 0
    ensures (a + b) % BLOCK == 0
  {}

  lemma {:induction false} ArchiveIsWhole(ts: seq<Item>)
    requires SoundItems(ts)
    ensures |ArchiveBytes(ts)| % BLOCK == 0
  {
    hide ItemBytes, SoundItem;
    if ts != [] {
      ArchiveIsWhole(ts[1..]);
      ItemIsWhole(ts[0]);
      WholeBlocks(|ItemBytes(ts[0])|, |ArchiveBytes(ts[1..])|);
    }
  }

  lemma ItemIsWhole(t: Item)
    requires SoundItem(t)
    ensures |ItemBytes(t)| % BLOCK == 0
  {
    hide MemberBytes, Padding;
    MemberIsWhole(t.fields, t.body);
    match t.extra {
      case Bare =>
      case WithPax(h, rs) => MemberIsWhole(h, PaxBytes(rs));
      case WithLongName(h, long, end) => MemberIsWhole(h, long + end);
    }
    WholeBlocks(|ExtraBytes(t.extra)|, |MemberBytes(t.fields, t.body)|);
  }

  lemma MemberIsWhole(f: Fields, data: seq<uint8>)
    requires WellFormed(f)
    ensures |MemberBytes(f, data)| % BLOCK == 0
  {
    WholeBlocks(BLOCK, |data| + Padding(|data|));
  }

  // ----- what is to be listed -----

  /** The announced name, otherwise the one in the header. */
  function NameOf(t: Item): Option<seq<uint8>> {
    if AnnouncedName(t.extra).Some? then AnnouncedName(t.extra).value else Normalize(FullName(t.fields))
  }

  /** Files and directories are listed, with a name in the header as well. */
  predicate IsListed(t: Item) {
    && t.fields.kind in {0, '0' as uint8, '5' as uint8}
    && NameOf(t).Some? && Normalize(FullName(t.fields)).Some?
  }

  predicate IsDirectory(t: Item)
    requires Normalize(FullName(t.fields)).Some?
  {
    t.fields.kind == '5' as uint8 || EndsWithSlash(Normalize(FullName(t.fields)).value)
  }

  /** Item t, written at `pos`. */
  function ItemListed(t: Item, pos: nat): seq<Listed>
    requires SoundItem(t)
  {
    if !IsListed(t) then []
    else [Listed(NameOf(t).value, |t.body|, IsDirectory(t), pos + |ExtraBytes(t.extra)| + BLOCK)]
  }

  function ItemsListed(ts: seq<Item>, pos: nat): seq<Listed>
    requires SoundItems(ts)
  {
    if ts == [] then [] else ItemListed(ts[0], pos) + ItemsListed(ts[1..], pos + |ItemBytes(ts[0])|)
  }

  // ----- one header and its data -----

  /** What the header at a position says, and where the data is. */
  lemma MemberIsThere(data: seq<uint8>, pos: nat, f: Fields, body: seq<uint8>)
    requires Sound(f) && At(data, pos, MemberBytes(f, body))
    ensures pos + BLOCK + |body| + Padding(|body|) <= |data| && data[pos..pos + BLOCK] == HeaderBytes(f)
    ensures data[pos + BLOCK..pos + BLOCK + |body|] == body
    ensures !AtEnd(data, pos)
  {
    hide HeaderBytes, Padding, EntryFromHeader, Empty;
    AtParts(data, pos, HeaderBytes(f) + body, Zeros(Padding(|body|)));
    AtParts(data, pos, HeaderBytes(f), body);
    HeaderRoundTrip(f);
  }

  /** What is announced when the member's own header comes. */
  function Announced(x: Extra): Pending {
    match AnnouncedName(x)
    case None => Pending([], false, AnnouncedSize(x))
    case Some(None) => Pending([], true, AnnouncedSize(x))
    case Some(Some(n)) => Pending(n, false, AnnouncedSize(x))
  }

  /** A header that announces something and is not listed itself. */
  lemma ExtraIsTaken(data: seq<uint8>, pos: nat, f: Fields, body: seq<uint8>, after: Pending)
    requires Sound(f) && f.size == |body| && At(data, pos, MemberBytes(f, body)) && pos + BLOCK <= |data|
    requires var m := MemberAt(data, pos, NOTHING);
      m.Member? && m.head.size == |body| && m.head.skip && m.after == after
    ensures ListFrom(data, pos, NOTHING) == ListFrom(data, pos + |MemberBytes(f, body)|, after)
  {
    hide MemberAt, MemberBytes, ListFrom, AtEnd, Padding, HeaderBytes;
    MemberIsThere(data, pos, f, body);
    ListStep(data, pos, NOTHING);
    Prepended(ListFrom(data, pos + |MemberBytes(f, body)|, after));
  }

  /** The data of a header that announces something. */
  function ExtraData(x: Extra): seq<uint8>
    requires !x.Bare?
  {
    if x.WithPax? then PaxBytes(x.records) else x.long + x.end
  }

  lemma ExtraIsMember(x: Extra)
    requires SoundExtra(x) && !x.Bare?
    ensures Sound(x.header) && x.header.size == |ExtraData(x)| && ExtraBytes(x) == MemberBytes(x.header, ExtraData(x))
  {
    hide MemberBytes, PaxBytes;
  }

  /** Pax records or a long name. */
  lemma ExtraIsAnnounced(data: seq<uint8>, pos: nat, x: Extra)
    requires SoundExtra(x) && !x.Bare? && At(data, pos, ExtraBytes(x))
    ensures ListFrom(data, pos, NOTHING) == ListFrom(data, pos + |ExtraBytes(x)|, Announced(x))
  {
    hide SoundExtra, ExtraBytes, ExtraData, MemberBytes, HeaderBytes, ListFrom, At, AtEnd, MemberAt, Announced, Padding;
    ExtraIsMember(x);
    MemberIsThere(data, pos, x.header, ExtraData(x));
    if x.WithPax? {
      PaxIsRead(data, pos, x);
    } else {
      LongNameIsRead(data, pos, x);
    }
    ExtraIsTaken(data, pos, x.header, ExtraData(x), Announced(x));
  }

  lemma PaxIsRead(data: seq<uint8>, pos: nat, x: Extra)
    requires SoundExtra(x) && x.WithPax? && pos + BLOCK + |ExtraData(x)| <= |data|
    requires data[pos..pos + BLOCK] == HeaderBytes(x.header)
    requires data[pos + BLOCK..pos + BLOCK + |ExtraData(x)|] == ExtraData(x)
    ensures var m := MemberAt(data, pos, NOTHING);
      m.Member? && m.head.size == |ExtraData(x)| && m.head.skip && m.after == Announced(x)
  {
    hide HeaderBytes, EntryFromHeader, Empty, PaxBytes, ParsePax, Normalize, Readable, LengthFits, LastPath, LastSize;
    HeaderRoundTrip(x.header);
    PaxRoundTrip(x.records);
  }

  lemma Prepended(r: Option<seq<Listed>>)
    ensures (match r case None => None case Some(rest) => Some([] + rest)) == r
  {
    if r.Some? {
      assert [] + r.value == r.value;
    }
  }

  lemma LineIsRead(long: seq<uint8>, end: seq<uint8>)
    requires NoLine(long) && (end != [] ==> end[0] == 0 || end[0] == 0x0a)
    ensures LineOf(long + end) == long
  {
    LineUnique(long + end, |long|);
  }

  lemma LongNameIsRead(data: seq<uint8>, pos: nat, x: Extra)
    requires SoundExtra(x) && x.WithLongName? && pos + BLOCK + |ExtraData(x)| <= |data|
    requires data[pos..pos + BLOCK] == HeaderBytes(x.header)
    requires data[pos + BLOCK..pos + BLOCK + |ExtraData(x)|] == ExtraData(x)
    ensures var m := MemberAt(data, pos, NOTHING);
      m.Member? && m.head.size == |ExtraData(x)| && m.head.skip && m.after == Announced(x)
  {
    hide HeaderBytes, EntryFromHeader, Empty, Normalize, LineOf;
    HeaderRoundTrip(x.header);
    LineIsRead(x.long, x.end);
  }

  /** The member itself. */
  lemma MemberIsTaken(data: seq<uint8>, pos: nat, t: Item)
    requires SoundItem(t) && At(data, pos, MemberBytes(t.fields, t.body))
    ensures MemberAt(data, pos, Announced(t.extra)).Member?
    ensures MemberAt(data, pos, Announced(t.extra)).after == NOTHING
    ensures var m := MemberAt(data, pos, Announced(t.extra));
      m.head.size == |t.body| && m.head.kind == Plain && (m.head.skip <==> !IsListed(t))
      && (IsListed(t) ==> m.head.name == NameOf(t).value && m.head.isDir == IsDirectory(t))
  {
    hide HeaderBytes, EntryFromHeader, Empty, Normalize, SoundExtra, LastPath, LastSize, EndsWithSlash, AtEnd;
    MemberIsThere(data, pos, t.fields, t.body);
    HeaderRoundTrip(t.fields);
    Normalized(FullName(t.fields));
    AnnouncedNames(t.extra);
  }

  lemma AnnouncedNames(x: Extra)
    ensures AnnouncedName(x).Some? && AnnouncedName(x).value.Some? ==> AnnouncedName(x).value.value != []
  {
    hide Normalize;
    match x
    case Bare =>
    case WithPax(h, rs) => LastPathNotEmpty(rs);
    case WithLongName(h, long, end) => Normalized(long);
  }

  lemma {:induction false} LastPathNotEmpty(rs: seq<Framing>)
    ensures LastPath(rs).Some? && LastPath(rs).value.Some? ==> LastPath(rs).value.value != []
  {
    hide Normalize;
    if rs != [] {
      LastPathNotEmpty(rs[..|rs| - 1]);
      if rs[|rs| - 1].0.Path? {
        Normalized(rs[|rs| - 1].0.path);
      }
    }
  }

  /** One item after another. */
  lemma ItemIsListed(data: seq<uint8>, pos: nat, t: Item)
    requires SoundItem(t) && At(data, pos, ItemBytes(t))
    ensures var rest := ListFrom(data, pos + |ItemBytes(t)|, NOTHING);
      ListFrom(data, pos, NOTHING) == if rest.None? then None else Some(ItemListed(t, pos) + rest.value)
  {
    hide ListFrom, MemberBytes, ExtraBytes, MemberAt, At, SoundExtra, IsListed, IsDirectory, NameOf, AtEnd;
    AtParts(data, pos, ExtraBytes(t.extra), MemberBytes(t.fields, t.body));
    if t.extra.Bare? {
      NoExtra(t.extra);
    } else {
      ExtraIsAnnounced(data, pos, t.extra);
    }
    var at := pos + |ExtraBytes(t.extra)|;
    MemberIsThere(data, at, t.fields, t.body);
    MemberIsTaken(data, at, t);
    ListStep(data, at, Announced(t.extra));
  }

  lemma NoExtra(x: Extra)
    requires x.Bare?
    ensures SoundExtra(x) && ExtraBytes(x) == [] && Announced(x) == NOTHING
  {}

  /** Any items, written one after another and followed by a zero block or less
      than a block, are listed: names, sizes, kinds and places. */
  lemma {:induction false} ItemsAreListed(data: seq<uint8>, pos: nat, ts: seq<Item>)
    requires SoundItems(ts) && At(data, pos, ArchiveBytes(ts)) && AtEnd(data, pos + |ArchiveBytes(ts)|)
    ensures ListFrom(data, pos, NOTHING) == Some(ItemsListed(ts, pos))
    decreases |ts|
  {
    hide ListFrom, ItemBytes, ItemListed, At, AtEnd, SoundItem;
    if ts == [] {
      ListStep(data, pos, NOTHING);
    } else {
      AtParts(data, pos, ItemBytes(ts[0]), ArchiveBytes(ts[1..]));
      ItemIsListed(data, pos, ts[0]);
      ItemsAreListed(data, pos + |ItemBytes(ts[0])|, ts[1..]);
    }
  }

  /** tar_list on a written archive below four gibibytes, with room for what is
      listed: after a turn for each block it has returned the items. */
  lemma WrittenIsListed(ts: seq<Item>, end: seq<uint8>, capacity: nat, turns: nat)
    requires SoundItems(ts) && |ArchiveBytes(ts) + end| <= PAX_LIMIT && |end| % BLOCK == 0
    requires AtEnd(ArchiveBytes(ts) + end, |ArchiveBytes(ts)|)
    requires |ItemsListed(ts, 0)| <= capacity && turns * BLOCK > |ArchiveBytes(ts) + end|
    ensures CodedList(ArchiveBytes(ts) + end, capacity, turns) == Ended(Some(ItemsListed(ts, 0)))
  {
    hide ArchiveBytes, ItemsListed, SoundItems, AtEnd, CodedList, ListFrom;
    var data := ArchiveBytes(ts) + end;
    assert At(data, 0, ArchiveBytes(ts));
    ItemsAreListed(data, 0, ts);
    ArchiveIsWhole(ts);
    WholeBlocks(|ArchiveBytes(ts)|, |end|);
    assert [] + ItemsListed(ts, 0) == ItemsListed(ts, 0);
    ListsAsIntended(data, capacity, turns);
  }

  // ----- the stream -----

  /** What the stream takes: no long names, no more than 64 KiB of records, and
      no name that leads out of the directory written to. */
  predicate Extractable(t: Item)
    requires SoundItem(t)
  {
    !t.extra.WithLongName? && |ExtraBytes(t.extra)| <= MAX_PAX && (IsListed(t) ==> Safe(NameOf(t).value))
  }

  /** What is to be written for an item: a directory has no data. */
  function ItemWritten(t: Item): seq<Written> {
    if !IsListed(t) then []
    else [Written(NameOf(t).value, |t.body|, IsDirectory(t), if IsDirectory(t) then [] else t.body)]
  }

  function ItemsWritten(ts: seq<Item>): seq<Written> {
    if ts == [] then [] else ItemWritten(ts[0]) + ItemsWritten(ts[1..])
  }

  lemma StreamStep(data: seq<uint8>, pos: nat, pend: Pending)
    ensures AtEnd(data, pos) ==> Streamable(data, pos, pend)
    ensures !AtEnd(data, pos) ==>
      pos + BLOCK <= |data| &&
      var m := MemberAt(data, pos, pend);
      m.Member? && m.head.kind != GnuLongName && (m.head.kind == Pax ==> m.head.size <= MAX_PAX)
      && (!m.head.skip ==> Safe(m.head.name)) && Streamable(data, NextHeader(pos, m), m.after)
      ==> Streamable(data, pos, pend)
  {
    hide MemberAt, Empty, Safe;
  }

  lemma PaxIsStreamable(data: seq<uint8>, pos: nat, x: Extra)
    requires SoundExtra(x) && x.WithPax? && |ExtraBytes(x)| <= MAX_PAX && At(data, pos, ExtraBytes(x))
    requires Streamable(data, pos + |ExtraBytes(x)|, Announced(x))
    ensures Streamable(data, pos, NOTHING)
  {
    hide SoundExtra, ExtraBytes, ExtraData, MemberBytes, HeaderBytes, Streamable, At, AtEnd, MemberAt, Announced,
         Padding, Safe;
    ExtraIsMember(x);
    MemberIsThere(data, pos, x.header, ExtraData(x));
    PaxIsRead(data, pos, x);
    StreamStep(data, pos, NOTHING);
    PaxKind(data, pos, x);
  }

  lemma PaxKind(data: seq<uint8>, pos: nat, x: Extra)
    requires SoundExtra(x) && x.WithPax? && pos + BLOCK <= |data| && data[pos..pos + BLOCK] == HeaderBytes(x.header)
    ensures var m := MemberAt(data, pos, NOTHING); m.Member? ==> m.head.kind == Pax
  {
    hide HeaderBytes, EntryFromHeader, Empty, ParsePax, Normalize, PaxBytes;
    HeaderRoundTrip(x.header);
  }

  lemma ItemIsStreamable(data: seq<uint8>, pos: nat, t: Item)
    requires SoundItem(t) && Extractable(t) && At(data, pos, ItemBytes(t))
    requires Streamable(data, pos + |ItemBytes(t)|, NOTHING)
    ensures Streamable(data, pos, NOTHING)
  {
    hide Streamable, MemberBytes, ExtraBytes, MemberAt, At, SoundExtra, IsListed, IsDirectory, NameOf, AtEnd, Safe;
    AtParts(data, pos, ExtraBytes(t.extra), MemberBytes(t.fields, t.body));
    var at := pos + |ExtraBytes(t.extra)|;
    MemberIsThere(data, at, t.fields, t.body);
    MemberIsTaken(data, at, t);
    StreamStep(data, at, Announced(t.extra));
    if t.extra.Bare? {
      NoExtra(t.extra);
    } else {
      PaxIsStreamable(data, pos, t.extra);
    }
  }

  lemma {:induction false} ItemsAreStreamable(data: seq<uint8>, pos: nat, ts: seq<Item>)
    requires SoundItems(ts) && At(data, pos, ArchiveBytes(ts)) && AtEnd(data, pos + |ArchiveBytes(ts)|)
    requires forall i :: 0 <= i < |ts| ==> Extractable(ts[i])
    ensures Streamable(data, pos, NOTHING)
    decreases |ts|
  {
    hide Streamable, ItemBytes, At, AtEnd, SoundItem, Extractable;
    if ts == [] {
      StreamStep(data, pos, NOTHING);
    } else {
      AtParts(data, pos, ItemBytes(ts[0]), ArchiveBytes(ts[1..]));
      ItemsAreStreamable(data, pos + |ItemBytes(ts[0])|, ts[1..]);
      ItemIsStreamable(data, pos, ts[0]);
    }
  }

  lemma OneContents(data: seq<uint8>, l: Listed)
    requires l.offset + l.size <= |data|
    ensures InRange(data, [l]) && AllContents(data, [l]) == [Contents(data, l)]
  {}

  lemma NoContents(data: seq<uint8>)
    ensures InRange(data, []) && AllContents(data, []) == []
  {}

  lemma MoreContents(data: seq<uint8>, a: seq<Listed>, b: seq<Listed>)
    requires InRange(data, a) && InRange(data, b)
    ensures InRange(data, a + b) && AllContents(data, a + b) == AllContents(data, a) + AllContents(data, b)
  {
    hide Contents;
  }

  lemma BodyIsThere(data: seq<uint8>, pos: nat, t: Item)
    requires SoundItem(t) && At(data, pos, ItemBytes(t))
    ensures var start := pos + |ExtraBytes(t.extra)| + BLOCK;
      start + |t.body| <= |data| && data[start..start + |t.body|] == t.body
  {
    hide MemberBytes, ExtraBytes, At, SoundExtra, AtEnd, Padding;
    AtParts(data, pos, ExtraBytes(t.extra), MemberBytes(t.fields, t.body));
    MemberIsThere(data, pos + |ExtraBytes(t.extra)|, t.fields, t.body);
  }

  lemma ItemContents(data: seq<uint8>, pos: nat, t: Item)
    requires SoundItem(t) && At(data, pos, ItemBytes(t))
    ensures InRange(data, ItemListed(t, pos)) && AllContents(data, ItemListed(t, pos)) == ItemWritten(t)
  {
    hide ItemBytes, ExtraBytes, At, SoundExtra, Sound, IsDirectory, NameOf, Normalize, AllContents, InRange;
    NoContents(data);
    if IsListed(t) {
      var l := Listed(NameOf(t).value, |t.body|, IsDirectory(t), pos + |ExtraBytes(t.extra)| + BLOCK);
      BodyIsThere(data, pos, t);
      OneContents(data, l);
      assert ItemListed(t, pos) == [l];
    }
  }

  lemma {:induction false} ItemsContents(data: seq<uint8>, pos: nat, ts: seq<Item>)
    requires SoundItems(ts) && At(data, pos, ArchiveBytes(ts))
    ensures InRange(data, ItemsListed(ts, pos)) && AllContents(data, ItemsListed(ts, pos)) == ItemsWritten(ts)
    decreases |ts|
  {
    hide ItemBytes, ItemListed, ItemWritten, At, SoundItem, AllContents, InRange;
    if ts == [] {
      NoContents(data);
    } else {
      AtParts(data, pos, ItemBytes(ts[0]), ArchiveBytes(ts[1..]));
      ItemContents(data, pos, ts[0]);
      var next := pos + |ItemBytes(ts[0])|;
      ItemsContents(data, next, ts[1..]);
      MoreContents(data, ItemListed(ts[0], pos), ItemsListed(ts[1..], next));
    }
  }

  /** A written archive, fed to the stream in any chunks, is accepted and every
      file comes out with its name, its size and its data. */
  lemma WrittenIsExtracted(ts: seq<Item>, end: seq<uint8>, chunks: seq<seq<uint8>>)
    requires SoundItems(ts) && |end| % BLOCK == 0 && AtEnd(ArchiveBytes(ts) + end, |ArchiveBytes(ts)|)
    requires forall i :: 0 <= i < |ts| ==> Extractable(ts[i])
    requires Joined(chunks) == ArchiveBytes(ts) + end
    ensures Finished(FeedChunks(INITIAL, chunks))
    ensures FeedChunks(INITIAL, chunks).written == ItemsWritten(ts)
  {
    hide ArchiveBytes, ItemsListed, ItemsWritten, SoundItems, AtEnd, ListFrom, Streamable, Finished, FeedChunks, Joined,
         AllContents, InRange, Extractable;
    var data := ArchiveBytes(ts) + end;
    assert At(data, 0, ArchiveBytes(ts));
    ItemsAreListed(data, 0, ts);
    ItemsAreStreamable(data, 0, ts);
    ItemsContents(data, 0, ts);
    ArchiveIsWhole(ts);
    WholeBlocks(|ArchiveBytes(ts)|, |end|);
    AnyChunkingExtracts(data, chunks);
  }
}
