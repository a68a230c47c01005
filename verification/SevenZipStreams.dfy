/** Reading the stream tables of a 7z archive (tools/zz9k-archive.c): numbers,
    packed streams, and folders split into substreams. */
module SevenZipCursor {
  import opened Words
  import opened ModArith
  import opened Options

  // ----- numbers -----

  /** The leading ones of a byte, from bit 7 - i down. */
  function Ones(first: uint8, i: nat): (k: nat)
    requires i <= 8
    ensures i <= k <= 8
    decreases 8 - i
  {
    if i == 8 || Bit(first as nat, 7 - i) == 0 then i else Ones(first, i + 1)
  }

  /** The part of the number that the first byte holds, when k bytes follow. */
  function HighPart(first: uint8, k: nat): nat
    requires k <= 8
  {
    if k == 8 then 0
    else
      PowPositive(2, 7 - k);
      PowPositive(0x100, k);
      first as nat % Pow(2, 7 - k) * Pow(0x100, k)
  }

  /** A 7z number and the position after it: as many bytes follow the first as
      it has leading ones; they are the low part, least significant first. */
  function Number(data: seq<uint8>, pos: nat): (r: Option<(nat, nat)>)
    ensures r.Some? ==> pos < r.value.1 <= |data|
  {
    if pos >= |data| then None
    else
      var k := Ones(data[pos], 0);
      if pos + 1 + k > |data| then None
      else Some((LeValue(data[pos + 1..pos + 1 + k]) + HighPart(data[pos], k), pos + 1 + k))
  }

  /** n in k bytes after the first. */
  predicate Fits(n: nat, k: nat)
    requires k <= 8
  {
    PowPositive(0x100, k);
    if k == 8 then n < Pow(0x100, k) else n / Pow(0x100, k) < Pow(2, 7 - k)
  }

  lemma LeadingByte(k: nat, high: nat)
    requires k <= 8 && (if k == 8 then high == 0 else high < Pow(2, 7 - k))
    ensures 0 <= 0x100 - Pow(2, 8 - k) + high < 0x100
  {
    TwoPowers(7 - (if k == 8 then 7 else k));
    assert Pow(2, 0) == 1 && Pow(2, 8 - k) > 0;
  }

  /** Powers of two below 2^8, in pairs. */
  lemma TwoPowers(j: nat)
    requires j <= 7
    ensures 0 < Pow(2, j) && 0 < Pow(2, 8 - j) && Pow(2, j) * Pow(2, 8 - j) == 0x100
    ensures Pow(2, j + 1) == 2 * Pow(2, j) && Pow(2, j) <= 0x80
  {
    PowPositive(2, j);
    PowPositive(2, 7 - j);
    PowAdd(2, j, 8 - j);
    assert Pow(2, 4) == 16;
    PowAdd(2, 4, 4);
    assert Pow(2, 8 - j) == 2 * Pow(2, 7 - j);
    MulMono(2, Pow(2, 8 - j), Pow(2, j));
  }

  /** The 7z encoding of n with k bytes after the first. */
  function Encode(n: nat, k: nat): (b: seq<uint8>)
    requires k <= 8 && Fits(n, k)
    ensures |b| == k + 1
  {
    PowPositive(0x100, k);
    var high := if k == 8 then 0 else n / Pow(0x100, k);
    LeadingByte(k, high);
    [(0x100 - Pow(2, 8 - k) + high) as uint8] + LittleEndian(n, k)
  }

  /** The leading bits of an encoded first byte. */
  lemma LeadingBit(k: nat, high: nat, i: nat)
    requires k <= 8 && (if k == 8 then high == 0 else high < Pow(2, 7 - k)) && i <= k && i < 8
    ensures var first := 0x100 - Pow(2, 8 - k) + high;
            first >= 0 && Bit(first, 7 - i) == (if i < k then 1 else 0)
            && (i == k ==> first % Pow(2, 7 - k) == high)
  {
    LeadingByte(k, high);
    TwoPowers(7 - i);
    PowMono(8 - k, 8 - i);
    var first, p, half := 0x100 - Pow(2, 8 - k) + high, Pow(2, 7 - i), Pow(2, i);
    assert Pow(2, 8 - i) == 2 * p && Pow(2, i + 1) == 2 * half;
    if i < k {
      PowMono(8 - k, 7 - i);
      hide Pow;
      TopQuotient(first, p, half);
    } else {
      hide Pow;
      LowQuotient(first, p, half, high);
    }
  }

  lemma TopQuotient(first: nat, p: nat, half: nat)
    requires p > 0 && p * (2 * half) == 0x100 && 0x100 - p <= first < 0x100
    ensures first / p % 2 == 1
  {
    assert (2 * half - 1) * p == 0x100 - p;
    DivModUnique(first, p, 2 * half - 1, first - (0x100 - p));
  }

  lemma LowQuotient(first: nat, p: nat, half: nat, high: nat)
    requires p > 0 && p * (2 * half) == 0x100 && first == 0x100 - 2 * p + high && high < p
    ensures first / p % 2 == 0 && first % p == high
  {
    assert (2 * half - 2) * p == 0x100 - 2 * p;
    DivModUnique(first, p, 2 * half - 2, high);
  }

  lemma {:induction false} OnesOfEncoded(k: nat, high: nat, first: uint8, i: nat)
    requires k <= 8 && (if k == 8 then high == 0 else high < Pow(2, 7 - k)) && i <= k
    requires first as int == 0x100 - Pow(2, 8 - k) + high
    ensures Ones(first, i) == k
    decreases k - i
  {
    if i < 8 {
      LeadingBit(k, high, i);
    }
    if i < k {
      OnesOfEncoded(k, high, first, i + 1);
    }
  }

  /** Every number is read back from each of its encodings. */
  lemma NumberRoundTrip(n: nat, k: nat, rest: seq<uint8>)
    requires k <= 8 && Fits(n, k)
    ensures Number(Encode(n, k) + rest, 0) == Some((n, k + 1))
  {
    hide Pow, Ones, LeValue, LittleEndian;
    var data := Encode(n, k) + rest;
    LittleEndianValue(n, k);
    var p := Pow(0x100, k);
    var high := if k == 8 then 0 else n / p;
    OnesOfEncoded(k, high, data[0], 0);
    assert data[1..1 + k] == LittleEndian(n, k);
    if k < 8 {
      LeadingBit(k, high, k);
      assert n == n / p * p + n % p;
    } else {
      ModSmall(n, p);
    }
  }

  // ----- the cursor -----

  /** Item i of a digest list, once the defined ones are known to be there. */
  function Digests(data: seq<uint8>, pos: nat, items: seq<bool>): (r: seq<Option<uint32>>)
    requires pos + 4 * Count(items) <= |data|
    ensures |r| == |items|
  {
    if items == [] then []
    else
      var n := |items| - 1;
      Digests(data, pos, items[..n]) + [if items[n] then Some(Load32(data, pos + 4 * Count(items[..n]))) else None]
  }

  function Count(items: seq<bool>): (n: nat)
    ensures n <= |items|
  {
    if items == [] then 0 else Count(items[..|items| - 1]) + if items[|items| - 1] then 1 else 0
  }

  /** Which of n items have a digest: all of them, or those whose bit is set,
      most significant bit first. */
  function DefinedItems(data: seq<uint8>, pos: nat, n: nat): (items: seq<bool>)
    requires pos + (n + 7) / 8 <= |data|
    ensures |items| == n
  {
    seq(n, i requires 0 <= i < n => Bit(data[pos + i / 8] as nat, 7 - i % 8) == 1)
  }

  /** read_digests for n items, and the position after them. */
  function DigestList(data: seq<uint8>, pos: nat, n: nat): (r: Option<(seq<Option<uint32>>, nat)>)
    ensures r.Some? ==> |r.value.0| == n && pos < r.value.1 <= |data|
  {
    if pos >= |data| then None
    else if data[pos] == 0 && pos + 1 + (n + 7) / 8 > |data| then None
    else
      var items := if data[pos] == 0 then DefinedItems(data, pos + 1, n) else seq(n, _ => true);
      var start := if data[pos] == 0 then pos + 1 + (n + 7) / 8 else pos + 1;
      if start + 4 * Count(items) > |data| then None
      else Some((Digests(data, start, items), start + 4 * Count(items)))
  }

  class Cursor {
    const data: seq<uint8>
    var pos: nat

    ghost predicate Valid()
      reads this
    {
      pos <= |data| < 0x1_0000_0000
    }

    constructor (data: seq<uint8>)
      requires |data| < 0x1_0000_0000
      ensures Valid() && pos == 0 && this.data == data
    {
      this.data, pos := data, 0;
    }

    /** read_byte. */
    method ReadByte() returns (r: Option<uint8>)
      requires Valid()
      modifies this
      ensures Valid()
      ensures r == if old(pos) < |data| then Some(data[old(pos)]) else None
      ensures pos == if r.Some? then old(pos) + 1 else old(pos)
    {
      if pos >= |data| {
        return None;
      }
      r := Some(data[pos]);
      pos := pos + 1;
    }

    /** read_number. */
    method ReadNumber() returns (r: Option<nat>)
      requires Valid()
      modifies this
      ensures Valid()
      ensures r.Some? <==> Number(data, old(pos)).Some?
      ensures r.Some? ==> Number(data, old(pos)) == Some((r.value, pos))
    {
      hide Pow, LeValue, Bit;
      var first := ReadByte();
      if first.None? {
        return None;
      }
      ghost var start := pos;
      var out: nat := 0;
      NoBytes();
      assert data[start..pos] == [];
      for i := 0 to 8
        invariant Valid() && pos == start + i
        invariant Ones(first.value, 0) == Ones(first.value, i)
        invariant out == LeValue(data[start..pos])
      {
        if Bit(first.value as nat, 7 - i) == 0 {
          return Some(out + HighPart(first.value, i));
        }
        OnesStep(first.value, i);
        var b := ReadByte();
        if b.None? {
          return None;
        }
        LeValueSnoc(data[start..start + i], b.value);
        assert data[start..pos] == data[start..start + i] + [b.value];
        out := out + PowNat(0x100, i) * b.value as nat;
      }
      return Some(out);
    }

    /** read_digests. */
    method ReadDigests(n: nat) returns (r: Option<seq<Option<uint32>>>)
      requires Valid() && n <= 65535
      modifies this
      ensures Valid()
      ensures r.Some? <==> DigestList(data, old(pos), n).Some?
      ensures r.Some? ==> DigestList(data, old(pos), n) == Some((r.value, pos))
    {
      hide Digests, Count, DefinedItems;
      var all := ReadByte();
      if all.None? {
        return None;
      }
      var items := seq(n, _ => true);
      if all.value == 0 {
        var bitBytes := (n + 7) / 8;
        if bitBytes > |data| - pos {
          return None;
        }
        items := DefinedItems(data, pos, n);
        pos := pos + bitBytes;
      }
      if 4 * Count(items) > |data| - pos {
        return None;
      }
      var crcs := TakeDigests(items);
      return Some(crcs);
    }

    /** Its last loop: the defined digests, in order. */
    method TakeDigests(items: seq<bool>) returns (crcs: seq<Option<uint32>>)
      requires Valid() && pos + 4 * Count(items) <= |data|
      modifies this
      ensures Valid() && pos == old(pos) + 4 * Count(items)
      ensures crcs == Digests(data, old(pos), items)
    {
      hide Load32;
      ghost var start := pos;
      crcs := [];
      for i := 0 to |items|
        invariant Valid() && |crcs| == i && Count(items[..i]) <= Count(items)
        invariant pos == start + 4 * Count(items[..i])
        invariant crcs == Digests(data, start, items[..i])
      {
        assert items[..i + 1][..i] == items[..i];
        CountPrefix(items, i + 1);
        if items[i] {
          crcs := crcs + [Some(Load32(data, pos))];
          pos := pos + 4;
        } else {
          crcs := crcs + [None];
        }
      }
      assert items[..|items|] == items;
    }
  }

  lemma {:induction false} CountPrefix(items: seq<bool>, n: nat)
    requires n <= |items|
    ensures Count(items[..n]) <= Count(items)
    decreases |items| - n
  {
    if n == |items| {
      assert items[..n] == items;
    } else {
      CountPrefix(items, n + 1);
      assert items[..n + 1][..n] == items[..n];
    }
  }

  function PowNat(b: nat, e: nat): (r: nat)
    ensures r == Pow(b, e)
  {
    if e == 0 then 1 else b * PowNat(b, e - 1)
  }

  lemma NoBytes()
    ensures LeValue([]) == 0
  {}

  lemma OnesStep(first: uint8, i: nat)
    requires i < 8 && Bit(first as nat, 7 - i) != 0
    ensures Ones(first, i) == Ones(first, i + 1) >= i + 1
  {}

  lemma LeValueSnoc(a: seq<uint8>, b: uint8)
    ensures LeValue(a + [b]) == LeValue(a) + Pow(0x100, |a|) * b as nat
  {
    hide Pow, LeValue;
    var s := [b];
    OneByte(s);
    LeValueAppend(a, s);
  }

  lemma OneByte(s: seq<uint8>)
    requires |s| == 1
    ensures LeValue(s) == s[0] as nat
  {
    assert s[1..] == [];
  }
}

module SevenZipStreams {
  import opened Words
  import opened Options
  import opened SevenZipCursor

  const COPY: nat := 0
  const START_HEADER: nat := 32

  /** One packed stream, or later one substream of a folder. */
  datatype Stream = Stream(dataOffset: nat, decodedOffset: nat, packSize: nat, unpackSize: nat, crc: Option<uint32>,
                           coding: nat, flags: nat, unsupportedSplit: bool, props: seq<uint8>)

  function Sum(s: seq<nat>): nat {
    if s == [] then 0 else Sum(s[..|s| - 1]) + s[|s| - 1]
  }

  lemma {:induction false} SumPrefix(s: seq<nat>, n: nat)
    requires n <= |s|
    ensures Sum(s[..n]) <= Sum(s)
    decreases |s| - n
  {
    if n == |s| {
      assert s[..n] == s;
    } else {
      SumPrefix(s, n + 1);
      assert s[..n + 1][..n] == s[..n];
    }
  }

  function Sizes(parts: seq<Stream>): (s: seq<nat>)
    ensures |s| == |parts|
  {
    seq(|parts|, i requires 0 <= i < |parts| => parts[i].unpackSize)
  }

  // ----- what a partition is -----

  /** A folder that is stored without coding, so that its packed bytes are its
      unpacked bytes. */
  predicate Stored(folder: Stream) {
    folder.coding == COPY && folder.packSize == folder.unpackSize
  }

  /** `parts` are the substreams of a folder: their sizes add up to its size,
      each starts where the sizes before it end, and in a stored folder that is
      also where its packed bytes are. */
  ghost predicate PartitionsFolder(folder: Stream, parts: seq<Stream>, crcs: seq<Option<uint32>>) {
    && 0 < |parts| == |crcs|
    && Sum(Sizes(parts)) == folder.unpackSize
    && forall k :: 0 <= k < |parts| ==> PartOf(folder, parts[k], Sum(Sizes(parts)[..k]), |parts|, crcs[k])
  }

  /** The k-th of `count` parts, with `before` bytes of the folder before it. */
  predicate PartOf(folder: Stream, part: Stream, before: nat, count: nat, crc: Option<uint32>) {
    && part.decodedOffset == before
    && part.coding == folder.coding && part.flags == folder.flags && part.props == folder.props
    && (Stored(folder) ==>
          part.dataOffset == folder.dataOffset + before && part.packSize == part.unpackSize
              && part.unsupportedSplit == folder.unsupportedSplit)
    && (count > 1 && !Stored(folder) ==>
          part.dataOffset == folder.dataOffset && part.packSize == folder.packSize && part.unsupportedSplit)
    && (count == 1 ==>
          part.dataOffset == folder.dataOffset && part.unsupportedSplit == folder.unsupportedSplit
          && part.packSize == if folder.coding == COPY then part.unpackSize else folder.packSize)
    && part.crc == if crc.Some? then crc else if count == 1 then folder.crc else None
  }

  /** Every folder in turn is partitioned by the next counts[f] parts. */
  ghost predicate Partitions(folders: seq<Stream>, counts: seq<nat>, parts: seq<Stream>, crcs: seq<Option<uint32>>)
    decreases |folders|
  {
    && |folders| == |counts| && |parts| == |crcs|
    && if folders == [] then parts == []
       else
         var n := |folders| - 1;
         var m := |parts| - counts[n];
         0 <= m && PartitionsFolder(folders[n], parts[m..], crcs[m..])
         && Partitions(folders[..n], counts[..n], parts[..m], crcs[..m])
  }

  /** In a stored folder the parts tile the packed bytes: the first begins with
      them, each begins where the one before ends, the last ends with them. */
  lemma PartsTile(folder: Stream, parts: seq<Stream>, crcs: seq<Option<uint32>>)
    requires PartitionsFolder(folder, parts, crcs) && Stored(folder)
    ensures parts[0].dataOffset == folder.dataOffset
    ensures forall k :: 0 <= k < |parts| - 1 ==> parts[k].dataOffset + parts[k].packSize == parts[k + 1].dataOffset
    ensures parts[|parts| - 1].dataOffset + parts[|parts| - 1].packSize == folder.dataOffset + folder.packSize
  {
    var s := Sizes(parts);
    forall k | 0 <= k < |parts|
      ensures Sum(s[..k]) + parts[k].packSize == Sum(s[..k + 1])
    {
      assert s[..k + 1][..k] == s[..k];
      assert PartOf(folder, parts[k], Sum(s[..k]), |parts|, crcs[k]);
    }
    assert s[..|parts|] == s && s[..0] == [];
    forall k | 0 <= k < |parts|
      ensures parts[k].dataOffset == folder.dataOffset + Sum(s[..k])
    {
      assert PartOf(folder, parts[k], Sum(s[..k]), |parts|, crcs[k]);
    }
  }

  // ----- flattening -----

  /** The stream tables of an archive. */
  class Streams {
    var items: seq<Stream>

    constructor ()
      ensures items == []
    {
      items := [];
    }
  }

  /** One folder's parts; fails when the sizes do not fill the folder. */
  method FlattenFolder(folder: Stream, sizes: seq<nat>, crcs: seq<Option<uint32>>)
    returns (ok: bool, parts: seq<Stream>)
    requires |sizes| == |crcs| > 0
    requires folder.dataOffset + folder.packSize < 0x1_0000_0000 && folder.unpackSize < 0x1_0000_0000
    ensures ok <==> Sum(sizes) == folder.unpackSize
    ensures ok ==> Sizes(parts) == sizes && PartitionsFolder(folder, parts, crcs)
  {
    hide Sum;
    SumSteps(sizes);
    var count, offset, total: nat := |sizes|, folder.dataOffset, 0;
    var unsupported := count > 1 && (folder.coding != COPY || folder.packSize != folder.unpackSize);
    parts := [];
    for i := 0 to count
      invariant |parts| == i && Sizes(parts) == sizes[..i]
      invariant total == Sum(sizes[..i]) <= folder.unpackSize
      invariant Stored(folder) ==> offset == folder.dataOffset + total
      invariant forall k :: 0 <= k < i ==> PartOf(folder, parts[k], Sum(sizes[..k]), count, crcs[k])
    {
      var size := sizes[i];
      if total > folder.unpackSize || size > folder.unpackSize - total {
        SumPrefix(sizes, i + 1);
        return false, parts;
      }
      var crc := if crcs[i].Some? then crcs[i] else if count == 1 then folder.crc else None;
      var part := Stream(
        if unsupported || count == 1 then folder.dataOffset else offset,
        total,
        if unsupported then folder.packSize else if folder.coding == COPY then size else folder.packSize,
        size, crc, folder.coding, folder.flags, folder.unsupportedSplit || unsupported, folder.props);
      parts := parts + [part];
      offset := (offset + size) % 0x1_0000_0000;
      total := total + size;
    }
    ok := total == folder.unpackSize;
    assert sizes[..count] == sizes;
    forall k | 0 <= k < |parts|
      ensures Sizes(parts)[..k] == sizes[..k]
    {}
  }

  lemma SumSteps(s: seq<nat>)
    ensures Sum(s[..0]) == 0
    ensures forall i :: 0 <= i < |s| ==> Sum(s[..i]) + s[i] == Sum(s[..i + 1])
  {
    forall i | 0 <= i < |s|
      ensures Sum(s[..i]) + s[i] == Sum(s[..i + 1])
    {
      assert s[..i + 1][..i] == s[..i];
    }
  }

  // ----- folders appended one after another -----

  lemma PartitionsNext(folders: seq<Stream>, counts: seq<nat>, parts: seq<Stream>, crcs: seq<Option<uint32>>,
                       f: nat, more: seq<Stream>, moreCrcs: seq<Option<uint32>>)
    requires f < |folders| == |counts| && Partitions(folders[..f], counts[..f], parts, crcs)
    requires |more| == counts[f] && PartitionsFolder(folders[f], more, moreCrcs)
    ensures Partitions(folders[..f + 1], counts[..f + 1], parts + more, crcs + moreCrcs)
  {
    hide PartitionsFolder;
    FolderCounts(folders[f], more, moreCrcs);
    assert folders[..f + 1][..f] == folders[..f] && counts[..f + 1][..f] == counts[..f];
    assert (parts + more)[|parts|..] == more && (parts + more)[..|parts|] == parts;
    assert (crcs + moreCrcs)[|parts|..] == moreCrcs && (crcs + moreCrcs)[..|parts|] == crcs;
  }

  lemma FolderCounts(folder: Stream, parts: seq<Stream>, crcs: seq<Option<uint32>>)
    requires PartitionsFolder(folder, parts, crcs)
    ensures 0 < |parts| == |crcs|
  {}

  /** The sizes announced for the folders from f on fill them. */
  predicate Fills(folders: seq<Stream>, counts: seq<nat>, sizes: seq<nat>, f: nat)
    requires f <= |folders| == |counts|
    decreases |folders| - f
  {
    if f == |folders| then sizes == []
    else
      && 0 < counts[f] <= |sizes| && Sum(sizes[..counts[f]]) == folders[f].unpackSize
      && Fills(folders, counts, sizes[counts[f]..], f + 1)
  }

  /** What the table of packed streams promises. */
  predicate InArchive(folders: seq<Stream>) {
    forall f :: 0 <= f < |folders| ==>
      folders[f].dataOffset + folders[f].packSize < 0x1_0000_0000 && folders[f].unpackSize < 0x1_0000_0000
  }

  /** streams_flatten_substreams: either the streams become a partition of the
      folders they were, or nothing changes. */
  method Flatten(streams: Streams, counts: seq<nat>, sizes: seq<nat>, crcs: seq<Option<uint32>>) returns (ok: bool)
    requires |counts| == |streams.items| && |crcs| == |sizes| && InArchive(streams.items)
    modifies streams
    ensures ok <==> 0 < |sizes| <= 65535 && Fills(old(streams.items), counts, sizes, 0)
    ensures ok ==> Partitions(old(streams.items), counts, streams.items, crcs) && Sizes(streams.items) == sizes
    ensures !ok ==> streams.items == old(streams.items)
  {
    hide Sum, PartitionsFolder;
    if |sizes| == 0 || |sizes| > 65535 {
      return false;
    }
    var folders, out, parts: seq<Stream> := streams.items, 0, [];
    assert sizes[0..] == sizes && folders[..0] == [] && counts[..0] == [] && crcs[..0] == [];
    assert folders[..|folders|] == folders && counts[..|counts|] == counts && crcs[..|crcs|] == crcs;
    for f := 0 to |folders|
      invariant 0 <= out <= |sizes| && |parts| == out && streams.items == folders
      invariant Fills(folders, counts, sizes, 0) == Fills(folders, counts, sizes[out..], f)
      invariant Partitions(folders[..f], counts[..f], parts, crcs[..out]) && Sizes(parts) == sizes[..out]
    {
      var count := counts[f];
      if count == 0 || out + count > |sizes| {
        return false;
      }
      assert sizes[out..][..count] == sizes[out..out + count] && sizes[out..][count..] == sizes[out + count..];
      var fits, more := FlattenFolder(folders[f], sizes[out..out + count], crcs[out..out + count]);
      if !fits {
        return false;
      }
      PartitionsNext(folders, counts, parts, crcs[..out], f, more, crcs[out..out + count]);
      assert crcs[..out] + crcs[out..out + count] == crcs[..out + count];
      assert Sizes(parts + more) == Sizes(parts) + Sizes(more);
      parts := parts + more;
      out := out + count;
    }
    if out != |sizes| {
      return false;
    }
    streams.items := parts;
    return true;
  }

  // ----- the packed streams -----

  /** The packed streams lie one after another inside the archive. */
  predicate LaidOut(items: seq<Stream>, start: nat, archiveLength: nat) {
    forall i :: 0 <= i < |items| ==>
      && items[i].dataOffset == (if i == 0 then start else items[i - 1].dataOffset + items[i - 1].packSize)
      && items[i].dataOffset + items[i].packSize <= archiveLength
  }

  lemma NoneLaidOut(archiveLength: nat)
    ensures forall s: nat :: LaidOut([], s, archiveLength)
  {}

  lemma LaidOutNext(items: seq<Stream>, start: nat, archiveLength: nat, next: Stream)
    requires LaidOut(items, start, archiveLength) && next.dataOffset + next.packSize <= archiveLength
    requires next.dataOffset == if items == [] then start
             else items[|items| - 1].dataOffset + items[|items| - 1].packSize
    ensures LaidOut(items + [next], start, archiveLength)
  {}

  const END: nat := 0x00
  const SIZE: nat := 0x09
  const CRC: nat := 0x0a
  const NUM_UNPACK_STREAM: nat := 0x0d

  // ----- the substreams table, as a function of the bytes -----

  /** How many substreams the first n folders have: at least one each, no more
      than 65535 together. */
  function ReadCounts(data: seq<uint8>, pos: nat, n: nat): (r: Option<(seq<nat>, nat)>)
    ensures r.Some? ==> |r.value.0| == n && pos <= r.value.1 && Sum(r.value.0) <= 65535
    ensures r.Some? ==> forall f :: 0 <= f < n ==> r.value.0[f] > 0
  {
    if n == 0 then Some(([], pos))
    else
      var front := ReadCounts(data, pos, n - 1);
      if front.None? then None
      else
        var c := Number(data, front.value.1);
        if c.None? || c.value.0 == 0 || c.value.0 > 65535 || Sum(front.value.0) + c.value.0 > 65535 then None
        else
          assert (front.value.0 + [c.value.0])[..n - 1] == front.value.0;
          Some((front.value.0 + [c.value.0], c.value.1))
  }

  /** The first n sizes of a folder's substreams, within the folder's size. */
  function ReadSizes(data: seq<uint8>, pos: nat, n: nat, unpackSize: nat): (r: Option<(seq<nat>, nat)>)
    ensures r.Some? ==> |r.value.0| == n && pos <= r.value.1 && (n > 0 ==> Sum(r.value.0) <= unpackSize)
  {
    if n == 0 then Some(([], pos))
    else
      var front := ReadSizes(data, pos, n - 1, unpackSize);
      if front.None? then None
      else
        var v := Number(data, front.value.1);
        if v.None? || v.value.0 > 0x7fff_ffff || Sum(front.value.0) + v.value.0 > unpackSize then None
        else
          assert (front.value.0 + [v.value.0])[..n - 1] == front.value.0;
          Some((front.value.0 + [v.value.0], v.value.1))
  }

  /** All sizes of a folder: the last one is what is left. */
  function FolderSizes(data: seq<uint8>, pos: nat, count: nat, unpackSize: nat): (r: Option<(seq<nat>, nat)>)
    requires count > 0
    ensures r.Some? ==> |r.value.0| == count && pos <= r.value.1 && Sum(r.value.0) == unpackSize
  {
    var front := ReadSizes(data, pos, count - 1, unpackSize);
    if front.None? then None
    else
      var last := unpackSize - Sum(front.value.0);
      assert (front.value.0 + [last])[..count - 1] == front.value.0;
      Some((front.value.0 + [last], front.value.1))
  }

  function AllSizes(data: seq<uint8>, pos: nat, folders: seq<Stream>, counts: seq<nat>): (r: Option<(seq<nat>, nat)>)
    requires |folders| == |counts| && forall f :: 0 <= f < |counts| ==> counts[f] > 0
    ensures r.Some? ==> |r.value.0| == Sum(counts) && pos <= r.value.1
  {
    if folders == [] then Some(([], pos))
    else
      var n := |folders| - 1;
      var front := AllSizes(data, pos, folders[..n], counts[..n]);
      if front.None? then None
      else
        var last := FolderSizes(data, front.value.1, counts[n], folders[n].unpackSize);
        if last.None? then None else Some((front.value.0 + last.value.0, last.value.1))
  }

  // ----- the table of packed streams, as a function of the bytes -----

  /** The end of the table; digests may come before it. */
  function PackEnd(data: seq<uint8>, pos: nat, count: nat): (r: Option<nat>)
    decreases |data| - pos
  {
    var kind := Number(data, pos);
    if kind.None? then None
    else if kind.value.0 == END then Some(kind.value.1)
    else if kind.value.0 != CRC then None
    else
      var d := DigestList(data, kind.value.1, count);
      if d.None? then None else PackEnd(data, d.value.1, count)
  }

  /** Where the packed data starts, the sizes of the streams, and the position
      after the table. There is at least one stream, and all of them end inside
      the archive. */
  function PackTable(data: seq<uint8>, pos: nat, archiveLength: nat): (r: Option<(nat, seq<nat>, nat)>)
    ensures r.Some? ==> 0 < |r.value.1| <= 65535 && r.value.0 + Sum(r.value.1) <= archiveLength
  {
    var packPos := Number(data, pos);
    if packPos.None? then None
    else
      var count := Number(data, packPos.value.1);
      if count.None? || packPos.value.0 > 0x7fff_ffff || count.value.0 == 0 || count.value.0 > 65535 then None
      else
        var kind := Number(data, count.value.1);
        var start := START_HEADER + packPos.value.0;
        if kind.None? || kind.value.0 != SIZE || start > archiveLength then None
        else
          var sizes := ReadSizes(data, kind.value.1, count.value.0, archiveLength - start);
          if sizes.None? then None
          else
            var end := PackEnd(data, sizes.value.1, count.value.0);
            if end.None? then None else Some((start, sizes.value.0, end.value))
  }

  function PackSizes(items: seq<Stream>): (s: seq<nat>)
    ensures |s| == |items|
  {
    seq(|items|, i requires 0 <= i < |items| => items[i].packSize)
  }

  /** parse_pack_info. */
  method ParsePackInfo(cursor: Cursor, archiveLength: nat, streams: Streams) returns (ok: bool)
    requires cursor.Valid() && archiveLength < 0x1_0000_0000
    modifies cursor, streams
    ensures cursor.Valid()
    ensures ok <==> PackTable(cursor.data, old(cursor.pos), archiveLength).Some?
    ensures ok ==> PackTable(cursor.data, old(cursor.pos), archiveLength).value.1 == PackSizes(streams.items)
    ensures ok ==> PackTable(cursor.data, old(cursor.pos), archiveLength).value.2 == cursor.pos
    ensures ok ==> LaidOut(streams.items, PackTable(cursor.data, old(cursor.pos), archiveLength).value.0, archiveLength)
  {
    hide Number, LaidOut, Sum, ReadSizes, PackEnd;
    var packPos := cursor.ReadNumber();
    if packPos.None? {
      return false;
    }
    var count := cursor.ReadNumber();
    if count.None? || packPos.value > 0x7fff_ffff || count.value > 65535 {
      return false;
    }
    if count.value == 0 {
      return false;
    }
    var kind := cursor.ReadNumber();
    if kind.None? || kind.value != SIZE {
      return false;
    }
    ok := TakePackSizes(cursor, archiveLength, START_HEADER + packPos.value, count.value, streams);
    if ok {
      ok := SkipPackEnd(cursor, count.value);
    }
  }

  /** The sizes, and the offsets that follow from them. */
  method TakePackSizes(cursor: Cursor, archiveLength: nat, start: nat, count: nat, streams: Streams) returns (ok: bool)
    requires cursor.Valid() && count > 0
    modifies cursor, streams
    ensures cursor.Valid()
    ensures ok <==>
            start <= archiveLength
            && ReadSizes(cursor.data, old(cursor.pos), count, archiveLength - start).Some?
    ensures ok ==> ReadSizes(cursor.data, old(cursor.pos), count, archiveLength - start)
                   == Some((PackSizes(streams.items), cursor.pos))
    ensures ok ==> LaidOut(streams.items, start, archiveLength)
  {
    hide Number, LaidOut, Sum;
    NoneLaidOut(archiveLength);
    SumOfNone();
    ghost var from, room := cursor.pos, if start > archiveLength then 0 else archiveLength - start;
    var dataPos, items: seq<Stream> := start, [];
    for i := 0 to count
      invariant cursor.Valid() && |items| == i && (i > 0 ==> start <= archiveLength)
      invariant ReadSizes(cursor.data, from, i, room) == Some((PackSizes(items), cursor.pos))
      invariant dataPos == start + Sum(PackSizes(items))
      invariant dataPos == if i == 0 then start else items[i - 1].dataOffset + items[i - 1].packSize
      invariant LaidOut(items, start, archiveLength)
    {
      var size := cursor.ReadNumber();
      if size.None? || size.value > 0x7fff_ffff || dataPos > archiveLength || size.value > archiveLength - dataPos {
        if start <= archiveLength {
          NoMoreSizes(cursor.data, from, i + 1, count, room);
        }
        return false;
      }
      var item := Stream(dataPos, 0, size.value, 0, None, 0, 0, false, []);
      LaidOutNext(items, start, archiveLength, item);
      SumSnoc(PackSizes(items), size.value);
      assert PackSizes(items + [item]) == PackSizes(items) + [size.value];
      items := items + [item];
      dataPos := dataPos + size.value;
    }
    streams.items := items;
    return true;
  }

  method SkipPackEnd(cursor: Cursor, count: nat) returns (ok: bool)
    requires cursor.Valid() && count <= 65535
    modifies cursor
    ensures cursor.Valid()
    ensures ok <==> PackEnd(cursor.data, old(cursor.pos), count).Some?
    ensures ok ==> PackEnd(cursor.data, old(cursor.pos), count) == Some(cursor.pos)
  {
    hide Number, DigestList;
    while true
      invariant cursor.Valid()
      invariant PackEnd(cursor.data, cursor.pos, count) == PackEnd(cursor.data, old(cursor.pos), count)
      decreases |cursor.data| - cursor.pos
    {
      var kind := cursor.ReadNumber();
      if kind.None? {
        return false;
      }
      if kind.value == END {
        return true;
      }
      if kind.value != CRC {
        return false;
      }
      var skipped := cursor.ReadDigests(count);
      if skipped.None? {
        return false;
      }
    }
  }

  /** What the properties have said so far. */
  datatype Table = Table(counts: seq<nat>, sizes: Option<seq<nat>>, crcs: Option<seq<Option<uint32>>>)

  predicate TableFits(t: Table, n: nat) {
    && |t.counts| == n && Sum(t.counts) <= 65535 && (forall f :: 0 <= f < n ==> t.counts[f] > 0)
    && (t.sizes.Some? ==> |t.sizes.value| == Sum(t.counts))
    && (t.crcs.Some? ==> |t.crcs.value| == Sum(t.counts))
  }

  /** The properties up to the end mark; sizes and digests at most once
      each, counts before them and as often as they come. */
  function Properties(data: seq<uint8>, pos: nat, folders: seq<Stream>, t: Table): (r: Option<(Table, nat)>)
    requires TableFits(t, |folders|)
    ensures r.Some? ==> TableFits(r.value.0, |folders|)
    decreases |data| - pos
  {
    var kind := Number(data, pos);
    if kind.None? then None
    else if kind.value.0 == END then Some((t, kind.value.1))
    else if kind.value.0 == NUM_UNPACK_STREAM && t.sizes.None? && t.crcs.None? then
      var c := ReadCounts(data, kind.value.1, |folders|);
      if c.None? then None else Properties(data, c.value.1, folders, t.(counts := c.value.0))
    else if kind.value.0 == SIZE && t.sizes.None? then
      var z := AllSizes(data, kind.value.1, folders, t.counts);
      if z.None? then None else Properties(data, z.value.1, folders, t.(sizes := Some(z.value.0)))
    else if kind.value.0 == CRC && t.crcs.None? then
      var d := DigestList(data, kind.value.1, Sum(t.counts));
      if d.None? then None else Properties(data, d.value.1, folders, t.(crcs := Some(d.value.0)))
    else None
  }

  lemma {:induction false} FillsAppend(folders: seq<Stream>, counts: seq<nat>, a: seq<nat>, b: seq<nat>, f: nat)
    requires f < |folders| == |counts|
    requires Fills(folders[..|folders| - 1], counts[..|folders| - 1], a, f)
    requires 0 < |b| == counts[|folders| - 1] && Sum(b) == folders[|folders| - 1].unpackSize
    ensures Fills(folders, counts, a + b, f)
    decreases |folders| - f
  {
    hide Sum;
    var n := |folders| - 1;
    if f == n {
      assert a + b == b && b[..|b|] == b && b[|b|..] == [];
      assert Fills(folders, counts, [], n + 1);
    } else {
      var c := counts[f];
      assert (a + b)[..c] == a[..c] && (a + b)[c..] == a[c..] + b;
      FillsAppend(folders, counts, a[c..], b, f + 1);
    }
  }

  lemma {:induction false} AllSizesFill(data: seq<uint8>, pos: nat, folders: seq<Stream>, counts: seq<nat>)
    requires |folders| == |counts| && forall f :: 0 <= f < |counts| ==> counts[f] > 0
    ensures AllSizes(data, pos, folders, counts).Some? ==>
            Fills(folders, counts, AllSizes(data, pos, folders, counts).value.0, 0)
    decreases |folders|
  {
    if folders != [] && AllSizes(data, pos, folders, counts).Some? {
      var n := |folders| - 1;
      AllSizesFill(data, pos, folders[..n], counts[..n]);
      var front := AllSizes(data, pos, folders[..n], counts[..n]).value;
      var last := FolderSizes(data, front.1, counts[n], folders[n].unpackSize).value;
      FillsAppend(folders, counts, front.0, last.0, 0);
    }
  }

  /** Without sizes every folder is one stream. */
  lemma {:induction false} SingleStreamsFill(folders: seq<Stream>, counts: seq<nat>, f: nat)
    requires f <= |folders| == |counts| && forall k :: 0 <= k < |counts| ==> counts[k] == 1
    ensures Fills(folders, counts, Sizes(folders)[f..], f)
    decreases |folders| - f
  {
    var s := Sizes(folders);
    if f < |folders| {
      SingleStreamsFill(folders, counts, f + 1);
      OneSum(s[f..][..1]);
      assert s[f..][1..] == s[f + 1..];
    }
  }

  lemma OneSum(s: seq<nat>)
    requires |s| == 1
    ensures Sum(s) == s[0]
  {
    assert s[..0] == [];
  }

  function AllOne(n: nat): (s: seq<nat>)
    ensures |s| == n && Sum(s) == n && forall i :: 0 <= i < n ==> s[i] == 1
  {
    if n == 0 then [] else
      assert (AllOne(n - 1) + [1])[..n - 1] == AllOne(n - 1);
      AllOne(n - 1) + [1]
  }

  // ----- the code that reads it -----

  method TakeCounts(cursor: Cursor, n: nat) returns (r: Option<seq<nat>>)
    requires cursor.Valid()
    modifies cursor
    ensures cursor.Valid()
    ensures r.Some? <==> ReadCounts(cursor.data, old(cursor.pos), n).Some?
    ensures r.Some? ==> ReadCounts(cursor.data, old(cursor.pos), n) == Some((r.value, cursor.pos))
  {
    hide Number, Sum;
    ghost var start := cursor.pos;
    var counts: seq<nat>, total: nat := [], 0;
    SumOfNone();
    for i := 0 to n
      invariant cursor.Valid() && total == Sum(counts)
      invariant ReadCounts(cursor.data, start, i) == Some((counts, cursor.pos))
    {
      var c := cursor.ReadNumber();
      if c.None? || c.value == 0 || c.value > 65535 || total + c.value > 65535 {
        NoMoreCounts(cursor.data, start, i + 1, n);
        return None;
      }
      SumSnoc(counts, c.value);
      counts := counts + [c.value];
      total := total + c.value;
    }
    return Some(counts);
  }

  lemma SumOfNone()
    ensures Sum([]) == 0
  {}

  lemma SumSnoc(s: seq<nat>, x: nat)
    ensures Sum(s + [x]) == Sum(s) + x
  {
    assert (s + [x])[..|s|] == s;
  }

  lemma {:induction false} NoMoreCounts(data: seq<uint8>, pos: nat, i: nat, n: nat)
    requires i <= n && ReadCounts(data, pos, i).None?
    ensures ReadCounts(data, pos, n).None?
    decreases n - i
  {
    if i < n {
      NoMoreCounts(data, pos, i + 1, n);
    }
  }

  method TakeSizes(cursor: Cursor, count: nat, unpackSize: nat) returns (r: Option<seq<nat>>)
    requires cursor.Valid() && count > 0
    modifies cursor
    ensures cursor.Valid()
    ensures r.Some? <==> FolderSizes(cursor.data, old(cursor.pos), count, unpackSize).Some?
    ensures r.Some? ==> FolderSizes(cursor.data, old(cursor.pos), count, unpackSize) == Some((r.value, cursor.pos))
  {
    hide Number, Sum;
    ghost var start := cursor.pos;
    var sizes: seq<nat>, total: nat := [], 0;
    SumOfNone();
    for i := 0 to count - 1
      invariant cursor.Valid() && total == Sum(sizes)
      invariant ReadSizes(cursor.data, start, i, unpackSize) == Some((sizes, cursor.pos))
    {
      var v := cursor.ReadNumber();
      if v.None? || v.value > 0x7fff_ffff || total + v.value > unpackSize {
        NoMoreSizes(cursor.data, start, i + 1, count - 1, unpackSize);
        return None;
      }
      SumSnoc(sizes, v.value);
      sizes := sizes + [v.value];
      total := total + v.value;
    }
    return Some(sizes + [unpackSize - total]);
  }

  lemma {:induction false} NoMoreSizes(data: seq<uint8>, pos: nat, i: nat, n: nat, unpackSize: nat)
    requires i <= n && ReadSizes(data, pos, i, unpackSize).None?
    ensures ReadSizes(data, pos, n, unpackSize).None?
    decreases n - i
  {
    if i < n {
      NoMoreSizes(data, pos, i + 1, n, unpackSize);
    }
  }

  method TakeAllSizes(cursor: Cursor, folders: seq<Stream>, counts: seq<nat>) returns (r: Option<seq<nat>>)
    requires cursor.Valid() && |folders| == |counts| && forall f :: 0 <= f < |counts| ==> counts[f] > 0
    modifies cursor
    ensures cursor.Valid()
    ensures r.Some? <==> AllSizes(cursor.data, old(cursor.pos), folders, counts).Some?
    ensures r.Some? ==> AllSizes(cursor.data, old(cursor.pos), folders, counts) == Some((r.value, cursor.pos))
  {
    hide FolderSizes;
    ghost var start := cursor.pos;
    var sizes: seq<nat> := [];
    for f := 0 to |folders|
      invariant cursor.Valid()
      invariant AllSizes(cursor.data, start, folders[..f], counts[..f]) == Some((sizes, cursor.pos))
    {
      assert folders[..f + 1][..f] == folders[..f] && counts[..f + 1][..f] == counts[..f];
      var more := TakeSizes(cursor, counts[f], folders[f].unpackSize);
      if more.None? {
        NoMoreFolders(cursor.data, start, folders, counts, f + 1);
        return None;
      }
      sizes := sizes + more.value;
    }
    assert folders[..|folders|] == folders && counts[..|folders|] == counts;
    return Some(sizes);
  }

  lemma {:induction false} NoMoreFolders(data: seq<uint8>, pos: nat, folders: seq<Stream>, counts: seq<nat>, n: nat)
    requires n <= |folders| == |counts| && forall f :: 0 <= f < |counts| ==> counts[f] > 0
    requires AllSizes(data, pos, folders[..n], counts[..n]).None?
    ensures AllSizes(data, pos, folders, counts).None?
    decreases |folders| - n
  {
    hide FolderSizes;
    if n == |folders| {
      assert folders[..n] == folders && counts[..n] == counts;
    } else {
      assert folders[..n + 1][..n] == folders[..n] && counts[..n + 1][..n] == counts[..n];
      NoMoreFolders(data, pos, folders, counts, n + 1);
    }
  }

  /** The table that was read, once it is complete. */
  predicate Usable(t: Table) {
    t.sizes.Some? || forall f :: 0 <= f < |t.counts| ==> t.counts[f] == 1
  }

  /** parse_substreams_info: a well-formed table turns the folders into a
      partition of them; otherwise nothing changes. */
  method ParseSubstreamsInfo(cursor: Cursor, streams: Streams) returns (ok: bool, ghost t: Table)
    requires cursor.Valid() && InArchive(streams.items) && |streams.items| <= 65535
    modifies cursor, streams
    ensures cursor.Valid()
    ensures ok <==> |old(streams.items)| > 0
                    && Properties(cursor.data, old(cursor.pos), old(streams.items),
                                  Table(AllOne(|old(streams.items)|), None, None)).Some?
                    && Usable(Properties(cursor.data, old(cursor.pos), old(streams.items),
                                         Table(AllOne(|old(streams.items)|), None, None)).value.0)
    ensures ok ==> Properties(cursor.data, old(cursor.pos), old(streams.items),
                              Table(AllOne(|old(streams.items)|), None, None)) == Some((t, cursor.pos))
    ensures ok ==> Partitions(old(streams.items), t.counts, streams.items,
                              if t.crcs.Some? then t.crcs.value else seq(|streams.items|, _ => None))
    ensures ok && t.sizes.Some? ==> Sizes(streams.items) == t.sizes.value
    ensures !ok ==> streams.items == old(streams.items)
  {
    hide Number, ReadCounts, AllSizes, DigestList, Partitions, Fills, Sum;
    var folders := streams.items;
    ghost var start, first := cursor.pos, Table(AllOne(|folders|), None, None);
    var table := Table(AllOne(|folders|), None, None);
    t := table;
    while true
      invariant cursor.Valid() && streams.items == folders && TableFits(table, |folders|)
      invariant Properties(cursor.data, cursor.pos, folders, table) == Properties(cursor.data, start, folders, first)
      invariant table.sizes.Some? ==> Fills(folders, table.counts, table.sizes.value, 0)
      decreases |cursor.data| - cursor.pos
    {
      var kind := cursor.ReadNumber();
      if kind.None? {
        return false, table;
      }
      if kind.value == END {
        ok := Flattened(streams, table);
        return ok, table;
      } else if kind.value == NUM_UNPACK_STREAM {
        if table.sizes.Some? || table.crcs.Some? {
          return false, table;
        }
        var counts := TakeCounts(cursor, |folders|);
        if counts.None? {
          return false, table;
        }
        table := table.(counts := counts.value);
      } else if kind.value == SIZE {
        if table.sizes.Some? {
          return false, table;
        }
        ghost var at := cursor.pos;
        var sizes := TakeAllSizes(cursor, folders, table.counts);
        if sizes.None? {
          return false, table;
        }
        AllSizesFill(cursor.data, at, folders, table.counts);
        table := table.(sizes := Some(sizes.value));
      } else if kind.value == CRC {
        if table.crcs.Some? {
          return false, table;
        }
        var crcs := cursor.ReadDigests(Sum(table.counts));
        if crcs.None? {
          return false, table;
        }
        table := table.(crcs := Some(crcs.value));
      } else {
        return false, table;
      }
    }
  }

  /** The end mark: sizes that were left out are the folders' own. */
  method Flattened(streams: Streams, t: Table) returns (ok: bool)
    requires InArchive(streams.items) && TableFits(t, |streams.items|)
    requires t.sizes.Some? ==> Fills(streams.items, t.counts, t.sizes.value, 0)
    modifies streams
    ensures ok <==> |old(streams.items)| > 0 && Usable(t)
    ensures ok ==> Partitions(old(streams.items), t.counts, streams.items,
                              if t.crcs.Some? then t.crcs.value else seq(|streams.items|, _ => None))
    ensures ok && t.sizes.Some? ==> Sizes(streams.items) == t.sizes.value
    ensures !ok ==> streams.items == old(streams.items)
  {
    hide Partitions, Fills, Sum;
    var folders := streams.items;
    var sizes: seq<nat> := [];
    if t.sizes.Some? {
      sizes := t.sizes.value;
    } else {
      for i := 0 to |folders|
        invariant sizes == Sizes(folders)[..i]
        invariant forall k :: 0 <= k < i ==> t.counts[k] == 1
        modifies {}
      {
        if t.counts[i] != 1 {
          return false;
        }
        sizes := sizes + [folders[i].unpackSize];
      }
      SingleStreamsFill(folders, t.counts, 0);
      OnesSum(t.counts);
      assert sizes == Sizes(folders) == Sizes(folders)[0..];
    }
    CountsPositive(t.counts);
    SumOfNone();
    assert |folders| == 0 ==> t.counts == [];
    var crcs := if t.crcs.Some? then t.crcs.value else seq(|sizes|, _ => None);
    ok := Flatten(streams, t.counts, sizes, crcs);
    if ok && t.crcs.None? {
      assert crcs == seq(|streams.items|, _ => None);
    }
  }

  lemma {:induction false} OnesSum(s: seq<nat>)
    requires forall k :: 0 <= k < |s| ==> s[k] == 1
    ensures Sum(s) == |s|
  {
    if s != [] {
      OnesSum(s[..|s| - 1]);
    }
  }

  lemma {:induction false} CountsPositive(s: seq<nat>)
    requires forall k :: 0 <= k < |s| ==> s[k] > 0
    ensures Sum(s) >= |s|
  {
    if s != [] {
      CountsPositive(s[..|s| - 1]);
    }
  }
}
