/** The tables of a 7z archive as they are written, and that the readers
    (tools/zz9k-archive.c) give back what was written. */
module SevenZipWriter {
  import opened Words
  import opened ModArith
  import opened Options
  import opened Bitwise
  import opened SevenZipCursor
  import opened SevenZipStreams

  // ----- numbers -----

  /** How many bytes follow the first one of a number: any choice that holds
      it. */
  ghost predicate Widths(w: nat -> nat) {
    forall n: nat :: n < Pow(0x100, 8) ==> w(n) <= 8 && Fits(n, w(n))
  }

  lemma WidthOf(w: nat -> nat, n: nat)
    requires Widths(w) && n < 0x1_0000_0000
    ensures w(n) <= 8 && Fits(n, w(n))
  {
    assert Pow(0x100, 8) == 0x1_0000_0000_0000_0000;
    hide Fits;
  }

  ghost function Written(n: nat, w: nat -> nat): seq<uint8>
    requires Widths(w) && n < 0x1_0000_0000
  {
    WidthOf(w, n);
    Encode(n, w(n))
  }

  lemma NumberIsRead(data: seq<uint8>, pos: nat, n: nat, k: nat)
    requires k <= 8 && Fits(n, k) && At(data, pos, Encode(n, k))
    ensures Number(data, pos) == Some((n, pos + k + 1))
  {
    hide Fits, Encode, Ones, HighPart;
    var b, tail := Encode(n, k), data[pos..];
    var rest := tail[k + 1..];
    assert tail == b + rest by {
      assert tail[..k + 1] == data[pos..pos + |b|];
    }
    NumberRoundTrip(n, k, rest);
    assert tail[0] == data[pos];
    var j := Ones(data[pos], 0);
    assert pos + 1 + j <= |data| ==> data[pos + 1..pos + 1 + j] == tail[1..1 + j];
  }

  lemma WrittenIsRead(data: seq<uint8>, pos: nat, n: nat, w: nat -> nat)
    requires Widths(w) && n < 0x1_0000_0000 && At(data, pos, Written(n, w))
    ensures Number(data, pos) == Some((n, pos + |Written(n, w)|))
  {
    hide At, Encode, Fits, Widths;
    WidthOf(w, n);
    NumberIsRead(data, pos, n, w(n));
  }

  predicate Small(s: seq<nat>) {
    forall i :: 0 <= i < |s| ==> s[i] <= 0x7fff_ffff
  }

  /** Numbers one after another. */
  ghost function Numbers(s: seq<nat>, w: nat -> nat): (b: seq<uint8>)
    requires Widths(w) && Small(s)
  {
    if s == [] then [] else Numbers(s[..|s| - 1], w) + Written(s[|s| - 1], w)
  }

  // ----- digest lists -----

  /** The flags of up to eight items: 0x80 for the first, 0x40 for the next and
      so on. */
  function FlagByte(items: seq<bool>): (b: nat)
    requires |items| <= 8
    ensures b < 0x100
  {
    TopPart(items);
    FlagSum(items)
  }

  function FlagSum(items: seq<bool>): nat
    requires |items| <= 8
  {
    if items == [] then 0
    else
      var n := |items| - 1;
      PowPositive(2, n);
      FlagSum(items[..n]) + if items[n] then 0x80 / Pow(2, n) else 0
  }

  /** The items as a binary number, first one on top. */
  function Binary(items: seq<bool>): (v: nat) {
    if items == [] then 0 else 2 * Binary(items[..|items| - 1]) + if items[|items| - 1] then 1 else 0
  }

  lemma {:induction false} TopPart(items: seq<bool>)
    requires |items| <= 8
    ensures FlagSum(items) == Binary(items) * Pow(2, 8 - |items|) && FlagSum(items) < 0x100
  {
    if items != [] {
      TopPart(items[..|items| - 1]);
      NextFlag(|items| - 1, Binary(items[..|items| - 1]), items[|items| - 1]);
    }
    BinaryBound(items);
    ShiftedBound(Binary(items), |items|);
  }

  lemma NextFlag(n: nat, v: nat, flag: bool)
    requires n < 8
    ensures Pow(2, n) > 0
    ensures v * Pow(2, 8 - n) + (if flag then 0x80 / Pow(2, n) else 0)
            == (2 * v + if flag then 1 else 0) * Pow(2, 7 - n)
  {
    PowPositive(2, n);
    PowAdd(2, n, 7 - n);
    assert Pow(2, 7) == 0x80;
    var p := Pow(2, 7 - n);
    assert Pow(2, 8 - n) == 2 * p;
    hide Pow;
    DivModUnique(0x80, Pow(2, n), p, 0);
    assert v * (2 * p) == 2 * v * p && (2 * v + 1) * p == 2 * v * p + p;
  }

  lemma ShiftedBound(v: nat, n: nat)
    requires n <= 8 && v < Pow(2, n)
    ensures v * Pow(2, 8 - n) < 0x100
  {
    assert Pow(2, 8) == 0x100;
    PowAdd(2, n, 8 - n);
    PowPositive(2, 8 - n);
    hide Pow;
    MulMono(v, Pow(2, n) - 1, Pow(2, 8 - n));
    assert (Pow(2, n) - 1) * Pow(2, 8 - n) == 0x100 - Pow(2, 8 - n);
  }

  lemma {:induction false} BinaryBound(items: seq<bool>)
    ensures Binary(items) < Pow(2, |items|)
  {
    if items != [] {
      BinaryBound(items[..|items| - 1]);
    }
  }

  lemma {:induction false} BinaryBit(items: seq<bool>, t: nat)
    requires t < |items|
    ensures Bit(Binary(items), |items| - 1 - t) == if items[t] then 1 else 0
  {
    var n := |items| - 1;
    BitOfHalf(Binary(items), n - t);
    assert Binary(items) / 2 == Binary(items[..n]);
    if t < n {
      BinaryBit(items[..n], t);
    }
  }

  lemma BitShifted(x: nat, p: nat, s: nat, i: nat)
    requires p == Pow(2, s)
    ensures Bit(x * p, i + s) == Bit(x, i)
  {
    PowPositive(2, s);
    PowPositive(2, i);
    PowAdd(2, i, s);
    hide Pow;
    DivModUnique(x * p, p, x, 0);
    DivDiv(x * p, p, Pow(2, i), Pow(2, i + s));
  }

  lemma FlagBit(items: seq<bool>, t: nat)
    requires t < |items| <= 8
    ensures Bit(FlagByte(items), 7 - t) == if items[t] then 1 else 0
  {
    TopPart(items);
    PowPositive(2, 8 - |items|);
    BitShifted(Binary(items), Pow(2, 8 - |items|), 8 - |items|, |items| - 1 - t);
    BinaryBit(items, t);
  }

  /** Eight items to a byte. */
  function FlagBytes(items: seq<bool>): (b: seq<uint8>)
    ensures |b| == (|items| + 7) / 8
  {
    if |items| <= 8 then (if items == [] then [] else [FlagByte(items) as uint8])
    else [FlagByte(items[..8]) as uint8] + FlagBytes(items[8..])
  }

  lemma {:induction false} FlagOfItem(items: seq<bool>, i: nat)
    requires i < |items|
    ensures i / 8 < |FlagBytes(items)|
    ensures Bit(FlagBytes(items)[i / 8] as nat, 7 - i % 8) == if items[i] then 1 else 0
    decreases |items|
  {
    hide FlagByte, Bit;
    if |items| <= 8 {
      FlagBit(items, i);
    } else if i < 8 {
      FlagBit(items[..8], i);
    } else {
      FlagOfItem(items[8..], i - 8);
      assert i / 8 == (i - 8) / 8 + 1 && i % 8 == (i - 8) % 8;
    }
  }

  function Defined(ds: seq<Option<uint32>>): (items: seq<bool>)
    ensures |items| == |ds|
  {
    seq(|ds|, i requires 0 <= i < |ds| => ds[i].Some?)
  }

  /** The digests that are there, in order. */
  function DigestBytes(ds: seq<Option<uint32>>): (b: seq<uint8>) {
    if ds == [] then []
    else
      var n := |ds| - 1;
      DigestBytes(ds[..n]) + if ds[n].Some? then Bytes32(ds[n].value) else []
  }

  /** A digest list: a zero byte and the flags, or any other byte when all are
      there; then the digests. */
  function EncodeDigests(ds: seq<Option<uint32>>, mark: uint8): seq<uint8> {
    [mark] + (if mark == 0 then FlagBytes(Defined(ds)) else []) + DigestBytes(ds)
  }

  predicate Marked(ds: seq<Option<uint32>>, mark: uint8) {
    mark == 0 || forall i :: 0 <= i < |ds| ==> ds[i].Some?
  }

  lemma CountSnoc(items: seq<bool>, last: bool)
    ensures Count(items + [last]) == Count(items) + if last then 1 else 0
  {
    assert (items + [last])[..|items|] == items;
  }

  lemma DigestsSnoc(data: seq<uint8>, pos: nat, items: seq<bool>, last: bool)
    requires pos + 4 * Count(items + [last]) <= |data|
    ensures pos + 4 * Count(items) + (if last then 4 else 0) <= |data|
    ensures Digests(data, pos, items + [last])
            == Digests(data, pos, items) + [if last then Some(Load32(data, pos + 4 * Count(items))) else None]
  {
    hide Load32, Count;
    CountSnoc(items, last);
    assert (items + [last])[..|items|] == items;
  }

  lemma {:induction false} DigestsAreRead(data: seq<uint8>, pos: nat, ds: seq<Option<uint32>>)
    requires At(data, pos, DigestBytes(ds))
    ensures |DigestBytes(ds)| == 4 * Count(Defined(ds)) && pos + 4 * Count(Defined(ds)) <= |data|
    ensures Digests(data, pos, Defined(ds)) == ds
  {
    hide At, Digests, Count;
    AtSlice(data, pos, DigestBytes(ds));
    if ds == [] {
      assert Defined(ds) == [];
      NoDigests(data, pos);
    } else {
      var n := |ds| - 1;
      var last := if ds[n].Some? then Bytes32(ds[n].value) else [];
      AtParts(data, pos, DigestBytes(ds[..n]), last);
      DigestsAreRead(data, pos, ds[..n]);
      hide DigestBytes, Bytes32;
      LastDigestIsRead(data, pos, ds[..n], ds[n]);
      assert ds == ds[..n] + [ds[n]];
    }
  }

  lemma LastDigestIsRead(data: seq<uint8>, pos: nat, ds: seq<Option<uint32>>, d: Option<uint32>)
    requires pos + 4 * Count(Defined(ds)) <= |data| && Digests(data, pos, Defined(ds)) == ds
    requires d.Some? ==> At(data, pos + 4 * Count(Defined(ds)), Bytes32(d.value))
    ensures Count(Defined(ds + [d])) == Count(Defined(ds)) + if d.Some? then 1 else 0
    ensures pos + 4 * Count(Defined(ds + [d])) <= |data| && Digests(data, pos, Defined(ds + [d])) == ds + [d]
  {
    hide At, Digests, Count, Bytes32, Load32;
    var items := Defined(ds);
    assert Defined(ds + [d]) == items + [d.Some?];
    CountSnoc(items, d.Some?);
    if d.Some? {
      AtSlice(data, pos + 4 * Count(items), Bytes32(d.value));
      WordIsRead(data, pos + 4 * Count(items), d.value);
    }
    DigestsSnoc(data, pos, items, d.Some?);
  }

  lemma NoDigests(data: seq<uint8>, pos: nat)
    requires pos <= |data|
    ensures Count([]) == 0 && Digests(data, pos, []) == []
  {}

  lemma WordIsRead(data: seq<uint8>, pos: nat, v: uint32)
    requires At(data, pos, Bytes32(v))
    ensures Load32(data, pos) == v
  {
    hide Bytes32;
    assert data[pos..pos + 4] == Bytes32(v);
  }

  lemma DefinedAt(data: seq<uint8>, pos: nat, n: nat, j: nat, t: nat)
    requires pos + (n + 7) / 8 <= |data| && t < 8 && 8 * j + t < n
    ensures pos + j < |data|
    ensures DefinedItems(data, pos, n)[8 * j + t] <==> Bit(data[pos + j] as nat, 7 - t) == 1
  {
    hide Bit;
    DivModUnique(8 * j + t, 8, j, t);
  }

  lemma FlagAt(items: seq<bool>, j: nat, t: nat)
    requires t < 8 && 8 * j + t < |items|
    ensures j < |FlagBytes(items)|
    ensures Bit(FlagBytes(items)[j] as nat, 7 - t) == 1 <==> items[8 * j + t]
  {
    hide Bit, FlagBytes;
    DivModUnique(8 * j + t, 8, j, t);
    FlagOfItem(items, 8 * j + t);
  }

  lemma FlagIsRead(data: seq<uint8>, pos: nat, items: seq<bool>, flags: seq<uint8>, i: nat, j: nat, t: nat)
    requires flags == FlagBytes(items) && At(data, pos, flags)
    requires pos + (|items| + 7) / 8 <= |data| && i < |items| && t < 8 && i == 8 * j + t
    ensures DefinedItems(data, pos, |items|)[i] == items[i]
  {
    hide FlagBytes, Bit, DefinedItems, At;
    DefinedAt(data, pos, |items|, j, t);
    FlagAt(items, j, t);
    AtIndex(data, pos, flags, j);
  }

  lemma FlagsAreRead(data: seq<uint8>, pos: nat, items: seq<bool>)
    requires At(data, pos, FlagBytes(items))
    ensures pos + (|items| + 7) / 8 <= |data|
    ensures forall i :: 0 <= i < |items| ==> DefinedItems(data, pos, |items|)[i] == items[i]
  {
    hide FlagBytes, DefinedItems, At, Bit;
    var flags := FlagBytes(items);
    AtSlice(data, pos, flags);
    forall i | 0 <= i < |items|
      ensures DefinedItems(data, pos, |items|)[i] == items[i]
    {
      FlagIsRead(data, pos, items, flags, i, i / 8, i % 8);
    }
  }

  /** Every list of digests, some of them missing, is read back. */
  lemma DigestRoundTrip(data: seq<uint8>, pos: nat, ds: seq<Option<uint32>>, mark: uint8)
    requires Marked(ds, mark) && At(data, pos, EncodeDigests(ds, mark))
    ensures DigestList(data, pos, |ds|) == Some((ds, pos + |EncodeDigests(ds, mark)|))
  {
    hide DefinedItems, Digests, FlagBytes, DigestBytes, Count, At, Marked;
    var flags := if mark == 0 then FlagBytes(Defined(ds)) else [];
    AtParts(data, pos, [mark] + flags, DigestBytes(ds));
    AtParts(data, pos, [mark], flags);
    AtSlice(data, pos, [mark] + flags);
    AtIndex(data, pos, [mark], 0);
    DigestsAreRead(data, pos + 1 + |flags|, ds);
    if mark == 0 {
      FlagsAreRead(data, pos + 1, Defined(ds));
      assert DefinedItems(data, pos + 1, |ds|) == Defined(ds);
    } else {
      AllDefined(ds, mark);
    }
  }

  lemma AllDefined(ds: seq<Option<uint32>>, mark: uint8)
    requires Marked(ds, mark) && mark != 0
    ensures Defined(ds) == seq(|ds|, _ => true)
  {}

  // ----- sizes -----

  lemma {:induction false} SizesAreRead(data: seq<uint8>, pos: nat, s: seq<nat>, limit: nat, w: nat -> nat)
    requires Widths(w) && Small(s) && Sum(s) <= limit && At(data, pos, Numbers(s, w))
    ensures ReadSizes(data, pos, |s|, limit) == Some((s, pos + |Numbers(s, w)|))
  {
    hide Number, Written, At, Widths, ReadSizes;
    if s == [] {
      NoneRead(data, pos, limit);
    } else {
      var n := |s| - 1;
      var front := Numbers(s[..n], w);
      AtParts(data, pos, front, Written(s[n], w));
      SizesAreRead(data, pos, s[..n], limit, w);
      WrittenIsRead(data, pos + |front|, s[n], w);
      NextSize(data, pos, s[..n], limit, pos + |front|, s[n], pos + |front| + |Written(s[n], w)|);
      assert s[..n] + [s[n]] == s;
    }
  }

  lemma NoneRead(data: seq<uint8>, pos: nat, limit: nat)
    ensures ReadSizes(data, pos, 0, limit) == Some(([], pos)) && ReadCounts(data, pos, 0) == Some(([], pos))
  {}

  lemma NextSize(data: seq<uint8>, pos: nat, s: seq<nat>, limit: nat, at: nat, v: nat, next: nat)
    requires ReadSizes(data, pos, |s|, limit) == Some((s, at)) && Number(data, at) == Some((v, next))
    requires v <= 0x7fff_ffff && Sum(s) + v <= limit
    ensures ReadSizes(data, pos, |s| + 1, limit) == Some((s + [v], next))
  {
    hide Number, Sum;
  }

  lemma NextCount(data: seq<uint8>, pos: nat, s: seq<nat>, at: nat, v: nat, next: nat)
    requires ReadCounts(data, pos, |s|) == Some((s, at)) && Number(data, at) == Some((v, next))
    requires v > 0 && Sum(s) + v <= 65535
    ensures ReadCounts(data, pos, |s| + 1) == Some((s + [v], next))
  {
    hide Number, Sum;
  }

  // ----- the table of packed streams -----

  /** Position of the packed data, number and sizes of the streams, digests if
      they are known, end mark. */
  ghost function PackBytes(packPos: nat, sizes: seq<nat>, digests: Option<seq<Option<uint32>>>, mark: uint8,
                           w: nat -> nat): seq<uint8>
    requires Widths(w) && Small(sizes) && packPos <= 0x7fff_ffff && |sizes| <= 65535
  {
    Written(packPos, w) + Written(|sizes|, w) + [0x09] + Numbers(sizes, w) + DigestPart(digests, mark) + [0x00]
  }

  function DigestPart(digests: Option<seq<Option<uint32>>>, mark: uint8): seq<uint8> {
    if digests.None? then [] else [0x0a] + EncodeDigests(digests.value, mark)
  }

  lemma MarkIsRead(data: seq<uint8>, pos: nat, mark: uint8)
    requires At(data, pos, [mark]) && mark < 0x80
    ensures Number(data, pos) == Some((mark as nat, pos + 1))
  {
    PowersForMark();
    assert Encode(mark as nat, 0) == [mark];
    NumberIsRead(data, pos, mark as nat, 0);
  }

  lemma PowersForMark()
    ensures Pow(2, 8) == 0x100 && Pow(2, 7) == 0x80 && Pow(0x100, 0) == 1
  {}

  /** Every table of packed streams is read back. */
  lemma PackTableRoundTrip(data: seq<uint8>, pos: nat, packPos: nat, sizes: seq<nat>,
                           digests: Option<seq<Option<uint32>>>, mark: uint8, w: nat -> nat, archiveLength: nat)
    requires Widths(w) && Small(sizes) && packPos <= 0x7fff_ffff && 0 < |sizes| <= 65535
    requires digests.Some? ==> |digests.value| == |sizes| && Marked(digests.value, mark)
    requires 32 + packPos + Sum(sizes) <= archiveLength
    requires At(data, pos, PackBytes(packPos, sizes, digests, mark, w))
    ensures PackTable(data, pos, archiveLength)
            == Some((32 + packPos, sizes, pos + |PackBytes(packPos, sizes, digests, mark, w)|))
  {
    hide Number, Written, At, Widths, Numbers, DigestPart, PackEnd, Small, Marked, Sum, ReadSizes;
    var a, b, c, d := Written(packPos, w), Written(|sizes|, w), Numbers(sizes, w), DigestPart(digests, mark);
    AtSix(data, pos, a, b, [0x09], c, d, [0x00]);
    WrittenIsRead(data, pos, packPos, w);
    WrittenIsRead(data, pos + |a|, |sizes|, w);
    MarkIsRead(data, pos + |a| + |b|, 0x09);
    SizesAreRead(data, pos + |a| + |b| + 1, sizes, archiveLength - 32 - packPos, w);
    PackEndIsRead(data, pos + |a| + |b| + 1 + |c|, |sizes|, digests, mark);
  }

  lemma AtSix(data: seq<uint8>, pos: nat, a: seq<uint8>, b: seq<uint8>, c: seq<uint8>, d: seq<uint8>,
              e: seq<uint8>, f: seq<uint8>)
    requires At(data, pos, a + b + c + d + e + f)
    ensures At(data, pos, a) && At(data, pos + |a|, b) && At(data, pos + |a| + |b|, c)
    ensures At(data, pos + |a| + |b| + |c|, d) && At(data, pos + |a| + |b| + |c| + |d|, e)
    ensures At(data, pos + |a| + |b| + |c| + |d| + |e|, f)
  {
    hide At;
    AtParts(data, pos, a + b + c + d + e, f);
    AtParts(data, pos, a + b + c + d, e);
    AtParts(data, pos, a + b + c, d);
    AtParts(data, pos, a + b, c);
    AtParts(data, pos, a, b);
  }

  lemma PackEndIsRead(data: seq<uint8>, pos: nat, count: nat, digests: Option<seq<Option<uint32>>>, mark: uint8)
    requires digests.Some? ==> |digests.value| == count && Marked(digests.value, mark)
    requires At(data, pos, DigestPart(digests, mark)) && At(data, pos + |DigestPart(digests, mark)|, [0x00])
    ensures PackEnd(data, pos, count) == Some(pos + |DigestPart(digests, mark)| + 1)
  {
    hide Number, At, EncodeDigests, DigestList, Marked;
    MarkIsRead(data, pos + |DigestPart(digests, mark)|, 0x00);
    if digests.Some? {
      DigestPartIsRead(data, pos, digests.value, mark);
    }
  }

  lemma DigestPartIsRead(data: seq<uint8>, pos: nat, ds: seq<Option<uint32>>, mark: uint8)
    requires Marked(ds, mark) && At(data, pos, DigestPart(Some(ds), mark))
    ensures Number(data, pos) == Some((0x0a as nat, pos + 1))
    ensures DigestList(data, pos + 1, |ds|) == Some((ds, pos + |DigestPart(Some(ds), mark)|))
  {
    hide EncodeDigests, DigestList, Number, At;
    AtParts(data, pos, [0x0a], EncodeDigests(ds, mark));
    MarkIsRead(data, pos, 0x0a);
    DigestRoundTrip(data, pos + 1, ds, mark);
  }

  // ----- the substreams table -----

  /** How many streams each folder has. */
  function Lengths(groups: seq<seq<nat>>): (s: seq<nat>)
    ensures |s| == |groups|
  {
    seq(|groups|, f requires 0 <= f < |groups| => |groups[f]|)
  }

  /** The sizes of all of them. */
  function Flat(groups: seq<seq<nat>>): (s: seq<nat>)
    ensures |s| == Sum(Lengths(groups))
  {
    if groups == [] then []
    else
      var n := |groups| - 1;
      assert Lengths(groups)[..n] == Lengths(groups[..n]);
      Flat(groups[..n]) + groups[n]
  }

  /** The sizes of the streams of each folder fill it. */
  predicate Filled(folders: seq<Stream>, groups: seq<seq<nat>>) {
    && |groups| == |folders| <= 65535 && Sum(Lengths(groups)) <= 65535
    && forall f :: 0 <= f < |folders| ==> groups[f] != [] && Small(groups[f]) && Sum(groups[f]) == folders[f].unpackSize
  }

  /** All but the last. */
  function Front(s: seq<nat>): (r: seq<nat>)
    requires s != []
    ensures Small(s) ==> Small(r)
  {
    s[..|s| - 1]
  }

  /** Of each folder all sizes but the last are written. */
  ghost function SizeBytes(groups: seq<seq<nat>>, w: nat -> nat): seq<uint8>
    requires Widths(w) && forall f :: 0 <= f < |groups| ==> groups[f] != [] && Small(groups[f])
  {
    if groups == [] then []
    else
      var n := |groups| - 1;
      SizeBytes(groups[..n], w) + Numbers(Front(groups[n]), w)
  }

  /** What a table leaves out. */
  datatype Parts = Parts(counts: bool, sizes: bool, digests: Option<seq<Option<uint32>>>, mark: uint8)

  /** Counts can be left out when every folder is one stream. */
  predicate Fitting(parts: Parts, groups: seq<seq<nat>>) {
    && (!parts.counts ==> forall f :: 0 <= f < |groups| ==> |groups[f]| == 1)
    && (parts.digests.Some? ==>
          |parts.digests.value| == Sum(Lengths(groups)) && Marked(parts.digests.value, parts.mark))
  }

  lemma {:induction false} CountsSmall(s: seq<nat>, limit: nat)
    requires Sum(s) <= limit
    ensures forall i :: 0 <= i < |s| ==> s[i] <= limit
  {
    if s != [] {
      CountsSmall(s[..|s| - 1], limit);
      assert forall i :: 0 <= i < |s| - 1 ==> s[i] == s[..|s| - 1][i];
    }
  }

  ghost function CountPart(groups: seq<seq<nat>>, parts: Parts, w: nat -> nat): seq<uint8>
    requires Widths(w) && Sum(Lengths(groups)) <= 65535
  {
    CountsSmall(Lengths(groups), 65535);
    if parts.counts then [0x0d] + Numbers(Lengths(groups), w) else []
  }

  ghost function SizePart(groups: seq<seq<nat>>, parts: Parts, w: nat -> nat): seq<uint8>
    requires Widths(w) && forall f :: 0 <= f < |groups| ==> groups[f] != [] && Small(groups[f])
  {
    if parts.sizes then [0x09] + SizeBytes(groups, w) else []
  }

  /** Counts, sizes, digests and the end mark. */
  ghost function TableBytes(folders: seq<Stream>, groups: seq<seq<nat>>, parts: Parts, w: nat -> nat): seq<uint8>
    requires Widths(w) && Filled(folders, groups)
  {
    CountPart(groups, parts, w) + SizePart(groups, parts, w) + DigestPart(parts.digests, parts.mark) + [0x00]
  }

  lemma {:induction false} CountsAreRead(data: seq<uint8>, pos: nat, counts: seq<nat>, w: nat -> nat)
    requires Widths(w) && Small(counts) && Sum(counts) <= 65535 && At(data, pos, Numbers(counts, w))
    requires forall f :: 0 <= f < |counts| ==> counts[f] > 0
    ensures ReadCounts(data, pos, |counts|) == Some((counts, pos + |Numbers(counts, w)|))
  {
    hide Number, Written, At, Widths, ReadCounts;
    if counts == [] {
      NoneRead(data, pos, 0);
    } else {
      var n := |counts| - 1;
      var front := Numbers(counts[..n], w);
      AtParts(data, pos, front, Written(counts[n], w));
      CountsAreRead(data, pos, counts[..n], w);
      WrittenIsRead(data, pos + |front|, counts[n], w);
      NextCount(data, pos, counts[..n], pos + |front|, counts[n], pos + |front| + |Written(counts[n], w)|);
      assert counts[..n] + [counts[n]] == counts;
    }
  }

  lemma GroupIsRead(data: seq<uint8>, pos: nat, group: seq<nat>, unpackSize: nat, w: nat -> nat)
    requires Widths(w) && group != [] && Small(group) && Sum(group) == unpackSize
    requires At(data, pos, Numbers(Front(group), w))
    ensures FolderSizes(data, pos, |group|, unpackSize)
            == Some((group, pos + |Numbers(Front(group), w)|))
  {
    hide Written, At, Widths, Numbers, ReadSizes;
    var n := |group| - 1;
    SizesAreRead(data, pos, Front(group), unpackSize, w);
    assert group[..n] + [group[n]] == group;
  }

  lemma {:induction false} GroupsAreRead(data: seq<uint8>, pos: nat, folders: seq<Stream>, groups: seq<seq<nat>>,
                                         w: nat -> nat)
    requires Widths(w) && |folders| == |groups|
    requires forall f :: 0 <= f < |folders| ==>
               groups[f] != [] && Small(groups[f]) && Sum(groups[f]) == folders[f].unpackSize
    requires At(data, pos, SizeBytes(groups, w))
    ensures AllSizes(data, pos, folders, Lengths(groups)) == Some((Flat(groups), pos + |SizeBytes(groups, w)|))
  {
    hide Number, Written, At, Widths, Numbers, FolderSizes, Sum, Small;
    if groups != [] {
      var n := |groups| - 1;
      var front := SizeBytes(groups[..n], w);
      AtParts(data, pos, front, Numbers(Front(groups[n]), w));
      GroupsAreRead(data, pos, folders[..n], groups[..n], w);
      assert Lengths(groups)[..n] == Lengths(groups[..n]);
      GroupIsRead(data, pos + |front|, groups[n], folders[n].unpackSize, w);
    }
  }

  /** The table before anything is read, and what is to be read. */
  function Unread(n: nat): (t: Table)
    requires n <= 65535
    ensures TableFits(t, n)
  {
    Table(AllOne(n), None, None)
  }

  function Whole(groups: seq<seq<nat>>, parts: Parts): Table {
    Table(Lengths(groups), if parts.sizes then Some(Flat(groups)) else None, parts.digests)
  }

  lemma EndIsRead(data: seq<uint8>, pos: nat, folders: seq<Stream>, t: Table)
    requires TableFits(t, |folders|) && At(data, pos, [0x00])
    ensures Properties(data, pos, folders, t) == Some((t, pos + 1))
  {
    hide At, Number, ReadCounts, AllSizes, DigestList;
    MarkIsRead(data, pos, 0x00);
  }

  lemma DigestStage(data: seq<uint8>, pos: nat, folders: seq<Stream>, t: Table, parts: Parts)
    requires TableFits(t, |folders|) && t.crcs.None?
    requires parts.digests.Some? ==>
               |parts.digests.value| == Sum(t.counts) && Marked(parts.digests.value, parts.mark)
    requires At(data, pos, DigestPart(parts.digests, parts.mark))
    requires At(data, pos + |DigestPart(parts.digests, parts.mark)|, [0x00])
    ensures Properties(data, pos, folders, t)
            == Some((t.(crcs := parts.digests), pos + |DigestPart(parts.digests, parts.mark)| + 1))
  {
    hide At, Number, ReadCounts, AllSizes, DigestList, Marked, Sum, EncodeDigests;
    EndIsRead(data, pos + |DigestPart(parts.digests, parts.mark)|, folders, t.(crcs := parts.digests));
    if parts.digests.Some? {
      DigestPartIsRead(data, pos, parts.digests.value, parts.mark);
    }
  }

  lemma SizeStage(data: seq<uint8>, pos: nat, folders: seq<Stream>, groups: seq<seq<nat>>, parts: Parts,
                  w: nat -> nat)
    requires Widths(w) && Filled(folders, groups) && At(data, pos, SizePart(groups, parts, w))
    requires TableFits(Table(Lengths(groups), None, None), |folders|)
    ensures parts.sizes ==> TableFits(Table(Lengths(groups), Some(Flat(groups)), None), |folders|)
    ensures parts.sizes ==>
              Properties(data, pos, folders, Table(Lengths(groups), None, None))
              == Properties(data, pos + |SizePart(groups, parts, w)|, folders,
                            Table(Lengths(groups), Some(Flat(groups)), None))
  {
    hide At, Number, Widths, SizeBytes, Flat, AllSizes, ReadCounts, DigestList, Small, Lengths;
    if parts.sizes {
      AtParts(data, pos, [0x09], SizeBytes(groups, w));
      MarkIsRead(data, pos, 0x09);
      GroupsAreRead(data, pos + 1, folders, groups, w);
    }
  }

  lemma CountStage(data: seq<uint8>, pos: nat, folders: seq<Stream>, groups: seq<seq<nat>>, parts: Parts,
                   w: nat -> nat)
    requires Widths(w) && Filled(folders, groups) && Fitting(parts, groups)
    requires At(data, pos, CountPart(groups, parts, w))
    ensures TableFits(Table(Lengths(groups), None, None), |folders|)
    ensures Properties(data, pos, folders, Unread(|folders|))
            == Properties(data, pos + |CountPart(groups, parts, w)|, folders, Table(Lengths(groups), None, None))
  {
    hide At, Properties, AllOne, Widths, CountPart, Sum, Lengths, Filled;
    FilledGroups(folders, groups);
    CountsSmall(Lengths(groups), 65535);
    CountPartIs(groups, parts, w);
    hide Fitting;
    if parts.counts {
      CountsStage(data, pos, folders, Lengths(groups), w);
    } else {
      SingleStreams(groups, parts);
    }
  }

  lemma CountPartIs(groups: seq<seq<nat>>, parts: Parts, w: nat -> nat)
    requires Widths(w) && Sum(Lengths(groups)) <= 65535
    ensures Small(Lengths(groups))
    ensures CountPart(groups, parts, w) == if parts.counts then [0x0d] + Numbers(Lengths(groups), w) else []
  {
    CountsSmall(Lengths(groups), 65535);
  }

  lemma CountsStage(data: seq<uint8>, pos: nat, folders: seq<Stream>, counts: seq<nat>, w: nat -> nat)
    requires Widths(w) && Small(counts) && Sum(counts) <= 65535 && |counts| == |folders| <= 65535
    requires forall f :: 0 <= f < |counts| ==> counts[f] > 0
    requires At(data, pos, [0x0d] + Numbers(counts, w))
    ensures TableFits(Table(counts, None, None), |folders|)
    ensures Properties(data, pos, folders, Unread(|folders|))
            == Properties(data, pos + 1 + |Numbers(counts, w)|, folders, Table(counts, None, None))
  {
    hide At, Number, Widths, Numbers, Properties, ReadCounts, Sum, AllOne, Small;
    AtParts(data, pos, [0x0d], Numbers(counts, w));
    MarkIsRead(data, pos, 0x0d);
    CountsAreRead(data, pos + 1, counts, w);
    CountsTaken(data, pos, folders, Unread(|folders|), counts, pos + 1 + |Numbers(counts, w)|);
  }

  lemma SingleStreams(groups: seq<seq<nat>>, parts: Parts)
    requires Fitting(parts, groups) && !parts.counts
    ensures Lengths(groups) == AllOne(|groups|)
  {}

  lemma CountsTaken(data: seq<uint8>, pos: nat, folders: seq<Stream>, t: Table, counts: seq<nat>, next: nat)
    requires TableFits(t, |folders|) && t.sizes.None? && t.crcs.None?
    requires Number(data, pos) == Some((0x0d as nat, pos + 1))
    requires ReadCounts(data, pos + 1, |folders|) == Some((counts, next))
    ensures TableFits(t.(counts := counts), |folders|)
    ensures Properties(data, pos, folders, t) == Properties(data, next, folders, t.(counts := counts))
  {
    hide Number, ReadCounts, AllSizes, DigestList, Sum;
  }

  /** Every substreams table is read back, whatever it leaves out. */
  lemma SubstreamsRoundTrip(data: seq<uint8>, pos: nat, folders: seq<Stream>, groups: seq<seq<nat>>, parts: Parts,
                            w: nat -> nat)
    requires Widths(w) && Filled(folders, groups) && Fitting(parts, groups)
    requires At(data, pos, TableBytes(folders, groups, parts, w))
    ensures Properties(data, pos, folders, Unread(|folders|))
            == Some((Whole(groups, parts), pos + |TableBytes(folders, groups, parts, w)|))
    ensures Usable(Whole(groups, parts)) <==> parts.sizes || forall f :: 0 <= f < |groups| ==> |groups[f]| == 1
  {
    hide At, Widths, CountPart, SizePart, DigestPart, Filled, Fitting, Properties, Flat, AllOne, Sum, Lengths;
    FilledGroups(folders, groups);
    var a, b, c := CountPart(groups, parts, w), SizePart(groups, parts, w), DigestPart(parts.digests, parts.mark);
    AtParts(data, pos, a + b + c, [0x00]);
    AtParts(data, pos, a + b, c);
    AtParts(data, pos, a, b);
    CountStage(data, pos, folders, groups, parts, w);
    SizeStage(data, pos + |a|, folders, groups, parts, w);
    if parts.digests.Some? {
      DigestsFit(parts, groups);
    }
    NoSizes(groups, parts, w);
    var t := if parts.sizes then Table(Lengths(groups), Some(Flat(groups)), None)
        else Table(Lengths(groups), None, None);
    DigestStage(data, pos + |a| + |b|, folders, t, parts);
    assert t.(crcs := parts.digests) == Whole(groups, parts);
  }

  lemma FilledGroups(folders: seq<Stream>, groups: seq<seq<nat>>)
    requires Filled(folders, groups)
    ensures |groups| == |folders| <= 65535 && Sum(Lengths(groups)) <= 65535
    ensures forall f :: 0 <= f < |groups| ==> groups[f] != [] && Small(groups[f]) && Lengths(groups)[f] == |groups[f]|
  {}

  lemma DigestsFit(parts: Parts, groups: seq<seq<nat>>)
    requires Fitting(parts, groups) && parts.digests.Some?
    ensures |parts.digests.value| == Sum(Lengths(groups)) && Marked(parts.digests.value, parts.mark)
  {}

  lemma NoSizes(groups: seq<seq<nat>>, parts: Parts, w: nat -> nat)
    requires Widths(w) && forall f :: 0 <= f < |groups| ==> groups[f] != [] && Small(groups[f])
    ensures !parts.sizes ==> SizePart(groups, parts, w) == []
  {}
}
