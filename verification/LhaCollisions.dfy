/** The output-collision marker of LHA batch extraction
    (tools/zz9k-archive.c): two sorts and two scans in place of a comparison
    of every pair of entries. */
module LhaCollisions {
  import opened Words
  import opened Options
  import opened Bitwise
  import opened ArchiveNames

  /** What an entry is written to; None when it produces no output. Names are C
      strings, so they hold no zero byte. */
  datatype Output = Output(name: seq<uint8>, isDir: bool)

  function Lower(c: uint8): uint8 {
    if 0x41 <= c <= 0x5a then c + 0x20 else c
  }

  function Fold(name: seq<uint8>): (r: seq<uint8>)
    ensures |r| == |name|
  {
    seq(|name|, i requires 0 <= i < |name| => Lower(name[i]))
  }

  function TrimSlashes(name: seq<uint8>): (r: seq<uint8>)
    ensures r <= name
    ensures r == [] || r[|r| - 1] != SLASH
  {
    if name != [] && name[|name| - 1] == SLASH then TrimSlashes(name[..|name| - 1]) else name
  }

  // ----- the hash -----

  const FNV_OFFSET: uint32 := 2166136261
  const FNV_PRIME: nat := 16777619

  /** One byte of FNV-1a. */
  function Mix(hash: uint32, c: uint8): uint32 {
    WordPowers();
    (XorBits(hash as nat, c as nat, 32) * FNV_PRIME % 0x1_0000_0000) as uint32
  }

  function HashOf(s: seq<uint8>): uint32 {
    if s == [] then FNV_OFFSET else Mix(HashOf(s[..|s| - 1]), s[|s| - 1])
  }

  /** lha_name_hash: it depends on the case-folded name only, and is never
      zero. */
  method NameHash(name: seq<uint8>) returns (hash: uint32)
    ensures hash == FoldedHash(Fold(name))
  {
    hide Mix, Lower;
    hash := FNV_OFFSET;
    for i := 0 to |name|
      invariant hash == HashOf(Fold(name)[..i])
    {
      assert Fold(name)[..i + 1][..i] == Fold(name)[..i];
      hash := Mix(hash, Lower(name[i]));
    }
    assert Fold(name)[..|name|] == Fold(name);
    if hash == 0 {
      hash := 1;
    }
  }

  function FoldedHash(folded: seq<uint8>): (h: uint32)
    ensures h != 0
  {
    var h := HashOf(folded);
    if h == 0 then 1 else h
  }

  // ----- the slots -----

  datatype Slot = Slot(hash: uint32, index: nat, isDir: bool, name: seq<uint8>)

  /** lha_batch_hash_slot_init; hash zero means the entry takes no part. */
  function SlotOf(output: Option<Output>, index: nat): (s: Slot)
    ensures s.index == index
    ensures s.hash != 0 <==> s.name != []
    ensures s.name != [] ==> s.hash == FoldedHash(Fold(s.name))
  {
    match output
    case None => Slot(0, index, false, [])
    case Some(o) =>
      var name := TrimSlashes(o.name);
      Slot(if name == [] then 0 else FoldedHash(Fold(name)), index, o.isDir, name)
  }

  method InitSlot(output: Option<Output>, index: nat) returns (s: Slot)
    ensures s == SlotOf(output, index)
  {
    if output.None? {
      return Slot(0, index, false, []);
    }
    var name := output.value.name;
    while |name| > 0 && name[|name| - 1] == SLASH
      invariant TrimSlashes(name) == TrimSlashes(output.value.name)
    {
      name := name[..|name| - 1];
    }
    if name == [] {
      return Slot(0, index, output.value.isDir, []);
    }
    var hash := NameHash(name);
    return Slot(hash, index, output.value.isDir, name);
  }

  function SlotsOf(outputs: seq<Option<Output>>): (s: seq<Slot>)
    ensures |s| == |outputs| && forall k :: 0 <= k < |s| ==> s[k].index == k
    ensures forall k :: 0 <= k < |s| ==> (s[k].hash != 0 <==> s[k].name != [])
  {
    seq(|outputs|, k requires 0 <= k < |outputs| => SlotOf(outputs[k], k))
  }

  // ----- orders -----

  /** Lexicographic order on bytes. */
  predicate LexLe(a: seq<uint8>, b: seq<uint8>) {
    a == [] || (b != [] && (a[0] < b[0] || (a[0] == b[0] && LexLe(a[1..], b[1..]))))
  }

  /** By folded name, then by index. */
  predicate NameLe(s: Slot, t: Slot) {
    var a, b := Fold(s.name), Fold(t.name);
    LexLe(a, b) && (a == b ==> s.index <= t.index)
  }

  lemma {:induction false} LexTotal(a: seq<uint8>, b: seq<uint8>)
    ensures LexLe(a, b) || LexLe(b, a)
    ensures LexLe(a, b) && LexLe(b, a) ==> a == b
    ensures LexLe(a, a)
  {
    if a != [] {
      LexTotal(a[1..], if b == [] then [] else b[1..]);
    }
  }

  lemma {:induction false} LexTransitive(a: seq<uint8>, b: seq<uint8>, c: seq<uint8>)
    requires LexLe(a, b) && LexLe(b, c)
    ensures LexLe(a, c)
  {
    if a != [] && a[0] == b[0] == c[0] {
      LexTransitive(a[1..], b[1..], c[1..]);
    }
  }

  /** Between a name and one of its extensions there are only extensions. */
  lemma {:induction false} PrefixContiguous(a: seq<uint8>, b: seq<uint8>, c: seq<uint8>)
    requires a <= c && LexLe(a, b) && LexLe(b, c)
    ensures a <= b
  {
    if a != [] {
      assert a[0] == b[0] == c[0];
      PrefixContiguous(a[1..], b[1..], c[1..]);
      assert b == [b[0]] + b[1..] && a == [a[0]] + a[1..];
    }
  }

  /** A proper extension comes after. */
  lemma {:induction false} PrefixFirst(a: seq<uint8>, c: seq<uint8>)
    requires a <= c
    ensures LexLe(a, c)
  {
    if a != [] {
      PrefixFirst(a[1..], c[1..]);
    }
  }

  /** lha_batch_name_slot_cmp: negative, zero or positive as the order says. */
  method CompareNames(s: Slot, t: Slot) returns (r: int)
    ensures r <= 0 <==> NameLe(s, t)
    ensures r >= 0 <==> NameLe(t, s)
  {
    hide Lower;
    var a, b := s.name, t.name;
    ghost var x, y := Fold(a), Fold(b);
    var i := 0;
    assert x[0..] == x && y[0..] == y;
    while i < |a| && i < |b|
      invariant i <= |a| && i <= |b| && x[..i] == y[..i]
      invariant LexLe(x, y) == LexLe(x[i..], y[i..]) && LexLe(y, x) == LexLe(y[i..], x[i..])
    {
      var c, d := Lower(a[i]), Lower(b[i]);
      assert x[i] == c && y[i] == d;
      if c < d {
        return -1;
      }
      if c > d {
        return 1;
      }
      assert x[i..][1..] == x[i + 1..] && y[i..][1..] == y[i + 1..];
      i := i + 1;
    }
    if i == |a| && i < |b| {
      return -1;
    }
    if i < |a| && i == |b| {
      return 1;
    }
    assert x == x[..i] && y == y[..i];
    LexTotal(x, x);
    if s.index < t.index {
      return -1;
    }
    if s.index > t.index {
      return 1;
    }
    return 0;
  }

  predicate HashLe(s: Slot, t: Slot) {
    s.hash <= t.hash
  }

  /** lha_batch_hash_slot_cmp. */
  method CompareHashes(s: Slot, t: Slot) returns (r: int)
    ensures r <= 0 <==> HashLe(s, t)
    ensures r >= 0 <==> HashLe(t, s)
  {
    if s.hash < t.hash {
      return -1;
    }
    if s.hash > t.hash {
      return 1;
    }
    return 0;
  }

  datatype Comparator = ByHash | ByName

  function OrderOf(cmp: Comparator): (Slot, Slot) -> bool {
    if cmp.ByHash? then HashLe else NameLe
  }

  /** A call of the comparator that qsort is given. */
  method Compare(cmp: Comparator, s: Slot, t: Slot) returns (r: int)
    ensures r <= 0 <==> OrderOf(cmp)(s, t)
    ensures r >= 0 <==> OrderOf(cmp)(t, s)
  {
    hide NameLe, HashLe;
    if cmp.ByHash? {
      r := CompareHashes(s, t);
    } else {
      r := CompareNames(s, t);
    }
  }

  ghost predicate IsOrder(le: (Slot, Slot) -> bool) {
    && (forall s, t :: le(s, t) || le(t, s))
    && (forall s, t, u :: le(s, t) && le(t, u) ==> le(s, u))
  }

  predicate Sorted(le: (Slot, Slot) -> bool, s: seq<Slot>) {
    forall p, q :: 0 <= p < q < |s| ==> le(s[p], s[q])
  }

  lemma NameLeTransitive(s: Slot, t: Slot, u: Slot)
    requires NameLe(s, t) && NameLe(t, u)
    ensures NameLe(s, u)
  {
    LexTransitive(Fold(s.name), Fold(t.name), Fold(u.name));
    LexTotal(Fold(s.name), Fold(t.name));
    LexTotal(Fold(t.name), Fold(u.name));
  }

  lemma BothAreOrders()
    ensures IsOrder(HashLe) && IsOrder(NameLe)
  {
    forall s, t
      ensures NameLe(s, t) || NameLe(t, s)
    {
      LexTotal(Fold(s.name), Fold(t.name));
    }
    forall s, t, u | NameLe(s, t) && NameLe(t, u)
      ensures NameLe(s, u)
    {
      NameLeTransitive(s, t, u);
    }
  }

  // ----- sorting -----

  lemma InsertKeepsSorted(le: (Slot, Slot) -> bool, s: seq<Slot>, k: nat, x: Slot)
    requires IsOrder(le) && Sorted(le, s) && k <= |s|
    requires k > 0 ==> le(s[k - 1], x)
    requires forall p :: k <= p < |s| ==> le(x, s[p])
    ensures Sorted(le, s[..k] + [x] + s[k..])
  {
    forall p | 0 <= p < k
      ensures le(s[p], x)
    {
      if p < k - 1 {
        assert le(s[p], s[k - 1]) && le(s[k - 1], x);
      }
    }
  }

  /** qsort, as far as it is relied on: the result is sorted and a permutation.
      Which of two equal slots comes first is not. */
  method Sort(slots: array<Slot>, cmp: Comparator)
    requires IsOrder(OrderOf(cmp))
    modifies slots
    ensures Sorted(OrderOf(cmp), slots[..]) && multiset(slots[..]) == multiset(old(slots[..]))
  {
    hide IsOrder, Sorted, OrderOf;
    EmptySorted(OrderOf(cmp));
    var data, sorted: seq<Slot> := slots[..], [];
    for i := 0 to |data|
      invariant Sorted(OrderOf(cmp), sorted) && |sorted| == i && multiset(sorted) == multiset(data[..i])
    {
      assert data[..i + 1] == data[..i] + [data[i]];
      sorted := Insert(sorted, data[i], cmp);
    }
    assert data[..|data|] == data;
    for i := 0 to slots.Length
      invariant slots[..i] == sorted[..i]
    {
      slots[i] := sorted[i];
    }
    assert slots[..] == slots[..slots.Length] == sorted;
  }

  method Insert(s: seq<Slot>, x: Slot, cmp: Comparator) returns (r: seq<Slot>)
    requires IsOrder(OrderOf(cmp)) && Sorted(OrderOf(cmp), s)
    ensures Sorted(OrderOf(cmp), r) && |r| == |s| + 1 && multiset(r) == multiset(s) + multiset{x}
  {
    hide IsOrder, Sorted, OrderOf;
    ghost var le := OrderOf(cmp);
    var k := |s|;
    while k > 0
      invariant 0 <= k <= |s|
      invariant forall p :: k <= p < |s| ==> le(x, s[p])
    {
      var c := Compare(cmp, s[k - 1], x);
      if c <= 0 {
        break;
      }
      k := k - 1;
    }
    InsertKeepsSorted(le, s, k, x);
    r := s[..k] + [x] + s[k..];
    assert multiset(s) == multiset(s[..k]) + multiset(s[k..]) by {
      assert s == s[..k] + s[k..];
    }
  }

  lemma EmptySorted(le: (Slot, Slot) -> bool)
    ensures Sorted(le, [])
  {}

  /** A rearrangement of the slots: every slot occurs, at one place. */
  predicate Arranges(s: seq<Slot>, slots: seq<Slot>) {
    && |s| == |slots|
    && (forall p :: 0 <= p < |s| ==> s[p].index < |slots| && s[p] == slots[s[p].index])
    && (forall p, q :: 0 <= p < q < |s| ==> s[p].index != s[q].index)
    && (forall k :: 0 <= k < |slots| ==> slots[k] in s)
  }

  lemma PermutationArranges(s: seq<Slot>, slots: seq<Slot>)
    requires multiset(s) == multiset(slots)
    requires forall k :: 0 <= k < |slots| ==> slots[k].index == k
    ensures Arranges(s, slots)
  {
    assert |multiset(s)| == |s| && |multiset(slots)| == |slots|;
    forall p | 0 <= p < |s|
      ensures s[p].index < |slots| && s[p] == slots[s[p].index]
    {
      assert s[p] in multiset(s);
      assert s[p] in slots;
    }
    forall p, q | 0 <= p < q < |s|
      ensures s[p].index != s[q].index
    {
      if s[p] == s[q] {
        TwiceIsTwo(s, p, q);
        OnceIsOne(slots, s[p].index);
      }
    }
    forall k | 0 <= k < |slots|
      ensures slots[k] in s
    {
      assert slots[k] in multiset(slots);
    }
  }

  lemma TwiceIsTwo(s: seq<Slot>, p: nat, q: nat)
    requires p < q < |s| && s[p] == s[q]
    ensures multiset(s)[s[p]] >= 2
  {
    assert s == s[..q] + s[q..];
    assert s[..q][p] == s[p] && s[q..][0] == s[p];
    assert s[p] in s[..q] && s[p] in s[q..];
  }

  lemma OnceIsOne(s: seq<Slot>, k: nat)
    requires k < |s| && forall i :: 0 <= i < |s| ==> s[i].index == i
    ensures multiset(s)[s[k]] == 1
  {
    assert s == s[..k] + [s[k]] + s[k + 1..];
    assert s[k] !in s[..k] && s[k] !in s[k + 1..];
  }

  // ----- what a collision is -----

  /** The parent is a directory on the way to the child. */
  predicate Parent(parent: seq<uint8>, child: seq<uint8>) {
    parent != [] && |parent| < |child| && Fold(parent) <= Fold(child) && child[|parent|] == SLASH
  }

  /** Entry a as a file in the way of entry b. */
  predicate Blocks(a: Slot, b: Slot) {
    !a.isDir && Parent(a.name, b.name)
  }

  predicate SameHash(a: Slot, b: Slot) {
    a.hash != 0 && a.hash == b.hash
  }

  predicate Clash(a: Slot, b: Slot) {
    SameHash(a, b) || Blocks(a, b) || Blocks(b, a)
  }

  /** The quadratic definition: entry k clashes with some other entry. */
  ghost predicate Collides(slots: seq<Slot>, k: nat)
    requires k < |slots|
  {
    exists other :: 0 <= other < |slots| && other != k && Clash(slots[k], slots[other])
  }

  /** lha_output_name_has_prefix. */
  method HasPrefix(prefix: seq<uint8>, name: seq<uint8>) returns (r: bool)
    ensures r <==> prefix != [] && Fold(prefix) <= Fold(name)
  {
    if prefix == [] {
      return false;
    }
    ghost var x, y := Fold(prefix), Fold(name);
    for i := 0 to |prefix|
      invariant i <= |name| && x[..i] == y[..i]
    {
      if i == |name| || Lower(prefix[i]) != Lower(name[i]) {
        assert i < |name| ==> x[i] != y[i];
        return false;
      }
    }
    assert x == x[..|prefix|];
    return true;
  }

  /** lha_output_name_is_parent_of. */
  method IsParentOf(parent: seq<uint8>, child: seq<uint8>) returns (r: bool)
    ensures r <==> Parent(parent, child)
  {
    r := HasPrefix(parent, child);
    if r {
      r := |parent| < |child| && child[|parent|] == SLASH;
    }
  }

  // ----- the scans -----

  /** The marks so far are the old ones and some that are right. */
  ghost predicate Sound(marks: seq<uint8>, before: seq<uint8>, slots: seq<Slot>) {
    && |marks| == |before| == |slots|
    && forall k :: 0 <= k < |marks| ==> marks[k] == before[k] || (marks[k] == 1 && Collides(slots, k))
  }

  /** A set mark stays set. */
  ghost predicate Keeps(marks: seq<uint8>, earlier: seq<uint8>) {
    |marks| == |earlier| && forall k :: 0 <= k < |marks| ==> earlier[k] == 1 ==> marks[k] == 1
  }

  /** Both ends of every pair of places below i with the same hash are marked. */
  ghost predicate HashPairsMarked(s: seq<Slot>, marks: seq<uint8>, i: nat)
    requires i <= |s| && forall p :: 0 <= p < |s| ==> s[p].index < |marks|
  {
    forall p, q :: 0 <= p < q < i && SameHash(s[p], s[q]) ==> marks[s[p].index] == 1 && marks[s[q].index] == 1
  }

  ghost predicate BlockPairsMarked(s: seq<Slot>, marks: seq<uint8>, i: nat)
    requires i <= |s| && forall p :: 0 <= p < |s| ==> s[p].index < |marks|
  {
    forall p, q :: 0 <= p < i && p < q < |s| && Blocks(s[p], s[q]) ==> marks[s[p].index] == 1 && marks[s[q].index] == 1
  }

  lemma PairCollides(s: seq<Slot>, slots: seq<Slot>, p: nat, q: nat)
    requires Arranges(s, slots) && p < |s| && q < |s| && p != q && Clash(s[p], s[q])
    ensures Collides(slots, s[p].index) && Collides(slots, s[q].index)
  {
    assert s[p].index != s[q].index;
    assert Clash(slots[s[p].index], slots[s[q].index]) && Clash(slots[s[q].index], slots[s[p].index]);
  }

  /** The first scan: runs of equal hashes. */
  method MarkRuns(s: seq<Slot>, collides: array<uint8>, ghost slots: seq<Slot>)
    requires Arranges(s, slots) && Sorted(HashLe, s) && collides.Length == |s|
    modifies collides
    ensures Sound(collides[..], old(collides[..]), slots)
    ensures Keeps(collides[..], old(collides[..]))
    ensures HashPairsMarked(s, collides[..], |s|)
  {
    hide Collides, Arranges;
    Indices(s, slots);
    var i := 0;
    while i < |s|
      invariant i <= |s|
      invariant Sound(collides[..], old(collides[..]), slots) && Keeps(collides[..], old(collides[..]))
      invariant HashPairsMarked(s, collides[..], i)
      invariant forall p, q :: 0 <= p < i <= q < |s| ==> s[p].hash != s[q].hash
      decreases |s| - i
    {
      var runEnd := i + 1;
      while runEnd < |s| && s[runEnd].hash == s[i].hash
        invariant i < runEnd <= |s|
        invariant forall p :: i <= p < runEnd ==> s[p].hash == s[i].hash
      {
        runEnd := runEnd + 1;
      }
      if s[i].hash != 0 && runEnd - i >= 2 {
        MarkRun(s, collides, i, runEnd, slots, old(collides[..]));
      }
      forall p, q | 0 <= p < runEnd <= q < |s|
        ensures s[p].hash != s[q].hash
      {
        assert runEnd < |s| ==> HashLe(s[i], s[runEnd]);
        assert q != runEnd ==> HashLe(s[runEnd], s[q]);
      }
      i := runEnd;
    }
  }

  lemma Indices(s: seq<Slot>, slots: seq<Slot>)
    requires Arranges(s, slots)
    ensures |s| == |slots| && forall p :: 0 <= p < |s| ==> s[p].index < |s|
  {}

  /** One run: every slot in it is marked. */
  method MarkRun(s: seq<Slot>, collides: array<uint8>, i: nat, runEnd: nat, ghost slots: seq<Slot>,
                 ghost before: seq<uint8>)
    requires Arranges(s, slots) && collides.Length == |s| && i + 2 <= runEnd <= |s| && s[i].hash != 0
    requires forall p :: i <= p < runEnd ==> s[p].hash == s[i].hash
    requires Sound(collides[..], before, slots)
    modifies collides
    ensures Sound(collides[..], before, slots) && Keeps(collides[..], old(collides[..]))
    ensures forall p :: i <= p < runEnd ==> s[p].index < |s| && collides[s[p].index] == 1
  {
    hide Collides;
    for j := i to runEnd
      invariant Sound(collides[..], before, slots) && Keeps(collides[..], old(collides[..]))
      invariant forall p :: i <= p < j ==> collides[s[p].index] == 1
    {
      PairCollides(s, slots, j, if j == i then i + 1 else i);
      collides[s[j].index] := 1;
    }
  }

  /** The second scan: from each file, forward over the names it is a prefix
      of. */
  method MarkParents(s: seq<Slot>, collides: array<uint8>, ghost slots: seq<Slot>)
    requires Arranges(s, slots) && Sorted(NameLe, s) && collides.Length == |s|
    requires forall p :: 0 <= p < |s| ==> (s[p].hash != 0 <==> s[p].name != [])
    modifies collides
    ensures Sound(collides[..], old(collides[..]), slots)
    ensures Keeps(collides[..], old(collides[..]))
    ensures BlockPairsMarked(s, collides[..], |s|)
  {
    hide Collides, Arranges, NameLe, Parent;
    Indices(s, slots);
    for i := 0 to |s|
      invariant Sound(collides[..], old(collides[..]), slots) && Keeps(collides[..], old(collides[..]))
      invariant BlockPairsMarked(s, collides[..], i)
    {
      if s[i].hash == 0 || s[i].isDir {
        NothingBlocked(s[i]);
        continue;
      }
      MarkChildren(s, collides, i, slots, old(collides[..]));
    }
  }

  lemma NothingBlocked(a: Slot)
    requires a.name == [] || a.isDir
    ensures forall b :: !Blocks(a, b)
  {}

  /** The inner scan stops at the first name without the prefix; all children
      come before. */
  method MarkChildren(s: seq<Slot>, collides: array<uint8>, i: nat, ghost slots: seq<Slot>, ghost before: seq<uint8>)
    requires Arranges(s, slots) && Sorted(NameLe, s) && collides.Length == |s| && i < |s|
    requires s[i].name != [] && !s[i].isDir
    requires Sound(collides[..], before, slots)
    modifies collides
    ensures Sound(collides[..], before, slots) && Keeps(collides[..], old(collides[..]))
    ensures forall q :: i < q < |s| && Blocks(s[i], s[q]) ==>
              s[q].index < |s| && s[i].index < |s| && collides[s[i].index] == 1 && collides[s[q].index] == 1
  {
    hide Collides, NameLe, Parent;
    var j := i + 1;
    while j < |s|
      invariant i < j <= |s|
      invariant Sound(collides[..], before, slots) && Keeps(collides[..], old(collides[..]))
      invariant forall q :: i < q < j && Blocks(s[i], s[q]) ==> collides[s[i].index] == 1 && collides[s[q].index] == 1
    {
      var more := HasPrefix(s[i].name, s[j].name);
      if !more {
        NoChildrenBeyond(s, i, j);
        return;
      }
      var parent := IsParentOf(s[i].name, s[j].name);
      if parent {
        PairCollides(s, slots, i, j);
        collides[s[i].index] := 1;
        collides[s[j].index] := 1;
      }
      j := j + 1;
    }
  }

  lemma NoChildrenBeyond(s: seq<Slot>, i: nat, j: nat)
    requires Sorted(NameLe, s) && i < j < |s| && s[i].name != []
    requires !(Fold(s[i].name) <= Fold(s[j].name))
    ensures forall q :: j <= q < |s| ==> !Blocks(s[i], s[q])
  {
    forall q | j <= q < |s|
      ensures !Blocks(s[i], s[q])
    {
      if Blocks(s[i], s[q]) && q > j {
        assert NameLe(s[i], s[j]) && NameLe(s[j], s[q]);
        PrefixContiguous(Fold(s[i].name), Fold(s[j].name), Fold(s[q].name));
      }
    }
  }

  /** lha_batch_mark_collisions: exactly the entries that collide with another
      one are marked, in addition to the marks that were there. */
  method MarkCollisions(outputs: seq<Option<Output>>, collides: array<uint8>)
    requires collides.Length == |outputs|
    modifies collides
    ensures forall k :: 0 <= k < collides.Length ==>
              collides[k] == if Collides(SlotsOf(outputs), k) then 1 else old(collides[k])
  {
    hide Sorted, IsOrder, Arranges, Sound, Keeps, HashPairsMarked, BlockPairsMarked, Collides;
    ghost var all, before := SlotsOf(outputs), collides[..];
    var slots := new Slot[|outputs|](_ => Slot(0, 0, false, []));
    for i := 0 to |outputs|
      invariant slots[..i] == all[..i] && collides[..] == before
    {
      slots[i] := InitSlot(outputs[i], i);
    }
    assert slots[..] == slots[..|outputs|] == all[..|outputs|] == all;
    BothAreOrders();
    Sort(slots, ByHash);
    var byHash := slots[..];
    PermutationArranges(byHash, all);
    assert collides[..] == before;
    MarkRuns(byHash, collides, all);
    ghost var first := collides[..];
    Sort(slots, ByName);
    var byName := slots[..];
    PermutationArranges(byName, all);
    NamesAndHashes(byName, all);
    assert collides[..] == first;
    MarkParents(byName, collides, all);
    AllMarked(all, byHash, byName, first, collides[..], before);
  }

  lemma NamesAndHashes(s: seq<Slot>, slots: seq<Slot>)
    requires Arranges(s, slots)
    requires forall k :: 0 <= k < |slots| ==> (slots[k].hash != 0 <==> slots[k].name != [])
    ensures |s| == |slots|
    ensures forall p :: 0 <= p < |s| ==> (s[p].hash != 0 <==> s[p].name != [])
  {}

  lemma AllMarked(slots: seq<Slot>, byHash: seq<Slot>, byName: seq<Slot>, first: seq<uint8>, marks: seq<uint8>,
                  before: seq<uint8>)
    requires Arranges(byHash, slots) && Arranges(byName, slots) && Sorted(NameLe, byName)
    requires forall k :: 0 <= k < |slots| ==> slots[k].index == k
    requires Sound(first, before, slots) && Sound(marks, first, slots) && Keeps(marks, first)
    requires HashPairsMarked(byHash, first, |slots|) && BlockPairsMarked(byName, marks, |slots|)
    ensures forall k :: 0 <= k < |slots| ==> marks[k] == if Collides(slots, k) then 1 else before[k]
  {
    forall k | 0 <= k < |slots| && Collides(slots, k)
      ensures marks[k] == 1
    {
      var other :| 0 <= other < |slots| && other != k && Clash(slots[k], slots[other]);
      ClashMarked(slots, byHash, byName, first, marks, k, other);
    }
  }

  lemma ClashMarked(slots: seq<Slot>, byHash: seq<Slot>, byName: seq<Slot>, first: seq<uint8>, marks: seq<uint8>,
                    k: nat, other: nat)
    requires Arranges(byHash, slots) && Arranges(byName, slots) && Sorted(NameLe, byName)
    requires forall k :: 0 <= k < |slots| ==> slots[k].index == k
    requires |first| == |slots| && Keeps(marks, first)
    requires HashPairsMarked(byHash, first, |slots|) && BlockPairsMarked(byName, marks, |slots|)
    requires k < |slots| && other < |slots| && k != other && Clash(slots[k], slots[other])
    ensures marks[k] == 1
  {
    hide NameLe, Parent;
    var a, b := slots[k], slots[other];
    if SameHash(a, b) {
      var p :| 0 <= p < |byHash| && byHash[p] == a;
      var q :| 0 <= q < |byHash| && byHash[q] == b;
      assert p < q || q < p;
      assert SameHash(byHash[p], byHash[q]) && SameHash(byHash[q], byHash[p]);
      assert first[k] == 1;
    } else {
      var p :| 0 <= p < |byName| && byName[p] == a;
      var q :| 0 <= q < |byName| && byName[q] == b;
      if Blocks(a, b) {
        ParentComesFirst(byName, p, q);
        assert Blocks(byName[p], byName[q]);
      } else {
        ParentComesFirst(byName, q, p);
        assert Blocks(byName[q], byName[p]);
      }
    }
  }

  lemma ParentComesFirst(s: seq<Slot>, p: nat, q: nat)
    requires Sorted(NameLe, s) && p < |s| && q < |s| && Blocks(s[p], s[q])
    ensures p < q
  {
    var a, b := Fold(s[p].name), Fold(s[q].name);
    PrefixFirst(a, b);
    LexTotal(a, b);
    assert |a| < |b|;
    assert q < p ==> NameLe(s[q], s[p]);
  }

  // ----- completeness in terms of names -----

  /** Two entries that write the same file, letter case aside, or where one
      writes a file that is a directory on the way to the other. */
  predicate SameFile(a: Output, b: Output) {
    TrimSlashes(a.name) != [] && Fold(TrimSlashes(a.name)) == Fold(TrimSlashes(b.name))
  }

  predicate FileInTheWay(a: Output, b: Output) {
    !a.isDir && Parent(TrimSlashes(a.name), TrimSlashes(b.name))
  }

  /** No such pair is missed, and two entries that are no such pair clash only
      when their different names have the same hash. */
  lemma ClashIff(outputs: seq<Option<Output>>, j: nat, k: nat)
    requires j < |outputs| && k < |outputs| && j != k && outputs[j].Some? && outputs[k].Some?
    ensures var a, b := outputs[j].value, outputs[k].value;
            var x, y := TrimSlashes(a.name), TrimSlashes(b.name);
            Clash(SlotsOf(outputs)[j], SlotsOf(outputs)[k])
            <==> SameFile(a, b) || FileInTheWay(a, b) || FileInTheWay(b, a)
                 || (x != [] && y != [] && Fold(x) != Fold(y) && FoldedHash(Fold(x)) == FoldedHash(Fold(y)))
  {
    hide FoldedHash, Parent;
    var x, y := TrimSlashes(outputs[j].value.name), TrimSlashes(outputs[k].value.name);
    if Fold(x) == Fold(y) {
      assert |Fold(x)| == |x| && |Fold(y)| == |y|;
    }
  }
}
