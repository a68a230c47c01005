/** Tar extraction (tools/zz9k-archive.c): the in-memory lister, and the push
    stream that is fed an archive in arbitrary chunks. */
module Tar {
  import opened ModArith
  import opened Words
  import opened Options
  import opened ArchiveNames
  import opened NameBuffer
  import opened TarHeader
  import opened TarReader
  import opened TarWriter

  // ----- the in-memory lister -----

  /** What pax and long-name records have announced for the next member. */
  datatype Pending = Pending(name: seq<uint8>, skip: bool, size: Option<nat>)

  const NOTHING := Pending([], false, None)

  /** A listed member and where its data is. */
  datatype Listed = Listed(name: seq<uint8>, size: nat, isDir: bool, offset: nat)

  function ApplyPax(pend: Pending, info: PaxInfo): Pending {
    var named := match info.path
      case None => pend
      case Some(None) => pend.(name := [], skip := true)
      case Some(Some(path)) => pend.(name := path, skip := false);
    if info.size.Some? then named.(size := info.size) else named
  }

  /** tar_copy_data_name: a GNU long name, up to a zero byte or a newline. */
  function LongName(data: seq<uint8>): (r: Option<Option<seq<uint8>>>) {
    var n := LineOf(data);
    if n == [] || |n| >= MAX_NAME then None else Some(Normalize(n))
  }

  function LineOf(data: seq<uint8>): seq<uint8> {
    if data == [] || data[0] == 0 || data[0] == 0x0a then [] else [data[0]] + LineOf(data[1..])
  }

  /** A plain member with what was announced for it. */
  function Resolve(h: Head, pend: Pending): (r: Head)
    ensures r.kind == h.kind
  {
    var size := if pend.size.Some? then pend.size.value else h.size;
    if pend.skip then h.(skip := true, size := size)
    else if pend.name != [] then h.(name := pend.name, size := size)
    else h.(size := size)
  }

  /** What is left of it behind the member. */
  function AfterPlain(pend: Pending): Pending {
    if pend.skip then pend.(skip := false, size := None) else NOTHING
  }

  /** What one header and its data amount to. */
  datatype Member = Bad | Member(head: Head, after: Pending)

  /** The member at `pos`, its data inside the archive as the check intends. */
  function MemberAt(data: seq<uint8>, pos: nat, pend: Pending): (m: Member)
    requires pos + BLOCK <= |data|
    ensures m.Member? ==> pos + BLOCK + m.head.size <= |data|
    ensures m.Member? && m.head.kind != Plain ==> m.head.skip
  {
    match EntryFromHeader(data[pos..pos + BLOCK])
    case None => Bad
    case Some(h) =>
      var offset := pos + BLOCK;
      if offset + h.size > |data| then Bad
      else match h.kind
        case GnuLongName =>
          (match LongName(data[offset..offset + h.size])
           case None => Bad
           case Some(None) => Member(h, pend.(name := [], skip := true))
           case Some(Some(n)) => Member(h, pend.(name := n, skip := false)))
        case Pax =>
          (match ParsePax(data[offset..offset + h.size])
           case None => Bad
           case Some(info) => Member(h, ApplyPax(pend, info)))
        case Plain =>
          var r := Resolve(h, pend);
          if offset + r.size > |data| then Bad
          else Member(r, AfterPlain(pend))
  }

  /** Sizes are rounded up to whole blocks. */
  function Padding(size: nat): (p: nat)
    ensures p < BLOCK && (size + p) % BLOCK == 0
  {
    var part := size % BLOCK;
    if part == 0 then 0
    else
      DivModUnique(size + (BLOCK - part), BLOCK, size / BLOCK + 1, 0);
      BLOCK - part
  }

  function NextHeader(pos: nat, m: Member): nat
    requires m.Member?
  {
    pos + BLOCK + m.head.size + Padding(m.head.size)
  }

  function Emitted(pos: nat, m: Member): seq<Listed>
    requires m.Member?
  {
    if m.head.skip then [] else [Listed(m.head.name, m.head.size, m.head.isDir, pos + BLOCK)]
  }

  predicate AtEnd(data: seq<uint8>, pos: nat) {
    pos + BLOCK > |data| || Empty(data[pos..pos + BLOCK])
  }

  /** tar_list from a header position on. */
  function ListFrom(data: seq<uint8>, pos: nat, pend: Pending): (r: Option<seq<Listed>>)
    decreases |data| - pos
  {
    if AtEnd(data, pos) then Some([])
    else
      var m := MemberAt(data, pos, pend);
      if m.Bad? then None
      else match ListFrom(data, NextHeader(pos, m), m.after)
        case None => None
        case Some(rest) => Some(Emitted(pos, m) + rest)
  }

  // ----- where the 32-bit sums wrap -----

  const WORD: nat := 0x1_0000_0000

  /** The check on offset and size as the code computes it. */
  predicate CodedFits(offset: nat, size: nat, length: nat) {
    offset <= length && size <= length && (offset + size) % WORD <= length
  }

  /** It is the intended check for every offset and size exactly when the
      archive is below two gibibytes. */
  lemma CodedFitsExact(length: nat)
    requires length < WORD
    ensures (forall offset: nat, size: nat :: CodedFits(offset, size, length) == (offset + size <= length))
            <==> length < 0x8000_0000
  {
    if length >= 0x8000_0000 {
      var size := WORD - length;
      assert CodedFits(length, size, length) && length + size > length;
    } else {
      forall offset: nat, size: nat
        ensures CodedFits(offset, size, length) == (offset + size <= length)
      {}
    }
  }

  /** What the loop makes of a header: it refuses, or needs bytes of a long name
      or pax record that are not in the archive, or goes on. */
  datatype Coded = CodedBad | Elsewhere | CodedMember(head: Head, after: Pending)

  /** The member at `pos` with the checks as the code computes them. The data of
      a plain member is not looked at. Pax data within a megabyte of four
      gibibytes, where a record length added to a position could wrap, is
      counted as elsewhere. */
  function CodedAt(data: seq<uint8>, pos: nat, pend: Pending): (c: Coded)
    requires pos + BLOCK <= |data| < WORD
    ensures c.CodedMember? ==> c.head.size <= |data|
  {
    match EntryFromHeader(data[pos..pos + BLOCK])
    case None => CodedBad
    case Some(h) =>
      var offset := pos + BLOCK;
      if !CodedFits(offset, h.size, |data|) then CodedBad
      else if h.kind == Plain then
        var r := Resolve(h, pend);
        if CodedFits(offset, r.size, |data|) then CodedMember(r, AfterPlain(pend)) else CodedBad
      else if offset + h.size > |data| || (h.kind == Pax && h.size > PAX_LIMIT) then Elsewhere
      else
        var m := MemberAt(data, pos, pend);
        if m.Bad? then CodedBad else CodedMember(m.head, m.after)
  }

  /** The next header position, in 32 bits. */
  function CodedNext(pos: nat, size: nat): (next: nat)
    ensures next < WORD && (pos % BLOCK == 0 ==> next % BLOCK == 0)
  {
    var next := pos + BLOCK + size + Padding(size);
    ModOfMultiple(next, WORD / BLOCK);
    if pos % BLOCK == 0 then
      BlockSum(pos, size + Padding(size));
      next % WORD
    else next % WORD
  }

  lemma BlockSum(pos: nat, whole: nat)
    requires pos % BLOCK == 0 && whole % BLOCK == 0
    ensures (pos + BLOCK + whole) % BLOCK == 0
  {}

  lemma ModOfMultiple(x: nat, k: nat)
    requires k == 0x80_0000
    ensures x % BLOCK == 0 ==> x % WORD % BLOCK == 0
  {
    DivDiv(x, BLOCK, k, WORD);
    if x % BLOCK == 0 {
      DivModUnique(x % WORD, BLOCK, x / BLOCK % k, 0);
    }
  }

  // ----- the loop, turn by turn -----

  /** Where the loop is, or what it has returned; `Lost` once it reads bytes
      that are not in the archive, of which the model knows nothing. */
  datatype Walk = Going(pos: nat, pend: Pending, entries: seq<Listed>) | Ended(result: Option<seq<Listed>>) | Lost

  predicate Aligned(w: Walk) {
    w.Going? ==> w.pos < WORD && w.pos % BLOCK == 0
  }

  function Started(data: seq<uint8>): (w: Walk)
    ensures Aligned(w)
  {
    if |data| % BLOCK != 0 then Ended(None) else Going(0, NOTHING, [])
  }

  /** The loop test and, if it holds, one turn. */
  function OneTurn(data: seq<uint8>, capacity: nat, w: Walk): (next: Walk)
    requires |data| < WORD && Aligned(w)
    ensures Aligned(next)
  {
    if !w.Going? then w
    else if (w.pos + BLOCK) % WORD > |data| then Ended(Some(w.entries))
    else if w.pos + BLOCK > |data| then Lost
    else if Empty(data[w.pos..w.pos + BLOCK]) then Ended(Some(w.entries))
    else match CodedAt(data, w.pos, w.pend)
      case CodedBad => Ended(None)
      case Elsewhere => Lost
      case CodedMember(head, after) =>
        if !head.skip && |w.entries| >= capacity then Ended(None)
        else Going(CodedNext(w.pos, head.size), after, w.entries + Emitted(w.pos, Member(head, after)))
  }

  function Turns(data: seq<uint8>, capacity: nat, w: Walk, turns: nat): (end: Walk)
    requires |data| < WORD && Aligned(w)
    ensures Aligned(end)
    decreases turns
  {
    if turns == 0 then w else Turns(data, capacity, OneTurn(data, capacity, w), turns - 1)
  }

  /** What the whole loop has come to after some turns. */
  function CodedList(data: seq<uint8>, capacity: nat, turns: nat): Walk
    requires |data| < WORD
  {
    Turns(data, capacity, Started(data), turns)
  }

  /** What tar_list is meant to return. */
  function Intended(data: seq<uint8>, capacity: nat): Option<seq<Listed>> {
    if |data| % BLOCK != 0 then None else Capped(ListFrom(data, 0, NOTHING), [], capacity)
  }

  /** Some entries and more, if there is room. */
  function Capped(rest: Option<seq<Listed>>, entries: seq<Listed>, capacity: nat): Option<seq<Listed>> {
    match rest
    case None => None
    case Some(more) => if |entries + more| <= capacity then Some(entries + more) else None
  }

  lemma {:induction false} EndedStays(data: seq<uint8>, capacity: nat, w: Walk, turns: nat)
    requires |data| < WORD && !w.Going?
    ensures Turns(data, capacity, w, turns) == w
  {
    if turns > 0 {
      EndedStays(data, capacity, w, turns - 1);
    }
  }

  lemma NextTurn(data: seq<uint8>, capacity: nat, w: Walk, turns: nat)
    requires |data| < WORD && Aligned(w) && turns > 0
    ensures Turns(data, capacity, w, turns) == Turns(data, capacity, OneTurn(data, capacity, w), turns - 1)
  {}

  lemma EndsWith(data: seq<uint8>, capacity: nat, w: Walk, turns: nat)
    requires |data| < WORD && Aligned(w) && turns > 0 && !OneTurn(data, capacity, w).Going?
    ensures Turns(data, capacity, w, turns) == OneTurn(data, capacity, w)
  {
    hide OneTurn;
    EndedStays(data, capacity, OneTurn(data, capacity, w), turns - 1);
  }

  // ----- where the loop does what it is meant to do -----

  /** A member that fits is taken as it is; one that does not is refused below
      two gibibytes. */
  lemma CodedAsIntended(data: seq<uint8>, pos: nat, pend: Pending)
    requires pos + BLOCK <= |data| <= PAX_LIMIT
    ensures var m, c := MemberAt(data, pos, pend), CodedAt(data, pos, pend);
      (m.Member? ==> c == CodedMember(m.head, m.after)) && (m.Bad? && |data| < 0x8000_0000 ==> c == CodedBad)
  {
    hide EntryFromHeader, ParsePax, LongName, Resolve;
    var head := EntryFromHeader(data[pos..pos + BLOCK]);
    if head.Some? {
      FitsIsCoded(pos + BLOCK, head.value.size, |data|);
      FitsIsCoded(pos + BLOCK, Resolve(head.value, pend).size, |data|);
    }
  }

  lemma FitsIsCoded(offset: nat, size: nat, length: nat)
    requires length < WORD
    ensures offset + size <= length ==> CodedFits(offset, size, length)
    ensures length < 0x8000_0000 ==> CodedFits(offset, size, length) == (offset + size <= length)
  {
    if offset + size <= length {
      ModSmall(offset + size, WORD);
    }
    if length < 0x8000_0000 {
      CodedFitsExact(length);
    }
  }

  /** From any header position on: an archive that is listed as intended is
      listed, and below two gibibytes one that is not is refused. */
  lemma {:induction false} WalkAsIntended(data: seq<uint8>, capacity: nat, pos: nat, pend: Pending,
                                         entries: seq<Listed>, turns: nat)
    requires |data| <= PAX_LIMIT && |data| % BLOCK == 0 && pos % BLOCK == 0 && pos <= |data|
    requires |entries| <= capacity && turns * BLOCK > |data| - pos
    ensures ListFrom(data, pos, pend).Some? || |data| < 0x8000_0000 ==>
      Turns(data, capacity, Going(pos, pend, entries), turns)
      == Ended(Capped(ListFrom(data, pos, pend), entries, capacity))
    decreases |data| - pos
  {
    hide Turns, OneTurn, ListFrom, MemberAt, CodedAt, Empty, AtEnd, CodedNext;
    var w := Going(pos, pend, entries);
    ListStep(data, pos, pend);
    TurnStep(data, capacity, w);
    if AtEnd(data, pos) {
      assert entries + [] == entries;
      EndsWith(data, capacity, w, turns);
    } else {
      var m := MemberAt(data, pos, pend);
      CodedAsIntended(data, pos, pend);
      if m.Bad? {
        if |data| < 0x8000_0000 {
          EndsWith(data, capacity, w, turns);
        }
      } else if !m.head.skip && |entries| >= capacity {
        EndsWith(data, capacity, w, turns);
        Crowded(data, pos, m, entries, capacity, ListFrom(data, NextHeader(pos, m), m.after));
      } else {
        NextFits(data, pos, m);
        NextIsCoded(pos, m, |data|);
        NextTurn(data, capacity, w, turns);
        var next, more := NextHeader(pos, m), entries + Emitted(pos, m);
        WalkAsIntended(data, capacity, next, m.after, more, turns - 1);
        Regrouped(entries, Emitted(pos, m), ListFrom(data, next, m.after), capacity);
      }
    }
  }

  lemma Crowded(data: seq<uint8>, pos: nat, m: Member, entries: seq<Listed>, capacity: nat, rest: Option<seq<Listed>>)
    requires m.Member? && !m.head.skip && |entries| >= capacity
    ensures Capped(match rest case None => None case Some(r) => Some(Emitted(pos, m) + r), entries, capacity) == None
  {}

  lemma Regrouped(a: seq<Listed>, b: seq<Listed>, rest: Option<seq<Listed>>, capacity: nat)
    ensures Capped(match rest case None => None case Some(r) => Some(b + r), a, capacity)
            == Capped(rest, a + b, capacity)
  {
    if rest.Some? {
      assert a + (b + rest.value) == a + b + rest.value;
    }
  }

  lemma NextIsCoded(pos: nat, m: Member, length: nat)
    requires m.Member? && NextHeader(pos, m) <= length < WORD
    ensures CodedNext(pos, m.head.size) == NextHeader(pos, m)
  {
    ModSmall(NextHeader(pos, m), WORD);
  }

  /** The definitions, one step at a time. */
  lemma ListStep(data: seq<uint8>, pos: nat, pend: Pending)
    ensures AtEnd(data, pos) ==> ListFrom(data, pos, pend) == Some([])
    ensures !AtEnd(data, pos) ==>
      pos + BLOCK <= |data| &&
      var m := MemberAt(data, pos, pend);
      ListFrom(data, pos, pend) ==
        if m.Bad? then None
        else match ListFrom(data, NextHeader(pos, m), m.after)
          case None => None
          case Some(rest) => Some(Emitted(pos, m) + rest)
  {
    hide MemberAt, Empty;
  }

  lemma TurnStep(data: seq<uint8>, capacity: nat, w: Walk)
    requires w.Going? && w.pos <= |data| < WORD - BLOCK && Aligned(w)
    ensures AtEnd(data, w.pos) ==> OneTurn(data, capacity, w) == Ended(Some(w.entries))
    ensures !AtEnd(data, w.pos) ==>
      w.pos + BLOCK <= |data| &&
      OneTurn(data, capacity, w) ==
        match CodedAt(data, w.pos, w.pend)
        case CodedBad => Ended(None)
        case Elsewhere => Lost
        case CodedMember(head, after) =>
          if !head.skip && |w.entries| >= capacity then Ended(None)
          else Going(CodedNext(w.pos, head.size), after, w.entries + Emitted(w.pos, Member(head, after)))
  {
    hide CodedAt, Empty, CodedNext;
    ModSmall(w.pos + BLOCK, WORD);
  }

  /** What is listed as intended is listed, at any length but the last megabyte
      of 32 bits; below two gibibytes tar_list ends after a turn for each block
      and returns what is intended. */
  lemma ListsAsIntended(data: seq<uint8>, capacity: nat, turns: nat)
    requires |data| <= PAX_LIMIT && turns * BLOCK > |data|
    ensures Intended(data, capacity).Some? || |data| < 0x8000_0000 ==>
      CodedList(data, capacity, turns) == Ended(Intended(data, capacity))
  {
    hide Turns, ListFrom;
    if |data| % BLOCK == 0 {
      WalkAsIntended(data, capacity, 0, NOTHING, [], turns);
    } else {
      EndedStays(data, capacity, Ended(None), turns);
    }
  }

  /** A member that fits ends, padded, inside the archive. */
  lemma NextFits(data: seq<uint8>, pos: nat, m: Member)
    requires |data| % BLOCK == 0 && pos % BLOCK == 0
    requires m.Member? && pos + BLOCK + m.head.size <= |data|
    ensures NextHeader(pos, m) % BLOCK == 0 && NextHeader(pos, m) <= |data|
  {}

  // ----- where it does not -----

  const FILE: uint8 := 0x30
  const LINK: uint8 := 0x32

  /** The header of a file or link "a" of n bytes. */
  function SizedHeader(n: nat, kind: uint8): (h: Header)
    requires n < WORD
  {
    HeaderBytes(Fields([0x61], [], kind, n, false, Zeros(24), Zeros(12), Zeros(188), Zeros(12)))
  }

  /** It reads as what it is made to say; links are skipped. */
  lemma SizedHeaderReads(n: nat, kind: uint8)
    requires n < WORD && (kind == FILE || kind == LINK)
    ensures EntryFromHeader(SizedHeader(n, kind)) == Some(Head([0x61], n, Plain, kind == LINK, false))
    ensures !Empty(SizedHeader(n, kind))
  {
    hide EntryFromHeader, Empty, HeaderBytes, Normalize;
    HeaderRoundTrip(Fields([0x61], [], kind, n, false, Zeros(24), Zeros(12), Zeros(188), Zeros(12)));
    CleanNormal([0x61]);
  }

  /** A header, zeros, and a header in the last block. */
  function TwoHeaders(length: nat, size: nat, kind: uint8): (data: seq<uint8>)
    requires 1536 <= length < WORD && size < WORD
    ensures |data| == length
    ensures data[0..BLOCK] == SizedHeader(length - 1024, kind)
            && data[length - BLOCK..length] == SizedHeader(size, kind)
    ensures data[BLOCK..2 * BLOCK] == Zeros(BLOCK)
  {
    var first, last := SizedHeader(length - 1024, kind), SizedHeader(size, kind);
    var data := first + Zeros(length - 1024) + last;
    assert data[0..BLOCK] == first && data[length - BLOCK..length] == last;
    assert data[BLOCK..2 * BLOCK] == Zeros(BLOCK);
    data
  }

  /** The turns on them, if the second size passes the check by wrapping: both
      are taken, and the walk goes on where the sum wraps to. */
  lemma TwoTurns(length: nat, size: nat, kind: uint8, capacity: nat, entries: seq<Listed>)
    requires 0x8000_0000 <= length < WORD && length % BLOCK == 0 && size <= length && size % BLOCK == 0
    requires WORD <= length + size && (kind == FILE || kind == LINK)
    requires kind == FILE ==> |entries| + 2 <= capacity
    ensures var data := TwoHeaders(length, size, kind);
      OneTurn(data, capacity, OneTurn(data, capacity, Going(0, NOTHING, entries)))
      == Going(length + size - WORD, NOTHING,
               if kind == LINK then entries
               else entries + [Listed([0x61], length - 1024, false, BLOCK)] + [Listed([0x61], size, false, length)])
  {
    hide SizedHeader, Zeros, TwoHeaders, OneTurn, CodedNext;
    var data := TwoHeaders(length, size, kind);
    var after := if kind == LINK then entries else entries + [Listed([0x61], length - 1024, false, BLOCK)];
    SizedTurn(data, capacity, 0, entries, length - 1024, kind);
    NextWrapped(0, length - 1024);
    ModSmall(length - BLOCK, WORD);
    assert data[length - BLOCK..length - BLOCK + BLOCK] == SizedHeader(size, kind);
    SizedTurn(data, capacity, length - BLOCK, after, size, kind);
    NextWrapped(length - BLOCK, size);
    DivModUnique(length + size, WORD, 1, length + size - WORD);
  }

  /** A turn on such a header: it passes whether or not the sum wraps. */
  lemma SizedTurn(data: seq<uint8>, capacity: nat, pos: nat, entries: seq<Listed>, size: nat, kind: uint8)
    requires pos % BLOCK == 0 && pos + BLOCK <= |data| < WORD && size <= |data| && (kind == FILE || kind == LINK)
    requires data[pos..pos + BLOCK] == SizedHeader(size, kind) && (kind == FILE ==> |entries| < capacity)
    requires pos + BLOCK + size <= |data| || WORD <= pos + BLOCK + size
    ensures OneTurn(data, capacity, Going(pos, NOTHING, entries))
            == Going(CodedNext(pos, size), NOTHING,
                     if kind == LINK then entries else entries + [Listed([0x61], size, false, pos + BLOCK)])
  {
    hide EntryFromHeader, SizedHeader, Empty, OneTurn, CodedNext, CodedFits;
    SizedHeaderReads(size, kind);
    SumPasses(pos + BLOCK, size, |data|);
    PlainTurn(data, capacity, pos, entries, Head([0x61], size, Plain, kind == LINK, false));
  }

  lemma SumPasses(offset: nat, size: nat, length: nat)
    requires offset <= length < WORD && size <= length
    requires offset + size <= length || WORD <= offset + size
    ensures CodedFits(offset, size, length)
  {
    DivModUnique(offset + size, WORD, if offset + size < WORD then 0 else 1,
                 if offset + size < WORD then offset + size else offset + size - WORD);
  }

  lemma NextWrapped(pos: nat, size: nat)
    requires size % BLOCK == 0
    ensures CodedNext(pos, size) == (pos + BLOCK + size) % WORD
  {}

  /** A turn on a plain member for which nothing was announced. */
  lemma PlainTurn(data: seq<uint8>, capacity: nat, pos: nat, entries: seq<Listed>, h: Head)
    requires pos % BLOCK == 0 && pos + BLOCK <= |data| < WORD
    requires !Empty(data[pos..pos + BLOCK]) && EntryFromHeader(data[pos..pos + BLOCK]) == Some(h) && h.kind == Plain
    requires CodedFits(pos + BLOCK, h.size, |data|) && (h.skip || |entries| < capacity)
    ensures OneTurn(data, capacity, Going(pos, NOTHING, entries))
            == Going(CodedNext(pos, h.size), NOTHING,
                     if h.skip then entries else entries + [Listed(h.name, h.size, h.isDir, pos + BLOCK)])
  {
    hide EntryFromHeader, Empty, CodedNext;
    ModSmall(pos + BLOCK, WORD);
    assert entries + [] == entries;
  }

  /** From 512 bytes above two gibibytes on, for every length an archive that is
      accepted although the data of its second entry lies wholly behind it. */
  lemma ListsBehindTheEnd(length: nat, capacity: nat)
    requires 0x8000_0200 <= length < WORD && length % BLOCK == 0 && capacity >= 2
    ensures exists data: seq<uint8>, e: Listed, f: Listed ::
              |data| == length && CodedList(data, capacity, 3) == Ended(Some([e, f]))
              && f.size > 0 && f.offset >= length && Intended(data, capacity).None?
  {
    hide OneTurn, TwoHeaders, SizedHeader, Zeros, Turns, Empty, ListFrom, Intended;
    var size := WORD - length + BLOCK;
    var data := TwoHeaders(length, size, FILE);
    var e, f := Listed([0x61], length - 1024, false, BLOCK), Listed([0x61], size, false, length);
    TwoTurns(length, size, FILE, capacity, []);
    assert [] + [e] + [f] == [e, f];
    var w := Going(BLOCK, NOTHING, [e, f]);
    EmptyTurn(data, capacity, w);
    ThreeTurns(data, capacity, Going(0, NOTHING, []));
    NotIntended(length, size, FILE, capacity);
  }

  lemma EmptyTurn(data: seq<uint8>, capacity: nat, w: Walk)
    requires w.Going? && w.pos == BLOCK && 2 * BLOCK <= |data| < WORD && data[BLOCK..2 * BLOCK] == Zeros(BLOCK)
    ensures OneTurn(data, capacity, w) == Ended(Some(w.entries))
  {
    ModSmall(2 * BLOCK, WORD);
  }

  lemma ThreeTurns(data: seq<uint8>, capacity: nat, w: Walk)
    requires |data| < WORD && Aligned(w)
    ensures Turns(data, capacity, w, 3)
            == OneTurn(data, capacity, OneTurn(data, capacity, OneTurn(data, capacity, w)))
  {
    hide OneTurn;
    NextTurn(data, capacity, w, 3);
    var v := OneTurn(data, capacity, w);
    NextTurn(data, capacity, v, 2);
    NextTurn(data, capacity, OneTurn(data, capacity, v), 1);
  }

  /** The second member does not fit, so the archive is meant to be refused. */
  lemma NotIntended(length: nat, size: nat, kind: uint8, capacity: nat)
    requires 0x8000_0000 <= length < WORD && length % BLOCK == 0 && 0 < size < WORD
    requires kind == FILE || kind == LINK
    ensures Intended(TwoHeaders(length, size, kind), capacity).None?
  {
    hide EntryFromHeader, SizedHeader, Empty, TwoHeaders, ListFrom;
    var data := TwoHeaders(length, size, kind);
    SizedHeaderReads(length - 1024, kind);
    SizedHeaderReads(size, kind);
    var m := MemberAt(data, 0, NOTHING);
    assert NextHeader(0, m) == length - BLOCK && m.after == NOTHING;
    ListStep(data, length - BLOCK, NOTHING);
    ListStep(data, 0, NOTHING);
  }

  /** From two gibibytes on, for every length an archive on which the loop never
      ends: its second member, a link, leads back to the first. */
  lemma LoopsForever(length: nat, capacity: nat, turns: nat)
    requires 0x8000_0000 <= length < WORD && length % BLOCK == 0
    ensures CodedList(TwoHeaders(length, WORD - length, LINK), capacity, turns).Going?
  {
    hide TwoHeaders;
    AroundAgain(length, capacity, turns);
  }

  lemma {:induction false} AroundAgain(length: nat, capacity: nat, turns: nat)
    requires 0x8000_0000 <= length < WORD && length % BLOCK == 0
    ensures Turns(TwoHeaders(length, WORD - length, LINK), capacity, Going(0, NOTHING, []), turns).Going?
  {
    hide TwoHeaders, OneTurn;
    var data, w := TwoHeaders(length, WORD - length, LINK), Going(0, NOTHING, []);
    TwoTurns(length, WORD - length, LINK, capacity, []);
    var v := OneTurn(data, capacity, w);
    if turns == 1 {
      NextTurn(data, capacity, w, 1);
      StillGoing(data, capacity, v);
    } else if turns > 1 {
      NextTurn(data, capacity, w, turns);
      NextTurn(data, capacity, v, turns - 1);
      AroundAgain(length, capacity, turns - 2);
    }
  }

  lemma StillGoing(data: seq<uint8>, capacity: nat, w: Walk)
    requires |data| < WORD && Aligned(w) && OneTurn(data, capacity, w).Going?
    ensures w.Going?
  {}

  /** tar_list returns what is intended on all archives of a length exactly when
      that length is below two gibibytes. */
  lemma RightOnLengthIff(length: nat)
    requires length < WORD && length % BLOCK == 0
    ensures (forall data: seq<uint8>, capacity: nat :: |data| == length ==> ReturnsIntended(data, capacity))
            <==> length < 0x8000_0000
  {
    hide CodedList, Intended;
    if length >= 0x8000_0000 {
      var data := TwoHeaders(length, WORD - length, LINK);
      forall turns: nat
        ensures CodedList(data, 0, turns).Going?
      {
        LoopsForever(length, 0, turns);
      }
      assert !ReturnsIntended(data, 0);
    } else {
      forall data: seq<uint8>, capacity: nat | |data| == length
        ensures ReturnsIntended(data, capacity)
      {
        ListsAsIntended(data, capacity, length + 1);
      }
    }
  }

  /** The loop ends, with the intended result. */
  ghost predicate ReturnsIntended(data: seq<uint8>, capacity: nat)
    requires |data| < WORD
  {
    exists turns: nat :: CodedList(data, capacity, turns) == Ended(Intended(data, capacity))
  }

  // ----- the lister -----

  lemma {:induction false} LineUnique(data: seq<uint8>, n: nat)
    requires n <= |data| && forall i :: 0 <= i < n ==> data[i] != 0 && data[i] != 0x0a
    requires n < |data| ==> data[n] == 0 || data[n] == 0x0a
    ensures LineOf(data) == data[..n]
  {
    if n > 0 {
      LineUnique(data[1..], n - 1);
      assert data[..n] == [data[0]] + data[1..][..n - 1];
    }
  }

  /** The scan for the end of a long name. */
  method LineLength(data: seq<uint8>) returns (n: nat)
    ensures n <= |data| && LineOf(data) == data[..n] && forall i :: 0 <= i < n ==> data[i] != 0
  {
    n := 0;
    while n < |data| && data[n] != 0 && data[n] != 0x0a
      invariant n <= |data| && forall i :: 0 <= i < n ==> data[i] != 0 && data[i] != 0x0a
    {
      n := n + 1;
    }
    LineUnique(data, n);
  }

  /** tar_copy_data_name. */
  method ReadLongName(data: seq<uint8>) returns (r: Option<Option<seq<uint8>>>)
    ensures r == LongName(data)
  {
    hide Normalize, LineOf, CString;
    var n := LineLength(data);
    if n == 0 || n >= MAX_NAME {
      return None;
    }
    CStringUnique(data[..n], n);
    assert data[..n][..n] == data[..n];
    var name := ReadPath(data[..n]);
    return Some(name);
  }

  /** The body of the loop up to the entry: the two range checks, the kinds of
      member, and what earlier ones announced. */
  method ReadMember(data: seq<uint8>, pos: nat, pend: Pending) returns (c: Coded)
    requires pos + BLOCK <= |data| < WORD
    ensures c == CodedAt(data, pos, pend)
  {
    hide EntryFromHeader, LongName, ParsePax;
    var head := ReadHeader(data[pos..pos + BLOCK]);
    if head.None? {
      return CodedBad;
    }
    var h, offset := head.value, pos + BLOCK;
    if !CodedFits(offset, h.size, |data|) {
      return CodedBad;
    }
    if h.kind == GnuLongName {
      if offset + h.size > |data| {
        return Elsewhere;
      }
      var name := ReadLongName(data[offset..offset + h.size]);
      if name.None? {
        return CodedBad;
      }
      return CodedMember(h, if name.value.None? then pend.(name := [], skip := true)
                            else pend.(name := name.value.value, skip := false));
    }
    if h.kind == Pax {
      if offset + h.size > |data| || h.size > PAX_LIMIT {
        return Elsewhere;
      }
      var info := ReadPax(data[offset..offset + h.size]);
      if info.None? {
        return CodedBad;
      }
      return CodedMember(h, ApplyPax(pend, info.value));
    }
    var r := Resolve(h, pend);
    if !CodedFits(offset, r.size, |data|) {
      return CodedBad;
    }
    return CodedMember(r, AfterPlain(pend));
  }

  /** tar_list, stopped after a number of turns, as its loop need not end. */
  method TarList(data: seq<uint8>, capacity: nat, turns: nat) returns (w: Walk)
    requires |data| < WORD
    ensures w == CodedList(data, capacity, turns)
  {
    hide Turns, CodedAt, Empty, CodedNext;
    if |data| % BLOCK != 0 {
      EndedStays(data, capacity, Ended(None), turns);
      return Ended(None);
    }
    var pos: nat, pend, entries: seq<Listed> := 0, NOTHING, [];
    for n := 0 to turns
      invariant Aligned(Going(pos, pend, entries))
      invariant Turns(data, capacity, Going(pos, pend, entries), turns - n) == CodedList(data, capacity, turns)
    {
      ghost var at, left := Going(pos, pend, entries), turns - n;
      NextTurn(data, capacity, at, left);
      if (pos + BLOCK) % WORD > |data| {
        EndsWith(data, capacity, at, left);
        return Ended(Some(entries));
      }
      if pos + BLOCK > |data| {
        EndsWith(data, capacity, at, left);
        return Lost;
      }
      var empty := IsEmpty(data[pos..pos + BLOCK]);
      if empty {
        EndsWith(data, capacity, at, left);
        return Ended(Some(entries));
      }
      var c := ReadMember(data, pos, pend);
      if c.CodedBad? || (c.CodedMember? && !c.head.skip && |entries| >= capacity) {
        EndsWith(data, capacity, at, left);
        return Ended(None);
      }
      if c.Elsewhere? {
        EndsWith(data, capacity, at, left);
        return Lost;
      }
      entries := entries + Emitted(pos, Member(c.head, c.after));
      pos, pend := CodedNext(pos, c.head.size), c.after;
    }
    NoTurns(data, capacity, Going(pos, pend, entries));
    return Going(pos, pend, entries);
  }

  lemma NoTurns(data: seq<uint8>, capacity: nat, w: Walk)
    requires |data| < WORD && Aligned(w)
    ensures Turns(data, capacity, w, 0) == w
  {}
}
