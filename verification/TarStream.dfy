/** The push-style tar extractor (tools/zz9k-archive.c): bytes arrive in
    arbitrary chunks, and the outcome does not depend on how they are cut. */
module TarStream {
  import opened Words
  import opened Options
  import opened TarHeader
  import opened TarReader
  import opened Tar
  import Paths

  const MAX_PAX: nat := 65536

  /** A member written out: its payload is empty for directories. */
  datatype Written = Written(name: seq<uint8>, size: nat, isDir: bool, payload: seq<uint8>)

  /** The state between two bytes. `outside` is set by a GNU long-name record,
      about which the model says nothing more. */
  datatype State = State(header: seq<uint8>, entry: Head, open: bool, pend: Pending, pax: seq<uint8>,
                         remaining: nat, padding: nat, written: seq<Written>, ok: bool, done: bool, outside: bool)

  predicate Stopped(s: State) {
    !s.ok || s.done || s.outside
  }

  /** tar_stream_start_entry on a complete header block. */
  function Start(s: State): State
    requires |s.header| == BLOCK
  {
    if Empty(s.header) then s.(done := true, header := [])
    else match EntryFromHeader(s.header)
      case None => s.(ok := false)
      case Some(h) => if h.kind == GnuLongName then s.(outside := true) else Begin(s, h)
  }

  /** The member's data comes next. */
  function Begin(s: State, h: Head): State
    requires h.kind != Plain ==> h.skip
  {
    Launch(Counted(s, h))
  }

  /** How much data and padding follow. */
  function Counted(s: State, h: Head): State {
    var e := if h.kind == Pax then h else Resolve(h, s.pend);
    s.(header := [], entry := e, pend := if h.kind == Pax then s.pend else NOTHING, pax := [],
       remaining := e.size, padding := Padding(e.size))
  }

  /** Whether the data is wanted, and whether it may be written. */
  function Launch(t: State): State {
    var e := t.entry;
    if e.kind == Pax && e.size > MAX_PAX then t.(ok := false)
    else if e.skip then t
    else if !Safe(e.name) then t.(ok := false)
    else t.(written := t.written + [Written(e.name, e.size, e.isDir, [])], open := !e.isDir && e.size != 0)
  }

  /** Some bytes of the member's data. */
  function Take(s: State, part: seq<uint8>): State
    requires |part| <= s.remaining && (s.open ==> s.written != [])
  {
    var n := |s.written| - 1;
    s.(remaining := s.remaining - |part|,
       pax := if s.entry.kind == Pax then s.pax + part else s.pax,
       written := if s.open then s.written[n := s.written[n].(payload := s.written[n].payload + part)] else s.written)
  }

  /** What happens when the last byte of the data has arrived. */
  function End(s: State): State {
    if s.entry.kind == Pax then
      match ParsePax(s.pax)
      case None => s.(ok := false)
      case Some(info) => s.(pend := ApplyPax(s.pend, info), open := false)
    else s.(open := false)
  }

  function Settle(s: State): State {
    if s.remaining == 0 then End(s) else s
  }

  /** The invariant of the machine. */
  predicate Wf(s: State) {
    && (s.open ==> s.written != [] && s.remaining != 0 && s.entry.kind == Plain)
    && (!Stopped(s) ==> |s.header| < BLOCK)
    && (s.remaining != 0 || s.padding != 0 ==> s.header == [] || Stopped(s))
  }

  /** One byte. */
  function Feed1(s: State, b: uint8): (t: State)
    requires Wf(s)
    ensures Wf(t)
  {
    if Stopped(s) then s
    else if s.remaining != 0 then Settle(Take(s, [b]))
    else if s.padding != 0 then s.(padding := s.padding - 1)
    else Fill(s, [b])
  }

  /** Some bytes of the header block. */
  function Fill(s: State, part: seq<uint8>): (t: State)
    requires Wf(s) && !Stopped(s) && s.remaining == 0 && s.padding == 0 && |s.header| + |part| <= BLOCK
    ensures Wf(t)
  {
    var t := s.(header := s.header + part);
    if |t.header| == BLOCK then Start(t) else t
  }

  /** Any number of bytes, one after another. */
  function Feed(s: State, data: seq<uint8>): (t: State)
    requires Wf(s)
    ensures Wf(t)
  {
    if data == [] then s else Feed1(Feed(s, data[..|data| - 1]), data[|data| - 1])
  }

  /** Cutting the data differently changes nothing. */
  lemma {:induction false} FeedAppend(s: State, a: seq<uint8>, b: seq<uint8>)
    requires Wf(s)
    ensures Feed(Feed(s, a), b) == Feed(s, a + b)
  {
    hide Feed1;
    if b == [] {
      assert a + b == a;
    } else {
      FeedAppend(s, a, b[..|b| - 1]);
      assert (a + b)[..|a + b| - 1] == a + b[..|b| - 1];
    }
  }

  lemma {:induction false} FeedStopped(s: State, data: seq<uint8>)
    requires Wf(s) && Stopped(s)
    ensures Feed(s, data) == s
  {
    if data != [] {
      FeedStopped(s, data[..|data| - 1]);
    }
  }

  // ----- whole parts at once -----

  lemma TakeTwice(s: State, a: seq<uint8>, b: seq<uint8>)
    requires |a| + |b| <= s.remaining && (s.open ==> s.written != [])
    ensures Take(Take(s, a), b) == Take(s, a + b)
  {
    if s.entry.kind == Pax {
      assert s.pax + a + b == s.pax + (a + b);
    }
    if s.open {
      var n := |s.written| - 1;
      assert s.written[n].payload + a + b == s.written[n].payload + (a + b);
    }
  }

  lemma {:induction false} FeedPayload(s: State, part: seq<uint8>)
    requires Wf(s) && !Stopped(s) && 0 < |part| <= s.remaining
    ensures Feed(s, part) == Settle(Take(s, part))
  {
    hide Take, End;
    var front, last := part[..|part| - 1], part[|part| - 1];
    assert part == front + [last];
    if front == [] {
      assert Feed(s, front) == s && part == [last];
    } else {
      FeedPayload(s, front);
      TakeTwice(s, front, [last]);
      TakeKeeps(s, front);
    }
  }

  lemma TakeKeeps(s: State, part: seq<uint8>)
    requires Wf(s) && !Stopped(s) && |part| < s.remaining
    ensures !Stopped(Take(s, part)) && Take(s, part).remaining == s.remaining - |part| && Wf(Take(s, part))
    ensures Settle(Take(s, part)) == Take(s, part)
  {}

  lemma {:induction false} FeedPadding(s: State, part: seq<uint8>)
    requires Wf(s) && !Stopped(s) && s.remaining == 0 && |part| <= s.padding
    ensures Feed(s, part) == s.(padding := s.padding - |part|)
  {
    if part != [] {
      FeedPadding(s, part[..|part| - 1]);
    }
  }

  lemma {:induction false} FeedHeader(s: State, part: seq<uint8>)
    requires Wf(s) && !Stopped(s) && s.remaining == 0 && s.padding == 0 && |s.header| + |part| <= BLOCK
    ensures Feed(s, part) == Fill(s, part)
  {
    hide Start;
    if part == [] {
      assert s.header + part == s.header;
    } else {
      var front, last := part[..|part| - 1], part[|part| - 1];
      FeedHeader(s, front);
      assert s.header + front + [last] == s.header + part;
    }
  }

  // ----- the stream against the lister -----

  /** Along the list there is no GNU long name, no pax header above 64 KiB, and
      only safe names. */
  predicate Streamable(data: seq<uint8>, pos: nat, pend: Pending)
    decreases |data| - pos
  {
    AtEnd(data, pos)
    || (var m := MemberAt(data, pos, pend);
        && m.Member?
        && m.head.kind != GnuLongName
        && (m.head.kind == Pax ==> m.head.size <= MAX_PAX)
        && (!m.head.skip ==> Safe(m.head.name))
        && Streamable(data, NextHeader(pos, m), m.after))
  }

  /** Between two members. */
  predicate AtBoundary(s: State, pend: Pending) {
    && Wf(s) && !Stopped(s) && s.header == [] && s.remaining == 0 && s.padding == 0 && !s.open
    && s.pend == pend && (pend.skip ==> pend.name == [])
  }

  /** What the lister's entry stands for. */
  function Contents(data: seq<uint8>, l: Listed): (w: Written)
    requires l.offset + l.size <= |data|
  {
    Written(l.name, l.size, l.isDir, if l.isDir then [] else data[l.offset..l.offset + l.size])
  }

  predicate InRange(data: seq<uint8>, es: seq<Listed>) {
    forall i :: 0 <= i < |es| ==> es[i].offset + es[i].size <= |data|
  }

  function AllContents(data: seq<uint8>, es: seq<Listed>): (w: seq<Written>)
    requires InRange(data, es)
    ensures |w| == |es|
  {
    seq(|es|, i requires 0 <= i < |es| => Contents(data, es[i]))
  }

  /** tar_stream_finish. */
  predicate Finished(s: State) {
    s.ok && !s.open && s.remaining == 0 && s.padding == 0 && s.header == []
  }

  lemma AfterHeader(s: State, h: Header, head: Head)
    requires Wf(s) && !Stopped(s) && s.header == [] && s.remaining == 0 && s.padding == 0
    requires !Empty(h) && EntryFromHeader(h) == Some(head) && head.kind != GnuLongName
    ensures Feed(s, h) == Begin(s.(header := h), head)
  {
    hide EntryFromHeader, Empty, Begin, Feed;
    FeedHeader(s, h);
    assert s.header + h == h;
  }

  /** The state when a member's data is complete. */
  function DataTaken(t: State, payload: seq<uint8>): State
    requires |payload| == t.remaining && (t.open ==> t.written != [])
  {
    if payload == [] then t else End(Take(t, payload))
  }

  lemma AfterData(t: State, payload: seq<uint8>)
    requires Wf(t) && !Stopped(t) && |payload| == t.remaining
    ensures Feed(t, payload) == DataTaken(t, payload)
  {
    hide End;
    if payload != [] {
      FeedPayload(t, payload);
    }
  }

  /** A pax header and its records. */
  lemma PaxTaken(s: State, h: Head, payload: seq<uint8>, info: PaxInfo, pend: Pending)
    requires AtBoundary(s.(header := []), pend) && h.kind == Pax && h.skip && h.size == |payload| <= MAX_PAX
    requires ParsePax(payload) == Some(info)
    ensures var t := Begin(s, h); Wf(t) && !Stopped(t) && |payload| == t.remaining
    ensures var u := DataTaken(Begin(s, h), payload);
            u.ok && !u.done && !u.outside && !u.open && u.remaining == 0 && u.header == []
                && u.padding == Padding(h.size)
            && u.pend == ApplyPax(pend, info) && u.written == s.written
  {
    hide Padding;
    if payload == [] {
      assert ParsePax(payload) == Some(PaxInfo(None, None));
    } else {
      assert [] + payload == payload;
      hide ParsePax;
    }
  }

  /** A plain member and its data. */
  lemma PlainTaken(s: State, h: Head, r: Head, payload: seq<uint8>, pend: Pending)
    requires AtBoundary(s.(header := []), pend) && h.kind == Plain && r == Resolve(h, pend) && r.size == |payload|
    requires !r.skip ==> Safe(r.name)
    ensures var t := Begin(s, h); Wf(t) && !Stopped(t) && |payload| == t.remaining
    ensures var u := DataTaken(Begin(s, h), payload);
            u.ok && !u.done && !u.outside && !u.open && u.remaining == 0 && u.header == []
                && u.padding == Padding(r.size)
            && u.pend == NOTHING
            && u.written == s.written
                + (if r.skip then [] else [Written(r.name, r.size, r.isDir, if r.isDir then [] else payload)])
  {
    hide Padding, Safe;
    if !r.skip && !r.isDir && payload != [] {
      assert [] + payload == payload;
    }
  }

  lemma AfterPadding(u: State, pad: seq<uint8>, after: Pending)
    requires u.ok && !u.done && !u.outside && !u.open && u.remaining == 0 && u.header == [] && u.padding == |pad|
    requires u.pend == after && (after.skip ==> after.name == [])
    ensures Wf(u) && AtBoundary(Feed(u, pad), after) && Feed(u, pad).written == u.written
  {
    FeedPadding(u, pad);
  }

  /** What the lister makes of a member. */
  lemma MemberFacts(data: seq<uint8>, pos: nat, pend: Pending, m: Member, h: Head)
    requires pos + BLOCK <= |data| && m == MemberAt(data, pos, pend) && m.Member? && m.head.kind != GnuLongName
    requires EntryFromHeader(data[pos..pos + BLOCK]) == Some(h) && (pend.skip ==> pend.name == [])
    ensures m.head.kind == Pax ==>
              m.head == h && ParsePax(data[pos + BLOCK..pos + BLOCK + h.size]).Some?
              && m.after == ApplyPax(pend, ParsePax(data[pos + BLOCK..pos + BLOCK + h.size]).value)
    ensures m.head.kind == Plain ==> m.head == Resolve(h, pend) && m.after == NOTHING
    ensures h.kind == m.head.kind && (m.after.skip ==> m.after.name == [])
  {
    hide EntryFromHeader, ParsePax, LongName;
  }

  lemma WholeBlocks(pos: nat, size: nat, length: nat)
    requires pos % BLOCK == 0 && length % BLOCK == 0 && pos + BLOCK + size <= length
    ensures pos + BLOCK + size + Padding(size) <= length && (pos + BLOCK + size + Padding(size)) % BLOCK == 0
  {
    var whole := size + Padding(size);
    assert (pos + BLOCK + whole) % BLOCK == 0;
    assert whole < size + BLOCK;
  }

  function WrittenFor(r: Head, payload: seq<uint8>): seq<Written> {
    if r.skip then [] else [Written(r.name, r.size, r.isDir, if r.isDir then [] else payload)]
  }

  /** Header, data and padding of a member, fed one after another. */
  lemma ThreeParts(s: State, pend: Pending, header: Header, h: Head, r: Head, payload: seq<uint8>, pad: seq<uint8>,
                   after: Pending)
    requires AtBoundary(s, pend) && !Empty(header) && EntryFromHeader(header) == Some(h) && h.kind != GnuLongName
    requires |payload| == r.size && |pad| == Padding(r.size) && (after.skip ==> after.name == [])
    requires !r.skip ==> Safe(r.name)
    requires h.kind == Pax ==>
             r == h && h.size <= MAX_PAX && ParsePax(payload).Some? && after == ApplyPax(pend, ParsePax(payload).value)
    requires h.kind == Plain ==> r == Resolve(h, pend) && after == NOTHING
    ensures AtBoundary(Feed(s, header + payload + pad), after)
    ensures Feed(s, header + payload + pad).written == s.written + WrittenFor(r, payload)
  {
    hide EntryFromHeader, ParsePax, Begin, DataTaken, Feed, Safe, Padding, Empty, Resolve, ApplyPax;
    var s1 := s.(header := header);
    AfterHeader(s, header, h);
    assert s1.(header := []) == s;
    if h.kind == Pax {
      PaxTaken(s1, h, payload, ParsePax(payload).value, pend);
    } else {
      PlainTaken(s1, h, r, payload, pend);
    }
    AfterData(Begin(s1, h), payload);
    AfterPadding(DataTaken(Begin(s1, h), payload), pad, after);
    FeedAppend(s, header, payload);
    FeedAppend(s, header + payload, pad);
  }

  /** One member of an archive fed whole. */
  lemma OneMember(data: seq<uint8>, pos: nat, pend: Pending, s: State, m: Member)
    requires pos + BLOCK <= |data| && pos % BLOCK == 0 && |data| % BLOCK == 0
    requires !AtEnd(data, pos) && m == MemberAt(data, pos, pend) && m.Member?
    requires m.head.kind != GnuLongName && (m.head.kind == Pax ==> m.head.size <= MAX_PAX)
    requires !m.head.skip ==> Safe(m.head.name)
    requires AtBoundary(s, pend)
    ensures NextHeader(pos, m) <= |data| && NextHeader(pos, m) % BLOCK == 0
    ensures AtBoundary(Feed(s, data[pos..NextHeader(pos, m)]), m.after)
    ensures Feed(s, data[pos..NextHeader(pos, m)]).written
            == s.written + WrittenFor(m.head, data[pos + BLOCK..pos + BLOCK + m.head.size])
  {
    hide ParsePax, Feed, Safe, Padding, Empty, AtBoundary, Resolve, ApplyPax, LongName;
    WholeBlocks(pos, m.head.size, |data|);
    var start, end, next := pos + BLOCK, pos + BLOCK + m.head.size, NextHeader(pos, m);
    HeaderRead(data, pos, pend);
    var h := EntryFromHeader(data[pos..start]).value;
    hide EntryFromHeader, MemberAt;
    BoundaryNames(s, pend);
    MemberFacts(data, pos, pend, m, h);
    ThreeSlices(data, pos, start, end, next);
    ThreeParts(s, pend, data[pos..start], h, m.head, data[start..end], data[end..next], m.after);
  }

  lemma HeaderRead(data: seq<uint8>, pos: nat, pend: Pending)
    requires pos + BLOCK <= |data| && !AtEnd(data, pos) && MemberAt(data, pos, pend).Member?
    ensures EntryFromHeader(data[pos..pos + BLOCK]).Some? && !Empty(data[pos..pos + BLOCK])
  {}

  lemma BoundaryNames(s: State, pend: Pending)
    ensures AtBoundary(s, pend) && pend.skip ==> pend.name == []
  {}

  lemma ThreeSlices(data: seq<uint8>, a: nat, b: nat, c: nat, d: nat)
    requires a <= b <= c <= d <= |data|
    ensures data[a..d] == data[a..b] + data[b..c] + data[c..d]
  {}

  /** From a header position on: feeding the rest of the archive writes what
      the lister lists. */
  lemma {:induction false} StreamFollowsList(data: seq<uint8>, pos: nat, pend: Pending, s: State)
    requires pos <= |data| && pos % BLOCK == 0 && |data| % BLOCK == 0
    requires Streamable(data, pos, pend) && ListFrom(data, pos, pend).Some? && AtBoundary(s, pend)
    ensures InRange(data, ListFrom(data, pos, pend).value)
    ensures Finished(Feed(s, data[pos..]))
    ensures Feed(s, data[pos..]).written == s.written + AllContents(data, ListFrom(data, pos, pend).value)
    decreases |data| - pos
  {
    hide MemberAt, Feed, AtEnd, AtBoundary, Finished, Safe, AllContents, WrittenFor, Emitted, Padding;
    if AtEnd(data, pos) {
      StreamEnds(data, pos, pend, s);
      NoContents(data);
    } else {
      HeaderThere(data, pos);
      var m := MemberAt(data, pos, pend);
      var next := NextHeader(pos, m);
      OneMember(data, pos, pend, s, m);
      BoundaryIsWf(s, pend);
      var t := Feed(s, data[pos..next]);
      BoundaryIsWf(t, m.after);
      StreamFollowsList(data, next, m.after, t);
      FeedAppend(s, data[pos..next], data[next..]);
      assert data[pos..] == data[pos..next] + data[next..];
      EmittedContents(data, pos, m, ListFrom(data, next, m.after).value);
    }
  }

  lemma NoContents(data: seq<uint8>)
    ensures InRange(data, []) && AllContents(data, []) == []
  {}

  lemma HeaderThere(data: seq<uint8>, pos: nat)
    ensures !AtEnd(data, pos) ==> pos + BLOCK <= |data|
  {}

  lemma BoundaryIsWf(s: State, pend: Pending)
    ensures AtBoundary(s, pend) ==> Wf(s)
  {}

  lemma ContentsAppend(data: seq<uint8>, a: seq<Listed>, b: seq<Listed>)
    requires InRange(data, a) && InRange(data, b)
    ensures InRange(data, a + b) && AllContents(data, a + b) == AllContents(data, a) + AllContents(data, b)
  {
    hide Contents;
    var both := AllContents(data, a) + AllContents(data, b);
    forall i | 0 <= i < |a + b|
      ensures both[i] == Contents(data, (a + b)[i])
    {
      assert i >= |a| ==> (a + b)[i] == b[i - |a|];
    }
  }

  lemma EmittedContents(data: seq<uint8>, pos: nat, m: Member, rest: seq<Listed>)
    requires m.Member? && pos + BLOCK + m.head.size <= |data| && InRange(data, rest)
    ensures InRange(data, Emitted(pos, m) + rest)
    ensures AllContents(data, Emitted(pos, m) + rest)
            == WrittenFor(m.head, data[pos + BLOCK..pos + BLOCK + m.head.size]) + AllContents(data, rest)
  {
    EmittedAlone(data, pos, m);
    ContentsAppend(data, Emitted(pos, m), rest);
  }

  lemma EmittedAlone(data: seq<uint8>, pos: nat, m: Member)
    requires m.Member? && pos + BLOCK + m.head.size <= |data|
    ensures InRange(data, Emitted(pos, m))
    ensures AllContents(data, Emitted(pos, m)) == WrittenFor(m.head, data[pos + BLOCK..pos + BLOCK + m.head.size])
  {}

  /** The end of the archive, with or without an empty block. */
  lemma StreamEnds(data: seq<uint8>, pos: nat, pend: Pending, s: State)
    requires pos <= |data| && pos % BLOCK == 0 && |data| % BLOCK == 0
    requires AtEnd(data, pos) && AtBoundary(s, pend)
    ensures Finished(Feed(s, data[pos..])) && Feed(s, data[pos..]).written == s.written
  {
    if pos + BLOCK > |data| {
      assert data[pos..] == [];
    } else {
      var h := data[pos..pos + BLOCK];
      FeedHeader(s, h);
      assert s.header + h == h;
      hide Feed;
      FeedStopped(Feed(s, h), data[pos + BLOCK..]);
      FeedAppend(s, h, data[pos + BLOCK..]);
      assert data[pos..] == h + data[pos + BLOCK..];
    }
  }

  // ----- any chunking -----

  const INITIAL := State([], Head([], 0, Plain, false, false), false, NOTHING, [], 0, 0, [], true, false, false)

  function FeedChunks(s: State, chunks: seq<seq<uint8>>): (t: State)
    requires Wf(s)
    ensures Wf(t)
  {
    if chunks == [] then s else Feed(FeedChunks(s, chunks[..|chunks| - 1]), chunks[|chunks| - 1])
  }

  lemma {:induction false} ChunksDoNotMatter(s: State, chunks: seq<seq<uint8>>)
    requires Wf(s)
    ensures FeedChunks(s, chunks) == Feed(s, Joined(chunks))
  {
    hide Feed;
    if chunks == [] {
      assert Joined(chunks) == [];
      FeedStoppedOrNothing(s);
    } else {
      var n := |chunks| - 1;
      ChunksDoNotMatter(s, chunks[..n]);
      FeedAppend(s, Joined(chunks[..n]), chunks[n]);
    }
  }

  lemma FeedStoppedOrNothing(s: State)
    requires Wf(s)
    ensures Feed(s, []) == s
  {}

  /** However an archive is cut into chunks, the stream accepts it and writes
      the names, sizes and data the lister finds, for every archive the lister
      accepts without long-name records, oversized pax headers or unsafe
      names. */
  lemma AnyChunkingExtracts(data: seq<uint8>, chunks: seq<seq<uint8>>)
    requires Joined(chunks) == data && |data| % BLOCK == 0
    requires ListFrom(data, 0, NOTHING).Some? && Streamable(data, 0, NOTHING)
    ensures InRange(data, ListFrom(data, 0, NOTHING).value)
    ensures Finished(FeedChunks(INITIAL, chunks))
    ensures FeedChunks(INITIAL, chunks).written == AllContents(data, ListFrom(data, 0, NOTHING).value)
  {
    hide Feed, Streamable, ListFrom, AllContents;
    ChunksDoNotMatter(INITIAL, chunks);
    StreamFollowsList(data, 0, NOTHING, INITIAL);
    assert data[0..] == data;
  }

  // ----- the code -----

  lemma Advance(s: State, data: seq<uint8>, pos: nat, part: nat)
    requires Wf(s) && pos + part <= |data|
    ensures Feed(s, data[..pos + part]) == Feed(Feed(s, data[..pos]), data[pos..pos + part])
  {
    hide Feed;
    FeedAppend(s, data[..pos], data[pos..pos + part]);
    assert data[..pos + part] == data[..pos] + data[pos..pos + part];
  }

  lemma RestIgnored(s: State, data: seq<uint8>, pos: nat)
    requires Wf(s) && pos <= |data| && Stopped(Feed(s, data[..pos]))
    ensures Feed(s, data) == Feed(s, data[..pos])
  {
    hide Feed;
    FeedAppend(s, data[..pos], data[pos..]);
    assert data == data[..pos] + data[pos..];
    FeedStopped(Feed(s, data[..pos]), data[pos..]);
  }

  /** The extractor's record, for extraction with all writes succeeding. */
  class Stream {
    const header: array<uint8>
    var headerUsed: nat
    var entry: Head
    var open: bool
    var pendingName: seq<uint8>
    var pendingNameSkip: bool
    var pendingSize: nat
    var pendingSizeValid: bool
    var paxData: seq<uint8>
    var paxCapacity: nat
    var entryRemaining: nat
    var paddingRemaining: nat
    var count: nat
    var written: seq<Written>
    var ok: bool
    var done: bool
    var outside: bool

    ghost predicate Sized()
      reads this, header
    {
      header.Length == BLOCK && headerUsed <= BLOCK && paxCapacity <= MAX_PAX
    }

    ghost function View(): State
      reads this, header
      requires Sized()
    {
      State(header[..headerUsed], entry, open,
            Pending(pendingName, pendingNameSkip, if pendingSizeValid then Some(pendingSize) else None),
            paxData, entryRemaining, paddingRemaining, written, ok, done, outside)
    }

    ghost predicate Valid()
      reads this, header
    {
      && Sized() && Wf(View()) && count == |written|
      && (!Stopped(View()) && entry.kind == Pax ==> |paxData| + entryRemaining <= paxCapacity)
    }

    /** tar_stream_init. */
    constructor ()
      ensures Valid() && View() == INITIAL && fresh(header)
    {
      header := new uint8[BLOCK];
      headerUsed, entry, open := 0, Head([], 0, Plain, false, false), false;
      pendingName, pendingNameSkip, pendingSize, pendingSizeValid := [], false, 0, false;
      paxData, paxCapacity, entryRemaining, paddingRemaining := [], 0, 0, 0;
      count, written, ok, done, outside := 0, [], true, false, false;
    }

    /** tar_stream_start_entry. */
    method StartEntry()
      requires Sized() && headerUsed == BLOCK && !Stopped(View()) && count == |written|
      requires !open && entryRemaining == 0 && paddingRemaining == 0
      modifies this
      ensures Valid() && View() == Start(old(View()))
    {
      hide Empty, EntryFromHeader, Begin;
      var block := header[..headerUsed];
      var empty := IsEmpty(block);
      if empty {
        done := true;
        headerUsed := 0;
        return;
      }
      var h := ReadHeader(block);
      if h.None? {
        ok := false;
        return;
      }
      if h.value.kind == GnuLongName {
        outside := true;
        return;
      }
      headerUsed := 0;
      BeginEntry(h.value, block);
    }

    /** The rest of it, for a header that was read. */
    method BeginEntry(h: Head, ghost block: seq<uint8>)
      requires Sized() && headerUsed == 0 && !Stopped(View()) && count == |written|
      requires !open && entryRemaining == 0 && paddingRemaining == 0 && (h.kind != Plain ==> h.skip)
      requires h.kind != GnuLongName
      modifies this
      ensures Valid() && View() == Begin(old(View()).(header := block), h)
    {
      hide Counted, Launch;
      CountData(h, block);
      LaunchEntry();
    }

    method CountData(h: Head, ghost block: seq<uint8>)
      requires Sized() && headerUsed == 0 && h.kind != GnuLongName
      modifies this`entry, this`pendingName, this`pendingNameSkip, this`pendingSizeValid, this`paxData,
               this`entryRemaining, this`paddingRemaining
      ensures View() == Counted(old(View()).(header := block), h)
      ensures entry.kind == h.kind && (entry.kind != Plain ==> entry == h)
      ensures paxData == [] && entryRemaining == entry.size
    {
      hide Padding, Resolve;
      assert header[..0] == [];
      ghost var s := View();
      var e := h;
      if h.kind != Pax {
        e := TakePending(h);
      }
      assert View() == s.(pend := if h.kind == Pax then s.pend else NOTHING);
      entry, entryRemaining, paxData, paddingRemaining := e, e.size, [], Padding(e.size);
    }

    method LaunchEntry()
      requires Sized() && headerUsed == 0 && !Stopped(View()) && count == |written|
      requires !open && paxData == [] && entryRemaining == entry.size && (entry.kind != Plain ==> entry.skip)
      modifies this`paxCapacity, this`ok, this`count, this`written, this`open
      ensures Valid() && View() == Launch(old(View()))
    {
      hide Safe;
      if entry.kind == Pax {
        if entry.size > MAX_PAX {
          ok := false;
          return;
        }
        if paxCapacity < entry.size {
          paxCapacity := entry.size;
        }
      }
      if entry.skip {
        return;
      }
      var safe := Paths.PathIsSafe(entry.name);
      if !safe {
        ok := false;
        return;
      }
      count := count + 1;
      written := written + [Written(entry.name, entry.size, entry.isDir, [])];
      open := !(entry.isDir || entry.size == 0);
    }

    /** What was announced for a member is used up. */
    method TakePending(h: Head) returns (e: Head)
      requires Sized()
      modifies this`pendingName, this`pendingNameSkip, this`pendingSizeValid
      ensures e == Resolve(h, old(View()).pend) && View() == old(View()).(pend := NOTHING)
    {
      e := h;
      if pendingNameSkip {
        e := e.(skip := true);
        pendingNameSkip := false;
        pendingName := [];
      } else if pendingName != [] {
        e := e.(name := pendingName);
        pendingName := [];
      }
      if pendingSizeValid {
        e := e.(size := pendingSize);
        pendingSizeValid := false;
      }
    }

    /** The payload branch of tar_stream_consume, for a part that fits. */
    method TakePart(part: seq<uint8>)
      requires Valid() && !Stopped(View()) && 0 < |part| <= entryRemaining
      modifies this
      ensures Valid() && View() == Settle(Take(old(View()), part))
    {
      hide ParsePax, ApplyPax;
      if entry.kind == Pax {
        paxData := paxData + part;
      } else if open {
        var n := |written| - 1;
        written := written[n := written[n].(payload := written[n].payload + part)];
      }
      entryRemaining := entryRemaining - |part|;
      if entryRemaining == 0 {
        if entry.kind == Pax {
          var pax := ReadPax(paxData);
          if pax.None? {
            ok := false;
            return;
          }
          ApplyRecords(pax.value);
        }
        open := false;
      }
    }

    /** What the pax records announce. */
    method ApplyRecords(info: PaxInfo)
      requires Sized()
      modifies this`pendingName, this`pendingNameSkip, this`pendingSize, this`pendingSizeValid
      ensures View() == old(View()).(pend := ApplyPax(old(View()).pend, info))
    {
      match info.path {
        case None =>
        case Some(None) =>
          pendingName := [];
          pendingNameSkip := true;
        case Some(Some(path)) =>
          pendingName := path;
          pendingNameSkip := false;
      }
      if info.size.Some? {
        pendingSize := info.size.value;
        pendingSizeValid := true;
      }
    }

    /** tar_stream_consume: a chunk has the effect of its bytes one by one. */
    method Consume(data: seq<uint8>) returns (r: bool)
      requires Valid()
      modifies this, header
      ensures Valid() && View() == Feed(old(View()), data) && r == ok
    {
      hide Feed, Start, Take, End, Wf;
      ghost var s := View();
      FeedStoppedOrNothing(s);
      if !ok {
        FeedStopped(s, data);
        return false;
      }
      var pos := 0;
      assert data[..0] == [];
      while pos < |data|
        invariant pos <= |data| && Valid() && ok
        invariant View() == Feed(s, data[..pos])
        decreases |data| - pos
      {
        if done || outside {
          RestIgnored(s, data, pos);
          return true;
        }
        var left := |data| - pos;
        if entryRemaining != 0 {
          var part := Min(entryRemaining, left);
          FeedPayload(View(), data[pos..pos + part]);
          Advance(s, data, pos, part);
          TakePart(data[pos..pos + part]);
          pos := pos + part;
          if !ok {
            RestIgnored(s, data, pos);
            return false;
          }
        } else if paddingRemaining != 0 {
          var part := Min(paddingRemaining, left);
          FeedPadding(View(), data[pos..pos + part]);
          Advance(s, data, pos, part);
          SkipPadding(part);
          pos := pos + part;
        } else {
          HeaderNotFull();
          var part := Min(BLOCK - headerUsed, left);
          FeedHeader(View(), data[pos..pos + part]);
          Advance(s, data, pos, part);
          TakeHeader(data[pos..pos + part]);
          pos := pos + part;
          if !ok {
            RestIgnored(s, data, pos);
            return false;
          }
        }
      }
      assert data[..pos] == data;
      return true;
    }

    lemma HeaderNotFull()
      requires Valid()
      ensures !Stopped(View()) ==> headerUsed < BLOCK
    {}

    method SkipPadding(part: nat)
      requires Valid() && !Stopped(View()) && entryRemaining == 0 && part <= paddingRemaining
      modifies this
      ensures Valid() && View() == old(View()).(padding := old(paddingRemaining) - part)
    {
      paddingRemaining := paddingRemaining - part;
    }

    /** The header branch. */
    method TakeHeader(part: seq<uint8>)
      requires Valid() && !Stopped(View()) && entryRemaining == 0 && paddingRemaining == 0
               && headerUsed + |part| <= BLOCK
      modifies this, header
      ensures Valid() && View() == Fill(old(View()), part)
    {
      hide Start;
      ghost var s, before := View(), header[..headerUsed];
      for i := 0 to |part|
        invariant Sized() && header[..headerUsed] == before && headerUsed == |before|
        invariant header[headerUsed..headerUsed + i] == part[..i]
        modifies header
      {
        header[headerUsed + i] := part[i];
      }
      assert header[..headerUsed + |part|] == before + part;
      headerUsed := headerUsed + |part|;
      assert View() == s.(header := s.header + part);
      if headerUsed == BLOCK {
        StartEntry();
      }
    }

    /** tar_stream_finish. */
    method Finish() returns (r: bool)
      requires Valid()
      ensures r <==> Finished(View())
    {
      if !ok {
        return false;
      }
      if open || entryRemaining != 0 || paddingRemaining != 0 || headerUsed != 0 {
        return false;
      }
      return true;
    }
  }
}
