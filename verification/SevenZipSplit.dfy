/** Splitting one decoded 7z folder into its entries (tools/zz9k-archive.c):
    the CRC that is carried from chunk to chunk, and the writer. */
module Crc {
  import opened Words
  import opened Bitwise

  /** One bit of the reflected division by 0xedb88320. */
  function ShiftBit(crc: uint32): uint32 {
    var half := (crc as int / 2) as uint32;
    if crc % 2 != 0 then Xor32(half, 0xedb8_8320) else half
  }

  function ShiftBits(crc: uint32, bits: nat): uint32 {
    if bits == 0 then crc else ShiftBit(ShiftBits(crc, bits - 1))
  }

  /** The register after some bytes. */
  function Register(crc: uint32, data: seq<uint8>): uint32 {
    if data == [] then crc
    else ShiftBits(Xor32(Register(crc, data[..|data| - 1]), data[|data| - 1] as uint32), 8)
  }

  const ONES: uint32 := 0xffff_ffff

  /** archive_crc32, continuing from the value of what came before. */
  function Crc32(crc: uint32, data: seq<uint8>): uint32 {
    Xor32(Register(Xor32(crc, ONES), data), ONES)
  }

  method ComputeCrc32(crc: uint32, data: seq<uint8>) returns (r: uint32)
    ensures r == Crc32(crc, data)
  {
    hide Xor32, ShiftBit;
    r := Xor32(crc, ONES);
    for i := 0 to |data|
      invariant r == Register(Xor32(crc, ONES), data[..i])
    {
      assert data[..i + 1][..i] == data[..i];
      r := Xor32(r, data[i] as uint32);
      ghost var c := r;
      for bit := 0 to 8
        invariant r == ShiftBits(c, bit)
      {
        r := ShiftBit(r);
      }
    }
    assert data[..|data|] == data;
    r := Xor32(r, ONES);
  }

  lemma {:induction false} RegisterAppend(crc: uint32, a: seq<uint8>, b: seq<uint8>)
    ensures Register(Register(crc, a), b) == Register(crc, a + b)
  {
    hide ShiftBits, Xor32;
    if b == [] {
      assert a + b == a;
    } else {
      RegisterAppend(crc, a, b[..|b| - 1]);
      assert (a + b)[..|a + b| - 1] == a + b[..|b| - 1];
    }
  }

  lemma OnesTwice(x: uint32)
    ensures Xor32(Xor32(x, ONES), ONES) == x
  {
    WordPowers();
    XorBitsTwice(x as nat, ONES as nat, 32);
  }

  /** The CRC of two pieces one after the other is the CRC of the whole. */
  lemma CrcAppend(crc: uint32, a: seq<uint8>, b: seq<uint8>)
    ensures Crc32(Crc32(crc, a), b) == Crc32(crc, a + b)
  {
    hide Register, Xor32;
    OnesTwice(Register(Xor32(crc, ONES), a));
    RegisterAppend(Xor32(crc, ONES), a, b);
  }
}

module SevenZipSplit {
  import opened Words
  import opened Options
  import opened Crc

  /** An entry of the folder: its size, whether the filter matches, its CRC if
      it has one, and where it starts in the decoded folder. */
  datatype Entry = Entry(size: nat, wanted: bool, crc: Option<uint32>, decodedOffset: nat)

  /** Where entry i starts: the sum of the sizes before it. */
  function Start(entries: seq<Entry>, i: nat): nat
    requires i <= |entries|
  {
    if i == 0 then 0 else Start(entries, i - 1) + entries[i - 1].size
  }

  function Total(entries: seq<Entry>): nat {
    Start(entries, |entries|)
  }

  lemma {:induction false} StartMonotone(entries: seq<Entry>, i: nat, j: nat)
    requires i <= j <= |entries|
    ensures Start(entries, i) <= Start(entries, j)
    decreases j - i
  {
    if i < j {
      StartMonotone(entries, i, j - 1);
    }
  }

  const MAX_TOTAL: nat := 0x7fff_ffff

  /** split_group_unpacked_size: the recorded offsets are the sums of the sizes
      and the folder is below two gibibytes. */
  method GroupUnpackedSize(entries: seq<Entry>) returns (r: Option<nat>)
    ensures r.Some? <==> |entries| > 0 && Total(entries) <= MAX_TOTAL
                         && forall i :: 0 <= i < |entries| ==> entries[i].decodedOffset == Start(entries, i)
    ensures r.Some? ==> r.value == Total(entries)
  {
    if |entries| == 0 {
      return None;
    }
    hide Start;
    StartNext(entries);
    var total := 0;
    for i := 0 to |entries|
      invariant total == Start(entries, i) <= MAX_TOTAL
      invariant forall k :: 0 <= k < i ==> entries[k].decodedOffset == Start(entries, k)
    {
      if entries[i].decodedOffset != total {
        return None;
      }
      if entries[i].size > MAX_TOTAL - total {
        StartMonotone(entries, i + 1, |entries|);
        return None;
      }
      total := total + entries[i].size;
    }
    return Some(total);
  }

  lemma StartNext(entries: seq<Entry>)
    ensures Start(entries, 0) == 0
    ensures forall i :: 0 <= i < |entries| ==> Start(entries, i) + entries[i].size == Start(entries, i + 1)
  {}

  /** Entry i is complete within `fed`. */
  predicate Complete(entries: seq<Entry>, i: nat, fed: seq<uint8>)
    requires i < |entries|
  {
    Start(entries, i + 1) <= |fed|
  }

  /** The bytes of `fed` that belong to entry i. */
  function Slice(entries: seq<Entry>, i: nat, fed: seq<uint8>): (s: seq<uint8>)
    requires i < |entries| && Complete(entries, i, fed)
    ensures |s| == entries[i].size
  {
    fed[Start(entries, i)..Start(entries, i + 1)]
  }

  /** No CRC is asked for, or it is the right one. */
  predicate CrcRight(entries: seq<Entry>, i: nat, fed: seq<uint8>)
    requires i < |entries| && Complete(entries, i, fed)
  {
    entries[i].wanted && entries[i].crc.Some? ==> Crc32(0, Slice(entries, i, fed)) == entries[i].crc.value
  }

  /** The bytes so far fit, and the entries they complete have the right CRC. */
  ghost predicate Acceptable(entries: seq<Entry>, fed: seq<uint8>) {
    && |fed| <= Total(entries)
    && forall i :: 0 <= i < |entries| && Complete(entries, i, fed) ==> CrcRight(entries, i, fed)
  }

  lemma SliceStable(entries: seq<Entry>, i: nat, a: seq<uint8>, b: seq<uint8>)
    requires i < |entries| && Complete(entries, i, a)
    ensures Complete(entries, i, a + b) && Slice(entries, i, a + b) == Slice(entries, i, a)
    ensures CrcRight(entries, i, a + b) == CrcRight(entries, i, a)
  {
    hide Crc32;
    assert (a + b)[Start(entries, i)..Start(entries, i + 1)] == a[Start(entries, i)..Start(entries, i + 1)];
  }

  /** What has been accepted stays so. */
  lemma AcceptableEarlier(entries: seq<Entry>, a: seq<uint8>, b: seq<uint8>)
    requires Acceptable(entries, a + b)
    ensures Acceptable(entries, a)
  {
    hide CrcRight, Complete;
    forall i | 0 <= i < |entries| && Complete(entries, i, a)
      ensures CrcRight(entries, i, a)
    {
      SliceStable(entries, i, a, b);
    }
  }

  /** What entry i's file holds in the end, if it is opened at all. */
  function Output(entries: seq<Entry>, i: nat, fed: seq<uint8>, writeOutput: bool): Option<seq<uint8>>
    requires i < |entries| && Complete(entries, i, fed)
  {
    if writeOutput && entries[i].wanted then Some(Slice(entries, i, fed)) else None
  }

  /** The entries before `current` are written and right, those after it not
      begun. */
  ghost predicate DonePart(entries: seq<Entry>, current: nat, fed: seq<uint8>, outputs: seq<Option<seq<uint8>>>,
                           writeOutput: bool) {
    && current <= |entries| == |outputs|
    && (forall i :: 0 <= i < current ==>
          Complete(entries, i, fed) && CrcRight(entries, i, fed) && outputs[i] == Output(entries, i, fed, writeOutput))
    && (forall i :: current < i < |entries| ==> outputs[i] == None)
  }

  lemma DoneUpdate(entries: seq<Entry>, current: nat, fed: seq<uint8>, outputs: seq<Option<seq<uint8>>>,
                   writeOutput: bool, x: Option<seq<uint8>>)
    requires DonePart(entries, current, fed, outputs, writeOutput) && current < |entries|
    ensures DonePart(entries, current, fed, outputs[current := x], writeOutput)
  {
    hide Complete, CrcRight, Output;
  }

  lemma DoneMore(entries: seq<Entry>, current: nat, fed: seq<uint8>, outputs: seq<Option<seq<uint8>>>,
                 writeOutput: bool, part: seq<uint8>)
    requires DonePart(entries, current, fed, outputs, writeOutput)
    ensures DonePart(entries, current, fed + part, outputs, writeOutput)
  {
    hide Complete, CrcRight, Slice;
    forall i | 0 <= i < current
      ensures Complete(entries, i, fed + part) && CrcRight(entries, i, fed + part)
      ensures outputs[i] == Output(entries, i, fed + part, writeOutput)
    {
      SliceStable(entries, i, fed, part);
    }
  }

  lemma DoneNext(entries: seq<Entry>, current: nat, fed: seq<uint8>, outputs: seq<Option<seq<uint8>>>,
                 writeOutput: bool)
    requires DonePart(entries, current, fed, outputs, writeOutput) && current < |entries|
    requires Complete(entries, current, fed) && CrcRight(entries, current, fed)
             && outputs[current] == Output(entries, current, fed, writeOutput)
    ensures DonePart(entries, current + 1, fed, outputs, writeOutput)
    ensures current + 1 < |entries| ==> outputs[current + 1] == None
  {
    hide Complete, CrcRight, Output;
  }

  /** What the finished entries say about the whole. */
  lemma DoneAcceptable(entries: seq<Entry>, current: nat, fed: seq<uint8>, outputs: seq<Option<seq<uint8>>>,
                       writeOutput: bool)
    requires DonePart(entries, current, fed, outputs, writeOutput) && |fed| <= Total(entries)
    requires current < |entries| ==> |fed| < Start(entries, current + 1)
    ensures Acceptable(entries, fed)
  {
    hide CrcRight, Output, Start;
    NothingMoreComplete(entries, current, fed);
  }

  /** The writer's record; `outputs` are the files, `fed` every byte so far. */
  class Writer {
    const entries: seq<Entry>
    const writeOutput: bool
    var current: nat
    var entryWritten: nat
    var entryCrc: uint32
    var totalWritten: nat
    var file: bool
    var entryStarted: bool
    var outputs: seq<Option<seq<uint8>>>
    ghost var fed: seq<uint8>

    /** The entry being written. */
    ghost predicate CurrentFits()
      reads this
      requires current <= |entries| && |outputs| == |entries|
      requires Start(entries, current) <= |fed|
    {
      if entryStarted then
        && current < |entries|
        && entryWritten <= entries[current].size
        && entryCrc == Crc32(0, fed[Start(entries, current)..])
        && file == (writeOutput && entries[current].wanted)
        && outputs[current] == if file then Some(fed[Start(entries, current)..]) else None
      else entryWritten == 0 && !file && (current < |entries| ==> outputs[current] == None)
    }

    ghost predicate Valid()
      reads this
    {
      && current <= |entries| && |outputs| == |entries| && Total(entries) <= MAX_TOTAL
      && |fed| == Start(entries, current) + entryWritten && totalWritten == |fed|
      && CurrentFits()
      && DonePart(entries, current, fed, outputs, writeOutput)
    }

    /** Between chunks no finished entry is left waiting. */
    ghost predicate Settled()
      reads this
    {
      current < |entries| ==> entryWritten < entries[current].size
    }

    /** split_writer_init. */
    constructor (entries: seq<Entry>, writeOutput: bool)
      requires Total(entries) <= MAX_TOTAL
      ensures Valid() && fed == [] && this.entries == entries && this.writeOutput == writeOutput
    {
      this.entries, this.writeOutput := entries, writeOutput;
      current, entryWritten, entryCrc, totalWritten, file, entryStarted := 0, 0, 0, 0, false, false;
      outputs, fed := seq(|entries|, _ => None), [];
    }

    /** split_writer_start_entry. */
    method StartEntry()
      requires Valid() && current < |entries|
      modifies this`entryWritten, this`entryCrc, this`file, this`entryStarted, this`outputs
      ensures Valid() && entryStarted && entryWritten == old(entryWritten)
    {
      hide DonePart, Start, Crc32;
      if entryStarted {
        return;
      }
      entryWritten := 0;
      entryCrc := 0;
      assert fed[Start(entries, current)..] == [];
      CrcOfNothing();
      if writeOutput && entries[current].wanted {
        file := true;
        DoneUpdate(entries, current, fed, outputs, writeOutput, Some([]));
        outputs := outputs[current := Some([])];
      }
      entryStarted := true;
    }

    /** split_writer_finish_entry on an entry whose bytes are all there. */
    method FinishEntry() returns (ok: bool)
      requires Valid() && current < |entries| && entryStarted && entryWritten == entries[current].size
      modifies this`current, this`entryWritten, this`entryCrc, this`file, this`entryStarted
      ensures Start(entries, old(current) + 1) == |fed|
      ensures ok <==> CrcRight(entries, old(current), fed)
      ensures ok ==> Valid() && current == old(current) + 1 && entryWritten == 0 && !entryStarted
    {
      hide Crc32, DonePart;
      var entry := entries[current];
      ghost var i := current;
      assert fed[Start(entries, i)..Start(entries, i + 1)] == fed[Start(entries, i)..];
      ok := !(entry.wanted && entry.crc.Some? && entryCrc != entry.crc.value);
      if ok {
        DoneNext(entries, i, fed, outputs, writeOutput);
      }
      file := false;
      current := current + 1;
      entryWritten := 0;
      entryCrc := 0;
      entryStarted := false;
    }

    /** split_writer_advance_empty: entries without bytes are opened, checked
        and closed. */
    method AdvanceEmpty() returns (ok: bool)
      requires Valid()
      requires current < |entries| && entries[current].size > 0 ==> entryWritten < entries[current].size
      modifies this
      ensures ok <==> Acceptable(entries, fed)
      ensures ok ==> Valid() && Settled()
      ensures fed == old(fed)
    {
      hide CrcRight, Complete, DonePart, Start, Crc32;
      while current < |entries| && entries[current].size == 0
        invariant Valid() && fed == old(fed)
        invariant current < |entries| && entries[current].size > 0 ==> entryWritten < entries[current].size
        decreases |entries| - current
      {
        StartEntry();
        ghost var i := current;
        ok := FinishEntry();
        if !ok {
          WrongCrc(entries, i, fed);
          return;
        }
      }
      StartNext(entries);
      StartMonotone(entries, if current < |entries| then current + 1 else current, |entries|);
      DoneAcceptable(entries, current, fed, outputs, writeOutput);
      return true;
    }

    /** Some bytes of the current entry. */
    method TakePart(part: seq<uint8>)
      requires Valid() && current < |entries| && entryStarted && entryWritten + |part| <= entries[current].size
      modifies this`entryCrc, this`outputs, this`entryWritten, this`totalWritten, this`fed
      ensures Valid() && fed == old(fed) + part && entryWritten == old(entryWritten) + |part|
    {
      hide Crc32, DonePart, Start;
      ghost var from := Start(entries, current);
      CrcAppend(0, fed[from..], part);
      assert (fed + part)[from..] == fed[from..] + part;
      DoneMore(entries, current, fed, outputs, writeOutput, part);
      entryCrc := ComputeCrc32(entryCrc, part);
      if file {
        DoneUpdate(entries, current, fed + part, outputs, writeOutput, Some(outputs[current].value + part));
        outputs := outputs[current := Some(outputs[current].value + part)];
      }
      entryWritten := entryWritten + |part|;
      totalWritten := totalWritten + |part|;
      fed := fed + part;
    }

    /** split_writer_chunk: accepts exactly when the bytes so far fit and the
        entries they complete have the right CRC. */
    method Chunk(data: seq<uint8>) returns (ok: bool)
      requires Valid() && (Settled() || fed == [])
      modifies this
      ensures ok <==> Acceptable(entries, old(fed) + data)
      ensures ok ==> Valid() && Settled() && fed == old(fed) + data
    {
      hide CrcRight, Complete, DonePart, Start, Crc32, Acceptable;
      ghost var before := fed;
      ok := AdvanceEmpty();
      if !ok {
        NotAcceptable(entries, before, data);
        return;
      }
      var pos: nat := 0;
      while pos < |data|
        invariant pos <= |data| && Valid() && fed == before + data[..pos]
        invariant current < |entries| && entries[current].size > 0 ==> entryWritten < entries[current].size
        decreases |data| - pos + |entries| - current
      {
        if current >= |entries| {
          TooMany(entries, before + data);
          return false;
        }
        StartEntry();
        var remaining := entries[current].size - entryWritten;
        var part := |data| - pos;
        if part > remaining {
          part := remaining;
        }
        if part == 0 {
          ghost var i := current;
          ok := FinishEntry();
          if !ok {
            CompleteAt(entries, i, fed);
            RestNotAcceptable(entries, before, data, pos, i);
            return;
          }
          continue;
        }
        TakePart(data[pos..pos + part]);
        assert before + data[..pos + part] == before + data[..pos] + data[pos..pos + part];
        pos := pos + part;
        if entryWritten == entries[current].size {
          ghost var i := current;
          ok := FinishEntry();
          if !ok {
            CompleteAt(entries, i, fed);
            RestNotAcceptable(entries, before, data, pos, i);
            return;
          }
        }
      }
      assert data[..pos] == data;
      ok := AdvanceEmpty();
    }

    /** split_writer_finish. */
    method Finish() returns (ok: bool)
      requires Valid() && (Settled() || fed == [])
      modifies this
      ensures ok <==> Acceptable(entries, fed) && |fed| == Total(entries)
      ensures ok ==> Valid() && current == |entries|
      ensures fed == old(fed)
    {
      hide CrcRight, DonePart, Start, Crc32, Acceptable;
      ok := AdvanceEmpty();
      if !ok {
        return;
      }
      StartNext(entries);
      if current != |entries| {
        StartMonotone(entries, current + 1, |entries|);
        return false;
      }
      return true;
    }
  }

  lemma CrcOfNothing()
    ensures Crc32(0, []) == 0
  {
    OnesTwice(0);
  }

  lemma CompleteAt(entries: seq<Entry>, i: nat, fed: seq<uint8>)
    requires i < |entries| && Start(entries, i + 1) == |fed|
    ensures Complete(entries, i, fed)
  {}

  lemma TooMany(entries: seq<Entry>, fed: seq<uint8>)
    requires |fed| > Start(entries, |entries|)
    ensures !Acceptable(entries, fed)
  {}

  lemma WrongCrc(entries: seq<Entry>, i: nat, fed: seq<uint8>)
    requires i < |entries| && Start(entries, i + 1) == |fed| && !CrcRight(entries, i, fed)
    ensures !Acceptable(entries, fed)
  {
    assert Complete(entries, i, fed);
  }

  /** Entries from `current` on are not complete when it has bytes to come. */
  lemma NothingMoreComplete(entries: seq<Entry>, current: nat, fed: seq<uint8>)
    requires current <= |entries|
    requires current < |entries| ==> |fed| < Start(entries, current + 1)
    ensures forall i :: current <= i < |entries| ==> !Complete(entries, i, fed)
  {
    forall i | current <= i < |entries|
      ensures !Complete(entries, i, fed)
    {
      StartMonotone(entries, current + 1, i + 1);
    }
  }

  lemma NotAcceptable(entries: seq<Entry>, a: seq<uint8>, b: seq<uint8>)
    ensures !Acceptable(entries, a) ==> !Acceptable(entries, a + b)
  {
    if Acceptable(entries, a + b) {
      AcceptableEarlier(entries, a, b);
    }
  }

  lemma RestNotAcceptable(entries: seq<Entry>, before: seq<uint8>, data: seq<uint8>, pos: nat, i: nat)
    requires pos <= |data| && i < |entries| && Complete(entries, i, before + data[..pos])
    requires !CrcRight(entries, i, before + data[..pos])
    ensures !Acceptable(entries, before + data)
  {
    hide CrcRight;
    assert before + data == before + data[..pos] + data[pos..];
    NotAcceptable(entries, before + data[..pos], data[pos..]);
  }

  lemma {:induction false} JoinedPrefix(chunks: seq<seq<uint8>>, n: nat)
    requires n <= |chunks|
    ensures Joined(chunks[..n]) <= Joined(chunks)
    decreases |chunks| - n
  {
    if n == |chunks| {
      assert chunks[..n] == chunks;
    } else {
      JoinedPrefix(chunks, n + 1);
      assert chunks[..n + 1][..n] == chunks[..n];
    }
  }

  /** A whole folder, cut into chunks in any way: it is accepted exactly when
      its length is the sum of the sizes and every wanted entry's CRC is right,
      and then entry i holds the slice at its offset. */
  method SplitFolder(entries: seq<Entry>, writeOutput: bool, chunks: seq<seq<uint8>>)
    returns (ok: bool, outputs: seq<Option<seq<uint8>>>)
    requires Total(entries) <= MAX_TOTAL
    ensures ok <==> |Joined(chunks)| == Total(entries)
                    && forall i :: 0 <= i < |entries| ==>
                        Complete(entries, i, Joined(chunks)) && CrcRight(entries, i, Joined(chunks))
    ensures ok ==> |outputs| == |entries|
    ensures ok ==> forall i :: 0 <= i < |entries| ==>
              Complete(entries, i, Joined(chunks)) && outputs[i] == Output(entries, i, Joined(chunks), writeOutput)
  {
    hide CrcRight, Complete, Output, Acceptable, DonePart, Start, Crc32, Joined;
    JoinedSteps(chunks);
    AcceptedMeans(entries, Joined(chunks));
    var w := new Writer(entries, writeOutput);
    outputs := [];
    for n := 0 to |chunks|
      invariant w.Valid() && (w.Settled() || w.fed == []) && w.entries == entries && w.writeOutput == writeOutput
      invariant w.fed == Joined(chunks[..n])
    {
      ok := w.Chunk(chunks[n]);
      if !ok {
        JoinedPrefix(chunks, n + 1);
        var rest := Joined(chunks)[|Joined(chunks[..n + 1])|..];
        NotAcceptable(entries, Joined(chunks[..n + 1]), rest);
        assert Joined(chunks) == Joined(chunks[..n + 1]) + rest;
        return;
      }
    }
    ok := w.Finish();
    outputs := w.outputs;
    if ok {
      AllDone(entries, w.fed, outputs, writeOutput);
    }
  }

  lemma JoinedSteps(chunks: seq<seq<uint8>>)
    ensures Joined(chunks[..0]) == [] && chunks[..|chunks|] == chunks
    ensures forall n :: 0 <= n < |chunks| ==> Joined(chunks[..n]) + chunks[n] == Joined(chunks[..n + 1])
  {
    forall n | 0 <= n < |chunks|
      ensures Joined(chunks[..n]) + chunks[n] == Joined(chunks[..n + 1])
    {
      assert chunks[..n + 1][..n] == chunks[..n];
    }
  }

  lemma AllDone(entries: seq<Entry>, fed: seq<uint8>, outputs: seq<Option<seq<uint8>>>, writeOutput: bool)
    requires DonePart(entries, |entries|, fed, outputs, writeOutput)
    ensures |outputs| == |entries|
    ensures forall i :: 0 <= i < |entries| ==>
              Complete(entries, i, fed) && CrcRight(entries, i, fed)
                  && outputs[i] == Output(entries, i, fed, writeOutput)
  {}

  /** Acceptance in terms of the whole folder. */
  lemma AcceptedMeans(entries: seq<Entry>, fed: seq<uint8>)
    ensures Acceptable(entries, fed) && |fed| == Total(entries)
            <==> |fed| == Total(entries)
                 && forall i :: 0 <= i < |entries| ==> Complete(entries, i, fed) && CrcRight(entries, i, fed)
  {
    hide CrcRight;
    forall i | 0 <= i < |entries|
      ensures |fed| == Total(entries) ==> Complete(entries, i, fed)
    {
      StartMonotone(entries, i + 1, |entries|);
    }
  }
}
