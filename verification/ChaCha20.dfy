/** The ChaCha20 stream cipher (tools/zz9k-crypto-soft.c) against section 2 of
    RFC 8439. */
module ChaCha20 {
  import opened Words
  import opened ModArith
  import opened Bitwise

  // ----- the block function of section 2.3, row by row -----

  /** `+` on 32-bit words. */
  function Add32(x: uint32, y: uint32): uint32 {
    ((x as int + y as int) % 0x1_0000_0000) as uint32
  }

  /** A rotation to the left by `count`: the top bits come in at the bottom. */
  function Rotl(x: uint32, count: nat): uint32
    requires count == 16 || count == 12 || count == 8 || count == 7
  {
    if count == 16 then (x as int % 0x1_0000 * 0x1_0000 + x as int / 0x1_0000) as uint32
    else if count == 12 then (x as int % 0x10_0000 * 0x1000 + x as int / 0x10_0000) as uint32
    else if count == 8 then (x as int % 0x100_0000 * 0x100 + x as int / 0x100_0000) as uint32
    else (x as int % 0x200_0000 * 0x80 + x as int / 0x200_0000) as uint32
  }

  /** Section 2.1 on four words. */
  function Quarter(a: uint32, b: uint32, c: uint32, d: uint32): (uint32, uint32, uint32, uint32) {
    var a1 := Add32(a, b);
    var d1 := Rotl(Xor32(d, a1), 16);
    var c1 := Add32(c, d1);
    var b1 := Rotl(Xor32(b, c1), 12);
    var a2 := Add32(a1, b1);
    var d2 := Rotl(Xor32(d1, a2), 8);
    var c2 := Add32(c1, d2);
    var b2 := Rotl(Xor32(b1, c2), 7);
    (a2, b2, c2, d2)
  }

  /** What one half of a quarter round does to its four words. */
  function Half(a: uint32, b: uint32, c: uint32, d: uint32, first: nat, second: nat): (uint32, uint32, uint32, uint32)
    requires first in {16, 12, 8, 7} && second in {16, 12, 8, 7}
  {
    var a1 := Add32(a, b);
    var d1 := Rotl(Xor32(d, a1), first);
    var c1 := Add32(c, d1);
    (a1, Rotl(Xor32(b, c1), second), c1, d1)
  }

  /** Four rows of four words. */
  type State = s: seq<uint32> | |s| == 16 witness seq(16, _ => 0)

  function Column(s: State, j: nat): (uint32, uint32, uint32, uint32)
    requires j < 4
  {
    Quarter(s[j], s[4 + j], s[8 + j], s[12 + j])
  }

  /** A quarter round down each column. */
  function ColumnRound(s: State): State {
    var c0, c1, c2, c3 := Column(s, 0), Column(s, 1), Column(s, 2), Column(s, 3);
    [c0.0, c1.0, c2.0, c3.0, c0.1, c1.1, c2.1, c3.1, c0.2, c1.2, c2.2, c3.2, c0.3, c1.3, c2.3, c3.3]
  }

  /** Row i turned i places to the left: the diagonals become columns. */
  function TurnRows(s: State): State {
    [s[0], s[1], s[2], s[3], s[5], s[6], s[7], s[4], s[10], s[11], s[8], s[9], s[15], s[12], s[13], s[14]]
  }

  function TurnRowsBack(s: State): State {
    [s[0], s[1], s[2], s[3], s[7], s[4], s[5], s[6], s[10], s[11], s[8], s[9], s[13], s[14], s[15], s[12]]
  }

  /** A column round, then a diagonal round. */
  function DoubleRound(s: State): State {
    TurnRowsBack(ColumnRound(TurnRows(ColumnRound(s))))
  }

  function DoubleRounds(s: State, n: nat): State {
    if n == 0 then s else DoubleRound(DoubleRounds(s, n - 1))
  }

  /** The words of a byte string, four bytes each. */
  function WordsOf(b: seq<uint8>): (w: seq<uint32>)
    requires |b| % 4 == 0
    ensures |w| == |b| / 4
    ensures forall i :: 0 <= i < |w| ==> w[i] == Load32(b, 4 * i)
  {
    seq(|b| / 4, i requires 0 <= i < |b| / 4 => Load32(b, 4 * i))
  }

  function BytesOf(w: seq<uint32>): (b: seq<uint8>)
    ensures |b| == 4 * |w|
  {
    if w == [] then [] else BytesOf(w[..|w| - 1]) + Bytes32(w[|w| - 1])
  }

  const CONSTANTS: seq<uint32> := [0x61707865, 0x3320646e, 0x79622d32, 0x6b206574]

  function InitialState(key: seq<uint8>, nonce: seq<uint8>, counter: uint32): State
    requires |key| == 32 && |nonce| == 12
  {
    CONSTANTS + WordsOf(key) + [counter] + WordsOf(nonce)
  }

  function AddStates(a: State, b: State): State {
    seq(16, i requires 0 <= i < 16 => Add32(a[i], b[i]))
  }

  /** Sixty-four bytes of key stream. */
  function Block(key: seq<uint8>, nonce: seq<uint8>, counter: uint32): (b: seq<uint8>)
    requires |key| == 32 && |nonce| == 12
    ensures |b| == 64
  {
    var s := InitialState(key, nonce, counter);
    BytesOf(AddStates(DoubleRounds(s, 10), s))
  }

  /** The block counter is a 32-bit word and wraps. */
  function CounterAt(counter: uint32, n: nat): uint32 {
    ((counter as int + n) % 0x1_0000_0000) as uint32
  }

  /** Byte i of the key stream. */
  function KeyByte(key: seq<uint8>, nonce: seq<uint8>, counter: uint32, i: nat): uint8
    requires |key| == 32 && |nonce| == 12
  {
    Block(key, nonce, CounterAt(counter, i / 64))[i % 64]
  }

  /** Section 2.4: data exclusive-or key stream, byte by byte. */
  function Crypt(data: seq<uint8>, key: seq<uint8>, nonce: seq<uint8>, counter: uint32): (r: seq<uint8>)
    requires |key| == 32 && |nonce| == 12
    ensures |r| == |data|
  {
    seq(|data|, i requires 0 <= i < |data| => Xor8(data[i], KeyByte(key, nonce, counter, i)))
  }

  /** The cipher undoes itself. */
  lemma CryptTwice(data: seq<uint8>, key: seq<uint8>, nonce: seq<uint8>, counter: uint32)
    requires |key| == 32 && |nonce| == 12
    ensures Crypt(Crypt(data, key, nonce, counter), key, nonce, counter) == data
  {
    hide Xor8, KeyByte;
    var c := Crypt(data, key, nonce, counter);
    var d := Crypt(c, key, nonce, counter);
    forall i | 0 <= i < |data|
      ensures d[i] == data[i]
    {
      XorTwice(data[i], KeyByte(key, nonce, counter, i));
    }
  }

  // ----- a quarter round loses nothing -----

  function Up(count: nat): (f: int)
    requires count == 16 || count == 12 || count == 8 || count == 7
    ensures f > 0
  {
    if count == 16 then 0x1_0000 else if count == 12 then 0x1000 else if count == 8 then 0x100 else 0x80
  }

  /** The rotation back. */
  function Rotr(y: uint32, count: nat): uint32
    requires count == 16 || count == 12 || count == 8 || count == 7
  {
    var up := Up(count);
    var down := 0x1_0000_0000 / up;
    MulMono(y as int % up, up - 1, down);
    (y as int % up * down + y as int / up) as uint32
  }

  lemma RotateBack(x: uint32, count: nat)
    requires count == 16 || count == 12 || count == 8 || count == 7
    ensures Rotr(Rotl(x, count), count) == x
  {
    var up := Up(count);
    var down := 0x1_0000_0000 / up;
    DivModUnique(Rotl(x, count) as int, up, x as int % down, x as int / down);
  }

  /** x += y; z = (z ^ x) turned left: one of the four steps. */
  function Mix(x: uint32, y: uint32, z: uint32, count: nat): (uint32, uint32)
    requires count == 16 || count == 12 || count == 8 || count == 7
  {
    (Add32(x, y), Rotl(Xor32(z, Add32(x, y)), count))
  }

  function Unmix(x: uint32, y: uint32, z: uint32, count: nat): (uint32, uint32)
    requires count == 16 || count == 12 || count == 8 || count == 7
  {
    (((x as int - y as int) % 0x1_0000_0000) as uint32, Xor32(Rotr(z, count), x))
  }

  lemma MixInverts(x: uint32, y: uint32, z: uint32, count: nat)
    requires count == 16 || count == 12 || count == 8 || count == 7
    ensures var m := Mix(x, y, z, count); Unmix(m.0, y, m.1, count) == (x, z)
  {
    hide Rotl, Rotr, XorBits;
    var sum := Add32(x, y);
    RotateBack(Xor32(z, sum), count);
    WordPowers();
    XorBitsTwice(z as nat, sum as nat, 32);
  }

  function QuarterBack(a: uint32, b: uint32, c: uint32, d: uint32): (uint32, uint32, uint32, uint32) {
    var (c1, b1) := Unmix(c, d, b, 7);
    var (a1, d1) := Unmix(a, b1, d, 8);
    var (c0, b0) := Unmix(c1, d1, b1, 12);
    var (a0, d0) := Unmix(a1, b0, d1, 16);
    (a0, b0, c0, d0)
  }

  /** No two inputs of a quarter round share an output. */
  lemma QuarterInverts(a: uint32, b: uint32, c: uint32, d: uint32)
    ensures var q := Quarter(a, b, c, d); QuarterBack(q.0, q.1, q.2, q.3) == (a, b, c, d)
  {
    hide Rotl, Rotr, Unmix, Add32, Xor32;
    var (a1, d1) := Mix(a, b, d, 16);
    var (c1, b1) := Mix(c, d1, b, 12);
    var (a2, d2) := Mix(a1, b1, d1, 8);
    MixInverts(a, b, d, 16);
    MixInverts(c, d1, b, 12);
    MixInverts(a1, b1, d1, 8);
    MixInverts(c1, d2, b1, 7);
  }

  // ----- the code -----

  /** zz9k_soft_rotl32: the two shifts leave disjoint bits, so `|` adds. */
  function Rotl32(value: uint32, count: nat): (r: uint32)
    requires count == 16 || count == 12 || count == 8 || count == 7
    ensures r == Rotl(value, count)
  {
    var up := Up(count);
    var down := Down(count);
    ShiftUp(value as int, up, down);
    Shl32(value, up) + (value as int / down) as uint32
  }

  function Down(count: nat): (f: int)
    requires count == 16 || count == 12 || count == 8 || count == 7
    ensures f > 0 && Up(count) * f == 0x1_0000_0000
  {
    if count == 16 then 0x1_0000 else if count == 12 then 0x10_0000 else if count == 8 then 0x100_0000 else 0x200_0000
  }

  lemma ShiftUp(x: int, up: int, down: int)
    requires 0 <= x < up * down && up > 0 && down > 0 && up * down == 0x1_0000_0000
    ensures x * up % 0x1_0000_0000 == x % down * up
  {
    var q, r := x / down, x % down;
    assert x == down * q + r;
    assert x * up == q * (up * down) + r * up;
    MulMono(r, down - 1, up);
    DivModUnique(x * up, 0x1_0000_0000, q, r * up);
  }

  /** ZZ9K_SOFT_QUARTERROUND on four places of the working state. */
  method QuarterRound(w: array<uint32>, a: nat, b: nat, c: nat, d: nat)
    requires w.Length == 16 && a < 16 && b < 16 && c < 16 && d < 16
    requires a != b && a != c && a != d && b != c && b != d && c != d
    modifies w
    ensures w[..] == QuarterAt(old(w[..]), a, b, c, d)
  {
    hide Rotl, Add32, Xor32;
    HalfRound(w, a, b, c, d, 16, 12);
    HalfRound(w, a, b, c, d, 8, 7);
  }

  /** Half of the macro: it is the same twice but for the rotations. */
  method HalfRound(w: array<uint32>, a: nat, b: nat, c: nat, d: nat, first: nat, second: nat)
    requires w.Length == 16 && a < 16 && b < 16 && c < 16 && d < 16
    requires a != b && a != c && a != d && b != c && b != d && c != d
    requires first in {16, 12, 8, 7} && second in {16, 12, 8, 7}
    modifies w
    ensures var (a1, b1, c1, d1) := Half(old(w[a]), old(w[b]), old(w[c]), old(w[d]), first, second);
            w[..] == old(w[..])[a := a1][b := b1][c := c1][d := d1]
  {
    hide Rotl, Add32, Xor32;
    w[a] := Add32(w[a], w[b]);
    w[d] := Xor32(w[d], w[a]);
    w[d] := Rotl32(w[d], first);
    w[c] := Add32(w[c], w[d]);
    w[b] := Xor32(w[b], w[c]);
    w[b] := Rotl32(w[b], second);
  }

  /** A quarter round on four places. */
  function QuarterAt(s: State, a: nat, b: nat, c: nat, d: nat): State
    requires a < 16 && b < 16 && c < 16 && d < 16
  {
    var q := Quarter(s[a], s[b], s[c], s[d]);
    s[a := q.0][b := q.1][c := q.2][d := q.3]
  }

  lemma FourColumns(s: State)
    ensures QuarterAt(QuarterAt(QuarterAt(QuarterAt(s, 0, 4, 8, 12), 1, 5, 9, 13), 2, 6, 10, 14), 3, 7, 11, 15)
            == ColumnRound(s)
  {
    hide Quarter;
  }

  lemma FourDiagonals(s: State)
    ensures QuarterAt(QuarterAt(QuarterAt(QuarterAt(s, 0, 5, 10, 15), 1, 6, 11, 12), 2, 7, 8, 13), 3, 4, 9, 14)
            == TurnRowsBack(ColumnRound(TurnRows(s)))
  {
    hide Quarter;
  }

  /** zz9k_soft_chacha20_block. */
  method BlockBytes(out: array<uint8>, key: seq<uint8>, nonce: seq<uint8>, counter: uint32)
    requires out.Length == 64 && |key| == 32 && |nonce| == 12
    modifies out
    ensures out[..] == Block(key, nonce, counter)
  {
    hide InitialState, AddStates, DoubleRound, BytesOf;
    var state, work := new uint32[16], new uint32[16];
    SetUp(state, key, nonce, counter);
    for i := 0 to 16
      invariant work[..i] == state[..i] && state[..] == InitialState(key, nonce, counter)
    {
      work[i] := state[i];
    }
    assert work[..16] == work[..] && state[..16] == state[..];
    for i := 0 to 10
      invariant state[..] == InitialState(key, nonce, counter)
      invariant work[..] == DoubleRounds(InitialState(key, nonce, counter), i)
    {
      RunDoubleRound(work);
    }
    Serialize(out, work, state);
  }

  /** The first loops of the block function. */
  method SetUp(state: array<uint32>, key: seq<uint8>, nonce: seq<uint8>, counter: uint32)
    requires state.Length == 16 && |key| == 32 && |nonce| == 12
    modifies state
    ensures state[..] == InitialState(key, nonce, counter)
  {
    hide Load32;
    state[0], state[1], state[2], state[3] := 0x61707865, 0x3320646e, 0x79622d32, 0x6b206574;
    for i := 0 to 8
      invariant state[..4] == CONSTANTS
      invariant state[4..4 + i] == WordsOf(key)[..i]
    {
      state[4 + i] := Load32(key, i * 4);
    }
    state[12] := counter;
    for i := 0 to 3
      invariant state[..4] == CONSTANTS && state[4..12] == WordsOf(key) && state[12] == counter
      invariant state[13..13 + i] == WordsOf(nonce)[..i]
    {
      state[13 + i] := Load32(nonce, i * 4);
    }
    assert state[..] == state[..4] + state[4..12] + [state[12]] + state[13..16];
  }

  /** Its last loop. */
  method Serialize(out: array<uint8>, work: array<uint32>, state: array<uint32>)
    requires out.Length == 64 && work.Length == 16 && state.Length == 16
    modifies out
    ensures out[..] == BytesOf(AddStates(work[..], state[..]))
  {
    hide Add32, Bytes32;
    ghost var sum := AddStates(work[..], state[..]);
    for i := 0 to 16
      invariant out[..4 * i] == BytesOf(sum[..i])
    {
      ghost var done := out[..4 * i];
      Store32(out, i * 4, Add32(work[i], state[i]));
      assert sum[..i + 1][..i] == sum[..i];
      assert out[..4 * (i + 1)] == done + Bytes32(sum[i]);
    }
    assert sum[..16] == sum && out[..64] == out[..];
  }

  /** One pass of the ten. */
  method RunDoubleRound(work: array<uint32>)
    requires work.Length == 16
    modifies work
    ensures work[..] == DoubleRound(old(work[..]))
  {
    hide ColumnRound, TurnRows, TurnRowsBack, QuarterAt;
    ghost var s := work[..];
    QuarterRound(work, 0, 4, 8, 12);
    QuarterRound(work, 1, 5, 9, 13);
    QuarterRound(work, 2, 6, 10, 14);
    QuarterRound(work, 3, 7, 11, 15);
    FourColumns(s);
    ghost var t := work[..];
    QuarterRound(work, 0, 5, 10, 15);
    QuarterRound(work, 1, 6, 11, 12);
    QuarterRound(work, 2, 7, 8, 13);
    QuarterRound(work, 3, 4, 9, 14);
    FourDiagonals(t);
  }

  /** The slice of `Crypt` that one block covers. */
  lemma CryptChunk(data: seq<uint8>, key: seq<uint8>, nonce: seq<uint8>, counter: uint32, n: nat, i: nat)
    requires |key| == 32 && |nonce| == 12 && i < 64 && n * 64 + i < |data|
    ensures Crypt(data, key, nonce, counter)[n * 64 + i]
            == Xor8(data[n * 64 + i], Block(key, nonce, CounterAt(counter, n))[i])
  {
    hide Block;
    assert (n * 64 + i) / 64 == n && (n * 64 + i) % 64 == i;
  }

  lemma CounterNext(counter: uint32, n: nat)
    ensures CounterAt(counter, 0) == counter && CounterAt(CounterAt(counter, n), 1) == CounterAt(counter, n + 1)
  {
    var m := 0x1_0000_0000;
    CongMod(counter as int + n, m);
    CongAdd((counter as int + n) % m, counter as int + n, 1, 1, m);
    ModSmall(counter as int, m);
  }

  /** zz9k_soft_chacha20_xor: `out` and `src` may be the same array. */
  method Xor(out: array<uint8>, src: array<uint8>, length: nat, key: seq<uint8>, nonce: seq<uint8>, counter: uint32)
    requires length <= out.Length && length <= src.Length && length < 0x1_0000_0000
    requires |key| == 32 && |nonce| == 12
    modifies out
    ensures out[..length] == Crypt(old(src[..length]), key, nonce, counter)
    ensures out[length..] == old(out[length..])
  {
    hide Block, Xor8, Crypt, KeyByte, CounterAt;
    var block := new uint8[64];
    CounterNext(counter, 0);
    var offset, n, count := 0, 0, counter;
    ghost var data := src[..length];
    ghost var want := Crypt(data, key, nonce, counter);
    while offset < length
      invariant offset <= length && (offset < length ==> offset == n * 64)
      invariant count == CounterAt(counter, n)
      invariant forall k :: 0 <= k < offset ==> out[k] == want[k]
      invariant forall k :: length <= k < out.Length ==> out[k] == old(out[k])
      invariant forall k :: offset <= k < length ==> src[k] == data[k]
      decreases length - offset
    {
      var chunk := length - offset;
      if chunk > 64 {
        chunk := 64;
      }
      BlockBytes(block, key, nonce, count);
      ghost var before := src[..length];
      XorChunk(out, src, offset, chunk, block[..]);
      forall k | offset <= k < offset + chunk
        ensures out[k] == want[k]
      {
        CryptChunk(data, key, nonce, counter, n, k - offset);
        assert before[k] == data[k];
      }
      offset := offset + chunk;
      CounterNext(counter, n);
      count := CounterAt(count, 1);
      n := n + 1;
    }
    assert out[..length] == want;
  }
}
