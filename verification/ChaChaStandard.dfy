/** ChaCha20 and its construction with Poly1305 in the words of RFC 8439: the
    bytes the block function starts from, its twenty rounds place by place, and
    what is authenticated. */
module ChaChaStandard {
  import opened Words
  import opened ModArith
  import opened Bitwise
  import opened ChaCha20
  import opened Poly1305Spec
  import opened ChaChaPoly

  // ----- the initial state -----

  lemma {:induction false} BytesOfAppend(a: seq<uint32>, b: seq<uint32>)
    ensures BytesOf(a + b) == BytesOf(a) + BytesOf(b)
  {
    hide Bytes32;
    if b == [] {
      assert a + b == a;
    } else {
      BytesOfAppend(a, b[..|b| - 1]);
      assert (a + b)[..|a + b| - 1] == a + b[..|b| - 1];
    }
  }

  lemma WordBytes(b: seq<uint8>, i: nat)
    requires i + 4 <= |b|
    ensures Bytes32(Load32(b, i)) == b[i..i + 4]
  {
    hide Bytes32, Load32, LeValue;
    LeValueInjective(Bytes32(Load32(b, i)), b[i..i + 4]);
  }

  lemma LastWord(b: seq<uint8>)
    requires |b| % 4 == 0 && b != []
    ensures |b[..|b| - 4]| % 4 == 0 && WordsOf(b) == WordsOf(b[..|b| - 4]) + [Load32(b, |b| - 4)]
  {
    hide Load32;
    var n := |b| - 4;
    var front := b[..n];
    forall i | 0 <= i < n / 4
      ensures WordsOf(b)[i] == WordsOf(front)[i]
    {
      assert b[4 * i..4 * i + 4] == front[4 * i..4 * i + 4];
      SameWord(b, front, 4 * i);
    }
  }

  lemma {:induction false} BytesOfWords(b: seq<uint8>)
    requires |b| % 4 == 0
    ensures BytesOf(WordsOf(b)) == b
  {
    hide Bytes32, Load32, BytesOf, WordsOf;
    if b == [] {
      NoBytes(b);
    } else {
      var n := |b| - 4;
      LastWord(b);
      BytesOfWords(b[..n]);
      BytesOfAppend(WordsOf(b[..n]), [Load32(b, n)]);
      OneWord(Load32(b, n));
      WordBytes(b, n);
    }
  }

  lemma NoBytes(b: seq<uint8>)
    requires b == []
    ensures BytesOf(WordsOf(b)) == b
  {}

  lemma SameWord(a: seq<uint8>, b: seq<uint8>, i: nat)
    requires i + 4 <= |a| && i + 4 <= |b| && a[i..i + 4] == b[i..i + 4]
    ensures Load32(a, i) == Load32(b, i)
  {}

  lemma OneWord(w: uint32)
    ensures BytesOf([w]) == Bytes32(w)
  {
    hide Bytes32;
    assert [w][..0] == [] && [] + Bytes32(w) == Bytes32(w);
  }

  lemma WordSpells(w: uint32, text: string)
    requires |text| == 4 && forall i :: 0 <= i < 4 ==> text[i] as int < 0x100
    requires w as int == text[0] as int + 0x100 * text[1] as int + 0x1_0000 * text[2] as int
             + 0x100_0000 * text[3] as int
    ensures BytesOf([w]) == Ascii(text)
  {
    hide Bytes32, BytesOf;
    OneWord(w);
    LeValue4(Ascii(text));
    LeValueInjective(Bytes32(w), Ascii(text));
  }

  lemma ConstantBytes()
    ensures BytesOf(CONSTANTS) == Ascii("expand 32-byte k")
  {
    hide BytesOf;
    var c := CONSTANTS;
    WordSpells(c[0], "expa");
    WordSpells(c[1], "nd 3");
    WordSpells(c[2], "2-by");
    WordSpells(c[3], "te k");
    FourWords(c);
    assert Ascii("expand 32-byte k") == Ascii("expa") + Ascii("nd 3") + Ascii("2-by") + Ascii("te k");
  }

  lemma FourWords(c: seq<uint32>)
    requires |c| == 4
    ensures BytesOf(c) == BytesOf([c[0]]) + BytesOf([c[1]]) + BytesOf([c[2]]) + BytesOf([c[3]])
  {
    hide BytesOf;
    assert c == [c[0]] + [c[1]] + [c[2]] + [c[3]];
    BytesOfAppend([c[0]] + [c[1]] + [c[2]], [c[3]]);
    BytesOfAppend([c[0]] + [c[1]], [c[2]]);
    BytesOfAppend([c[0]], [c[1]]);
  }

  /** Section 2.3: the state starts from a text, the key, the counter and the
      nonce, every word low byte first. */
  lemma InitialBytes(key: seq<uint8>, nonce: seq<uint8>, counter: uint32)
    requires |key| == 32 && |nonce| == 12
    ensures BytesOf(InitialState(key, nonce, counter))
            == Ascii("expand 32-byte k") + key + Bytes32(counter) + nonce
  {
    hide BytesOf, WordsOf, Bytes32, Ascii;
    BytesOfAppend(CONSTANTS + WordsOf(key) + [counter], WordsOf(nonce));
    BytesOfAppend(CONSTANTS + WordsOf(key), [counter]);
    BytesOfAppend(CONSTANTS, WordsOf(key));
    ConstantBytes();
    BytesOfWords(key);
    OneWord(counter);
    BytesOfWords(nonce);
  }

  // ----- the rounds -----

  /** Section 2.3: the four quarter rounds of round i, counted from zero; down
      the columns in even rounds, along the diagonals in odd ones. */
  function Round(s: State, i: nat): State {
    if i % 2 == 0 then
      QuarterAt(QuarterAt(QuarterAt(QuarterAt(s, 0, 4, 8, 12), 1, 5, 9, 13), 2, 6, 10, 14), 3, 7, 11, 15)
    else
      QuarterAt(QuarterAt(QuarterAt(QuarterAt(s, 0, 5, 10, 15), 1, 6, 11, 12), 2, 7, 8, 13), 3, 4, 9, 14)
  }

  function Rounds(s: State, n: nat): State {
    if n == 0 then s else Round(Rounds(s, n - 1), n - 1)
  }

  lemma {:induction false} DoubleRoundsAreRounds(s: State, n: nat)
    ensures DoubleRounds(s, n) == Rounds(s, 2 * n)
  {
    hide QuarterAt, ColumnRound, TurnRows, TurnRowsBack;
    if n > 0 {
      DoubleRoundsAreRounds(s, n - 1);
      var t := Rounds(s, 2 * n - 2);
      FourColumns(t);
      FourDiagonals(ColumnRound(t));
      assert Rounds(s, 2 * n - 1) == Round(t, 2 * n - 2);
    }
  }

  /** The block function: twenty rounds, the initial state added word by word,
      the sum serialized. */
  lemma BlockIsTwentyRounds(key: seq<uint8>, nonce: seq<uint8>, counter: uint32, n: nat)
    requires |key| == 32 && |nonce| == 12 && n == 20
    ensures var s := InitialState(key, nonce, counter);
      Block(key, nonce, counter) == BytesOf(AddStates(Rounds(s, n), s))
  {
    hide BytesOf, Rounds, DoubleRounds, InitialState, AddStates;
    DoubleRoundsAreRounds(InitialState(key, nonce, counter), 10);
  }

  /** A rotation moves bit i to bit i + count, around the word. */
  lemma RotlBits(x: uint32, count: nat, i: nat)
    requires (count == 16 || count == 12 || count == 8 || count == 7) && i < 32
    ensures Bit(Rotl(x, count) as nat, (i + count) % 32) == Bit(x as nat, i)
  {
    var y, rest := Rotl(x, count) as nat, 32 - count;
    RotlParts(x, count);
    hide Rotl, Bit, Pow;
    if i < rest {
      ModSmall(i + count, 32);
      BitOfQuotient(y, count, i);
      BitOfRemainder(x as nat, rest, i);
    } else {
      DivModUnique(i + count, 32, 1, i - rest);
      BitOfRemainder(y, count, i - rest);
      BitOfQuotient(x as nat, rest, i - rest);
    }
  }

  /** The upper and the lower part of a rotated word. */
  lemma RotlParts(x: uint32, count: nat)
    requires count == 16 || count == 12 || count == 8 || count == 7
    ensures Pow(2, count) > 0 && Pow(2, 32 - count) > 0
    ensures Rotl(x, count) as nat / Pow(2, count) == x as nat % Pow(2, 32 - count)
    ensures Rotl(x, count) as nat % Pow(2, count) == x as nat / Pow(2, 32 - count)
  {
    Powers(2);
    hide Pow;
    var up, down := Pow(2, count), Pow(2, 32 - count);
    DivModUnique(Rotl(x, count) as int, up, x as int % down, x as int / down);
  }

  lemma Powers(b: int)
    requires b == 2
    ensures Pow(b, 16) == 0x1_0000 && Pow(b, 12) == 0x1000 && Pow(b, 8) == 0x100 && Pow(b, 7) == 0x80
    ensures Pow(b, 20) == 0x10_0000 && Pow(b, 24) == 0x100_0000 && Pow(b, 25) == 0x200_0000
  {
    assert Pow(b, 4) == 16 && Pow(b, 3) == 8 && Pow(b, 1) == 2;
    hide Pow;
    PowAdd(b, 4, 3);
    PowAdd(b, 4, 4);
    PowAdd(b, 8, 4);
    PowAdd(b, 8, 8);
    PowAdd(b, 16, 4);
    PowAdd(b, 16, 8);
    PowAdd(b, 24, 1);
  }

  // ----- the cipher -----

  /** Section 2.4: sixty-four bytes at a time, the last ones possibly fewer, the
      counter going up by one for each block. */
  function Chacha20(key: seq<uint8>, counter: uint32, nonce: seq<uint8>, data: seq<uint8>): (r: seq<uint8>)
    requires |key| == 32 && |nonce| == 12
    ensures |r| == |data|
    decreases |data|
  {
    var stream := Block(key, nonce, counter);
    if |data| <= 64 then XorSeq(data, stream[..|data|])
    else
      XorSeq(data[..64], stream)
      + Chacha20(key, ((counter as int + 1) % 0x1_0000_0000) as uint32, nonce, data[64..])
  }

  lemma CryptFirst(key: seq<uint8>, counter: uint32, nonce: seq<uint8>, data: seq<uint8>)
    requires |key| == 32 && |nonce| == 12 && |data| <= 64
    ensures Crypt(data, key, nonce, counter) == XorSeq(data, Block(key, nonce, counter)[..|data|])
  {
    hide Block, Xor8;
    CounterNext(counter, 0);
    hide CounterAt;
  }

  lemma CryptRest(key: seq<uint8>, counter: uint32, nonce: seq<uint8>, data: seq<uint8>)
    requires |key| == 32 && |nonce| == 12 && |data| > 64
    ensures Crypt(data, key, nonce, counter)
            == Crypt(data[..64], key, nonce, counter) + Crypt(data[64..], key, nonce, CounterAt(counter, 1))
  {
    hide Block, Xor8, CounterAt;
    forall i | 64 <= i < |data|
      ensures Crypt(data, key, nonce, counter)[i] == Crypt(data[64..], key, nonce, CounterAt(counter, 1))[i - 64]
    {
      CountersAdd(counter, (i - 64) / 64);
      assert i / 64 == (i - 64) / 64 + 1 && i % 64 == (i - 64) % 64;
    }
  }

  lemma CountersAdd(start: uint32, n: nat)
    ensures CounterAt(CounterAt(start, 1), n) == CounterAt(start, n + 1)
  {
    var m := 0x1_0000_0000;
    CongMod(start as int + 1, m);
    CongAdd((start as int + 1) % m, start as int + 1, n, n, m);
  }

  /** The cipher as it is computed is that of the standard. */
  lemma {:induction false} CryptIsChacha20(key: seq<uint8>, counter: uint32, nonce: seq<uint8>, data: seq<uint8>)
    requires |key| == 32 && |nonce| == 12
    ensures Crypt(data, key, nonce, counter) == Chacha20(key, counter, nonce, data)
    decreases |data|
  {
    hide Block, Crypt, XorSeq;
    if |data| <= 64 {
      CryptFirst(key, counter, nonce, data);
    } else {
      CryptRest(key, counter, nonce, data);
      CryptFirst(key, counter, nonce, data[..64]);
      CryptIsChacha20(key, CounterAt(counter, 1), nonce, data[64..]);
      var stream := Block(key, nonce, counter);
      assert stream[..64] == stream;
    }
  }

  // ----- the construction -----

  /** Section 2.8: what is authenticated, each part filled up to whole blocks and
      the two lengths as 64-bit numbers. */
  function MacInput(aad: seq<uint8>, ciphertext: seq<uint8>): seq<uint8> {
    aad + ZeroPad(|aad|) + ciphertext + ZeroPad(|ciphertext|) + LittleEndian(|aad|, 8) + LittleEndian(|ciphertext|, 8)
  }

  lemma Le64Is(n: nat)
    requires n < 0x1_0000_0000_0000_0000
    ensures Le64(n) == LittleEndian(n, 8)
  {
    assert Pow(0x100, 8) == 0x1_0000_0000_0000_0000;
    hide Pow, LeValue, LittleEndian;
    LittleEndianValue(n, 8);
    ModSmall(n, 0x1_0000_0000_0000_0000);
    LeValueInjective(Le64(n), LittleEndian(n, 8));
  }

  /** The tag is Poly1305 of it under the first half of key stream block 0. */
  lemma AeadTagIs(aad: seq<uint8>, ciphertext: seq<uint8>, key: seq<uint8>, nonce: seq<uint8>)
    requires |aad| < 0x1_0000_0000 && |ciphertext| < 0x1_0000_0000 && |key| == 32 && |nonce| == 12
    ensures AeadTag(aad, ciphertext, key, nonce) == Tag(MacInput(aad, ciphertext), Block(key, nonce, 0)[..32])
  {
    hide Pad16, ZeroPad, Le64, LittleEndian, Tag, Block;
    PadIsZeroPad(aad);
    PadIsZeroPad(ciphertext);
    Le64Is(|aad|);
    Le64Is(|ciphertext|);
    assert MacData(aad, ciphertext) == MacInput(aad, ciphertext);
  }
}
