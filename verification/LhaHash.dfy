/** What the name hash of LHA batch extraction (tools/zz9k-archive.c) keeps
    apart, and which letters it takes for one another. */
module LhaHash {
  import opened Words
  import opened ModArith
  import opened Options
  import opened Bitwise
  import opened ArchiveNames
  import opened LhaCollisions
  import opened Paths

  // ----- letters -----

  /** The n-th letter of the alphabet in ASCII, capital or small. */
  predicate Letter(n: nat, c: uint8) {
    n < 26 && (c as int == 'A' as int + n || c as int == 'a' as int + n)
  }

  /** Two bytes fold to one exactly when they are the same byte or the two forms
      of one letter. */
  lemma LowerIdentifies(c: uint8, d: uint8)
    ensures Lower(c) == Lower(d) <==> c == d || exists n :: Letter(n, c) && Letter(n, d)
  {
    if Lower(c) == Lower(d) && c != d {
      var n := if c < d then c as nat - 0x41 else d as nat - 0x41;
      assert Letter(n, c) && Letter(n, d);
    }
  }

  /** So two names write the same file exactly when they have the same length,
      trailing slashes aside, and differ in nothing but the case of letters. */
  lemma SameFileIff(a: Output, b: Output)
    ensures var x, y := TrimSlashes(a.name), TrimSlashes(b.name);
      SameFile(a, b) <==> x != [] && |x| == |y| &&
                          forall i :: 0 <= i < |x| ==> x[i] == y[i] || exists n :: Letter(n, x[i]) && Letter(n, y[i])
  {
    hide Lower, Letter;
    var x, y := TrimSlashes(a.name), TrimSlashes(b.name);
    if |x| == |y| {
      forall i | 0 <= i < |x|
        ensures Fold(x)[i] == Fold(y)[i] <==> x[i] == y[i] || exists n :: Letter(n, x[i]) && Letter(n, y[i])
      {
        LowerIdentifies(x[i], y[i]);
      }
    } else {
      assert |Fold(x)| == |x| && |Fold(y)| == |y|;
    }
  }

  // ----- one step of the hash -----

  /** The inverse of the FNV prime modulo 2^32. */
  const FNV_INVERSE: nat := 0x359c_449b

  function Times(x: nat, p: nat, m: nat): nat
    requires m > 0
  {
    x * p % m
  }

  lemma InverseOfPrime()
    ensures Times(FNV_INVERSE, FNV_PRIME, 0x1_0000_0000) == 1
  {}

  /** Multiplying by a number that has an inverse loses nothing. */
  lemma TimesInjective(x: nat, y: nat, p: nat, inverse: nat, m: nat)
    requires m > 1 && x < m && y < m && Times(inverse, p, m) == 1 && Times(x, p, m) == Times(y, p, m)
    ensures x == y
  {
    Undone(x, p, inverse, m);
    Undone(y, p, inverse, m);
    CongMul(x * p, y * p, inverse, inverse, m);
  }

  lemma Undone(x: nat, p: nat, inverse: nat, m: nat)
    requires m > 1 && x < m && Times(inverse, p, m) == 1
    ensures x * p * inverse % m == x
  {
    ModSmall(1, m);
    CongMul(x, x, inverse * p, 1, m);
    assert x * p * inverse == x * (inverse * p);
    ModSmall(x, m);
  }

  lemma XorCommutes(a: nat, b: nat, n: nat)
    ensures XorBits(a, b, n) == XorBits(b, a, n)
  {
    if n > 0 {
      XorCommutes(a / 2, b / 2, n - 1);
    }
  }

  lemma MixIsTimes(h: uint32, c: uint8)
    ensures XorBits(h as nat, c as nat, 32) < 0x1_0000_0000
    ensures Mix(h, c) as nat == Times(XorBits(h as nat, c as nat, 32), FNV_PRIME, 0x1_0000_0000)
  {
    WordPowers();
  }

  lemma XorInjective(g: nat, h: nat, c: nat, d: nat, n: nat)
    requires g < Pow(2, n) && h < Pow(2, n) && c < Pow(2, n) && d < Pow(2, n)
    requires XorBits(g, c, n) == XorBits(h, d, n)
    ensures g == h <==> c == d
  {
    hide XorBits;
    XorBitsTwice(g, c, n);
    XorBitsTwice(h, d, n);
    XorCommutes(g, c, n);
    XorCommutes(h, d, n);
    XorBitsTwice(c, g, n);
    XorBitsTwice(d, h, n);
  }

  /** Different registers stay different under the same byte, and one register
      goes apart under different bytes. */
  lemma MixInjective(g: uint32, h: uint32, c: uint8, d: uint8)
    requires Mix(g, c) == Mix(h, d)
    ensures g == h <==> c == d
  {
    hide XorBits, Pow, Times, Mix;
    WordPowers();
    MixIsTimes(g, c);
    MixIsTimes(h, d);
    InverseOfPrime();
    TimesInjective(XorBits(g as nat, c as nat, 32), XorBits(h as nat, d as nat, 32), FNV_PRIME, FNV_INVERSE,
                   0x1_0000_0000);
    XorInjective(g as nat, h as nat, c as nat, d as nat, 32);
  }

  // ----- whole names -----

  /** Behind two beginnings the same bytes neither bring hashes together nor
      drive them apart. */
  lemma {:induction false} SameTail(a: seq<uint8>, b: seq<uint8>, tail: seq<uint8>)
    ensures HashOf(a + tail) == HashOf(b + tail) <==> HashOf(a) == HashOf(b)
  {
    hide Mix;
    if tail == [] {
      assert a + tail == a && b + tail == b;
    } else {
      var n := |tail| - 1;
      SameTail(a, b, tail[..n]);
      assert (a + tail)[..|a| + n] == a + tail[..n] && (b + tail)[..|b| + n] == b + tail[..n];
      var g, h := HashOf(a + tail[..n]), HashOf(b + tail[..n]);
      assert HashOf(a + tail) == Mix(g, tail[n]) && HashOf(b + tail) == Mix(h, tail[n]);
      if Mix(g, tail[n]) == Mix(h, tail[n]) {
        MixInjective(g, h, tail[n], tail[n]);
      }
    }
  }

  /** They differ in the byte at i and nowhere else. */
  predicate OneApart(x: seq<uint8>, y: seq<uint8>, i: nat) {
    |x| == |y| && i < |x| && x[i] != y[i] && x[..i] == y[..i] && x[i + 1..] == y[i + 1..]
  }

  /** Strings that differ in one byte have different hashes. */
  lemma OneApartHash(x: seq<uint8>, y: seq<uint8>, i: nat)
    requires OneApart(x, y, i)
    ensures HashOf(x) != HashOf(y)
  {
    hide Mix;
    var a, b := x[..i + 1], y[..i + 1];
    assert x == a + x[i + 1..] && y == b + x[i + 1..];
    SameTail(a, b, x[i + 1..]);
    assert a[..i] == x[..i] && b[..i] == y[..i];
    if HashOf(a) == HashOf(b) {
      MixInjective(HashOf(x[..i]), HashOf(x[..i]), x[i], y[i]);
    }
  }

  /** Entries whose names, folded, differ in one byte clash exactly when the two
      hashes are zero and one: the code stores one for zero. */
  lemma OneApartClash(a: Output, b: Output, j: nat, k: nat, i: nat)
    requires OneApart(Fold(TrimSlashes(a.name)), Fold(TrimSlashes(b.name)), i)
    ensures var g, h := HashOf(Fold(TrimSlashes(a.name))), HashOf(Fold(TrimSlashes(b.name)));
      Clash(SlotOf(Some(a), j), SlotOf(Some(b), k)) <==> (g == 0 && h == 1) || (g == 1 && h == 0)
  {
    hide HashOf, Fold;
    var x, y := TrimSlashes(a.name), TrimSlashes(b.name);
    OneApartHash(Fold(x), Fold(y), i);
    assert |x| == |y| && |x| > 0;
    assert !Parent(x, y) && !Parent(y, x);
  }

  lemma XorHalf(a: nat, b: nat, n: nat, rest: nat)
    requires n > 0 && rest == XorBits(a / 2, b / 2, n - 1)
    ensures XorBits(a, b, n) == (if a % 2 == b % 2 then 0 else 1) + 2 * rest
  {}

  lemma OffsetXorLetterA()
    ensures XorBits(0x811c_9dc5, 0x61, 32) == 0x811c_9da4
  {
    hide XorBits;
    WordPowers();
    PowAdd(2, 16, 8);
    XorCommutes(0x81_1c9d, 0, 24);
    XorBitsWithZero(0x81_1c9d, 24);
    XorHalf(0x102_393b, 0, 25, 0x81_1c9d);
    XorHalf(0x204_7277, 1, 26, 0x102_393b);
    XorHalf(0x408_e4ee, 3, 27, 0x204_7276);
    XorHalf(0x811_c9dc, 6, 28, 0x408_e4ed);
    XorHalf(0x1023_93b8, 12, 29, 0x811_c9da);
    XorHalf(0x2047_2771, 24, 30, 0x1023_93b4);
    XorHalf(0x408e_4ee2, 48, 31, 0x2047_2769);
    XorHalf(0x811c_9dc5, 97, 32, 0x408e_4ed2);
  }

  /** FNV-1a of the one letter a, as it is published. */
  lemma HashOfLetterA()
    ensures HashOf([0x61]) == 0xe40c_292c
  {
    hide XorBits;
    OffsetXorLetterA();
    WordPowers();
    assert HashOf([]) == FNV_OFFSET && [0x61 as uint8][..0] == [];
    assert HashOf([0x61]) == Mix(HashOf([]), 0x61);
  }

  // ----- directories on the way -----

  lemma {:induction false} SplitJoined(a: seq<uint8>, b: seq<uint8>)
    ensures Split(a + [SLASH] + b) == Split(a) + Split(b)
  {
    var s := a + [SLASH] + b;
    if a == [] {
      assert s[1..] == b;
    } else {
      var rest := a[1..] + [SLASH] + b;
      SplitJoined(a[1..], b);
      hide Split;
      assert s == [a[0]] + rest && a == [a[0]] + a[1..];
      SplitStep(a[0], rest);
      SplitStep(a[0], a[1..]);
      LongerFirst([a[0]], Split(a[1..]), Split(b));
    }
  }

  lemma LongerFirst(c: seq<uint8>, p: seq<seq<uint8>>, q: seq<seq<uint8>>)
    requires p != []
    ensures [c + (p + q)[0]] + (p + q)[1..] == ([c + p[0]] + p[1..]) + q
    ensures [[]] + (p + q) == ([[]] + p) + q
  {}

  lemma SameStart(x: seq<seq<uint8>>, y: seq<seq<uint8>>)
    requires [[]] + x < [[]] + y
    ensures x < y
  {
    assert ([[]] + x)[1..] == x && ([[]] + y)[1..] == y;
  }

  lemma SameFirstByte(c: uint8, d: uint8, x: seq<seq<uint8>>, y: seq<seq<uint8>>)
    requires x != [] && y != [] && [[c] + x[0]] + x[1..] < [[d] + y[0]] + y[1..]
    ensures c == d && x < y
  {
    var p, q := [[c] + x[0]] + x[1..], [[d] + y[0]] + y[1..];
    assert p[0] == q[0] && p[0][0] == c && q[0][0] == d && p[0][1..] == x[0] && q[0][1..] == y[0];
    forall i | 0 <= i < |x|
      ensures x[i] == y[i]
    {
      if i > 0 {
        assert x[i] == p[i] && y[i] == q[i];
      }
    }
  }

  lemma StartsWithSlash(c: seq<uint8>)
    requires |Split(c)| > 1 && Split(c)[0] == []
    ensures c != [] && c[0] == SLASH
  {}

  lemma StartsOtherwise(c: seq<uint8>)
    requires Split(c)[0] != []
    ensures c != [] && c[0] != SLASH
  {}

  /** A name that begins with all components of another one, and has more, goes
      on with a slash. */
  lemma {:induction false} PrefixOfSplit(a: seq<uint8>, c: seq<uint8>)
    requires Split(a) < Split(c)
    ensures |a| < |c| && a == c[..|a|] && c[|a|] == SLASH
  {
    assert Split(a)[0] == Split(c)[0];
    if a == [] || a[0] == SLASH {
      StartsWithSlash(c);
    } else {
      StartsOtherwise(c);
    }
    hide Split;
    if a != [] {
      assert a == [a[0]] + a[1..] && c == [c[0]] + c[1..];
      SplitStep(a[0], a[1..]);
      SplitStep(c[0], c[1..]);
      if a[0] == SLASH {
        SameStart(Split(a[1..]), Split(c[1..]));
      } else {
        SameFirstByte(a[0], c[0], Split(a[1..]), Split(c[1..]));
      }
      PrefixOfSplit(a[1..], c[1..]);
    }
  }

  /** A name is in the way of another one exactly when its components, letter
      case aside, are the first ones of the other and not all of them. */
  lemma ParentIff(parent: seq<uint8>, child: seq<uint8>)
    ensures Parent(parent, child) <==> parent != [] && Split(Fold(parent)) < Split(Fold(child))
  {
    var x, y := Fold(parent), Fold(child);
    if Parent(parent, child) {
      var rest := y[|x| + 1..];
      assert y == x + [SLASH] + rest;
      SplitJoined(x, rest);
    }
    if parent != [] && Split(x) < Split(y) {
      hide Split;
      PrefixOfSplit(x, y);
    }
  }
}
