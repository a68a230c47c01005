/** The big-integer core of tools/zz9k-crypto-soft.c: little-endian 32-bit
    limbs. */
module BigNum {
  import opened Words
  import opened ModArith

  const BASE: int := 0x1_0000_0000

  /** The number a limb string stands for. */
  function Val(s: seq<uint32>): nat {
    if s == [] then 0 else s[0] as nat + BASE * Val(s[1..])
  }

  /** BASE to the power n. */
  function Weight(n: nat): (w: nat)
    ensures w > 0
  {
    PowPositive(BASE, n);
    Pow(BASE, n)
  }

  lemma WeightStep(n: nat)
    ensures Weight(n + 1) == BASE * Weight(n)
  {}

  lemma WeightAdd(m: nat, n: nat)
    ensures Weight(m + n) == Weight(m) * Weight(n)
  {
    PowAdd(BASE, m, n);
  }

  lemma {:induction false} ValAppend(a: seq<uint32>, b: seq<uint32>)
    ensures Val(a + b) == Val(a) + Weight(|a|) * Val(b)
  {
    if a == [] {
      assert a + b == b;
    } else {
      ValAppend(a[1..], b);
      assert (a + b)[1..] == a[1..] + b;
      var w, v := Weight(|a| - 1), Val(b);
      assert Weight(|a|) == BASE * w;
      assert BASE * w * v == BASE * (w * v);
    }
  }

  /** One more limb. */
  lemma ValNext(s: seq<uint32>, i: nat)
    requires i < |s|
    ensures Val(s[..i + 1]) == Val(s[..i]) + Weight(i) * s[i] as nat
  {
    assert s[..i + 1] == s[..i] + [s[i]];
    ValAppend(s[..i], [s[i]]);
    assert Val([s[i]]) == s[i] as nat + BASE * Val([s[i]][1..]);
  }

  lemma {:induction false} ValBound(s: seq<uint32>)
    ensures Val(s) < Weight(|s|)
  {
    if s != [] {
      ValBound(s[1..]);
      WeightStep(|s| - 1);
    }
  }

  lemma {:induction false} ValZeros(s: seq<uint32>)
    requires forall k :: 0 <= k < |s| ==> s[k] == 0
    ensures Val(s) == 0
  {
    if s != [] {
      ValZeros(s[1..]);
    }
  }

  lemma {:induction false} ValZeroConverse(s: seq<uint32>)
    requires Val(s) == 0
    ensures forall k :: 0 <= k < |s| ==> s[k] == 0
  {
    if s != [] {
      ValZeroConverse(s[1..]);
      assert forall k :: 1 <= k < |s| ==> s[k] == s[1..][k - 1];
    }
  }

  /** The highest differing limb decides. */
  lemma HigherLimbWins(a: seq<uint32>, b: seq<uint32>, i: nat)
    requires |a| == |b| && i < |a| && a[i] < b[i] && a[i + 1..] == b[i + 1..]
    ensures Val(a) < Val(b)
  {
    hide Val, Weight;
    var w := Weight(i);
    ValNext(a, i);
    ValNext(b, i);
    ValBound(a[..i]);
    MulMono(a[i] as int + 1, b[i] as int, w);
    assert w * (a[i] as int + 1) == w * a[i] as int + w;
    ValAppend(a[..i + 1], a[i + 1..]);
    ValAppend(b[..i + 1], b[i + 1..]);
    assert a == a[..i + 1] + a[i + 1..] && b == b[..i + 1] + b[i + 1..];
  }

  /** bn_cmp. */
  method Cmp(a: array<uint32>, b: array<uint32>, len: nat) returns (r: int)
    requires len <= a.Length && len <= b.Length
    ensures r == if Val(a[..len]) < Val(b[..len]) then -1 else if Val(a[..len]) > Val(b[..len]) then 1 else 0
  {
    hide Val;
    var i := len;
    while i > 0
      invariant 0 <= i <= len
      invariant a[i..len] == b[i..len]
    {
      i := i - 1;
      if a[i] < b[i] {
        assert a[..len][i + 1..] == a[i + 1..len] && b[..len][i + 1..] == b[i + 1..len];
        HigherLimbWins(a[..len], b[..len], i);
        return -1;
      }
      if a[i] > b[i] {
        assert a[..len][i + 1..] == a[i + 1..len] && b[..len][i + 1..] == b[i + 1..len];
        HigherLimbWins(b[..len], a[..len], i);
        return 1;
      }
    }
    assert a[..len] == b[..len];
    return 0;
  }

  lemma AddStep(w: int, lo: int, hi: int, x: int, y: int, c: int, u: int, v: int, r: int)
    requires r + w * c == u + v && lo + BASE * hi == x + y + c
    ensures r + w * lo + BASE * w * hi == u + w * x + (v + w * y)
  {
    assert w * (lo + BASE * hi) == w * (x + y + c);
    assert w * (lo + BASE * hi) == w * lo + BASE * w * hi;
    assert w * (x + y + c) == w * x + w * y + w * c;
  }

  /** bn_add; `r` may be `a` or `b`. */
  method AddLimbs(r: array<uint32>, a: array<uint32>, b: array<uint32>, len: nat) returns (carry: uint32)
    requires len <= r.Length && len <= a.Length && len <= b.Length
    modifies r
    ensures carry <= 1
    ensures Val(r[..len]) + Weight(len) * carry as int == old(Val(a[..len])) + old(Val(b[..len]))
    ensures r[len..] == old(r[len..])
  {
    hide Val, Weight;
    carry := 0;
    ghost var x, y, z := a[..], b[..], r[..];
    NoLimbs();
    for i := 0 to len
      invariant carry <= 1
      invariant forall k :: i <= k < len ==> a[k] == x[k] && b[k] == y[k]
      invariant Val(r[..i]) + Weight(i) * carry as int == Val(x[..i]) + Val(y[..i])
      invariant r[len..] == z[len..]
    {
      var sum := a[i] as uint64 + b[i] as uint64 + carry as uint64;
      ghost var before, c := r[..i], carry as int;
      r[i] := (sum % 0x1_0000_0000) as uint32;
      carry := (sum / 0x1_0000_0000) as uint32;
      assert r[..i] == before;
      ValNext(r[..], i);
      ValNext(x, i);
      ValNext(y, i);
      WeightStep(i);
      assert r[..][..i] == r[..i] && r[..][..i + 1] == r[..i + 1];
      AddStep(Weight(i), r[i] as int, carry as int, x[i] as int, y[i] as int, c, Val(x[..i]), Val(y[..i]), Val(before));
    }
    assert x[..len] == old(a[..len]) && y[..len] == old(b[..len]);
  }

  lemma NoLimbs()
    ensures Val([]) == 0
  {}

  /** bn_sub; `r` may be `a` or `b`. */
  method SubLimbs(r: array<uint32>, a: array<uint32>, b: array<uint32>, len: nat) returns (borrow: uint32)
    requires len <= r.Length && len <= a.Length && len <= b.Length
    modifies r
    ensures borrow <= 1
    ensures Val(r[..len]) - Weight(len) * borrow as int == old(Val(a[..len])) - old(Val(b[..len]))
    ensures r[len..] == old(r[len..])
  {
    hide Val, Weight;
    borrow := 0;
    ghost var x, y, z := a[..], b[..], r[..];
    NoLimbs();
    for i := 0 to len
      invariant borrow <= 1
      invariant forall k :: i <= k < len ==> a[k] == x[k] && b[k] == y[k]
      invariant Val(r[..i]) - Weight(i) * borrow as int == Val(x[..i]) - Val(y[..i])
      invariant r[len..] == z[len..]
    {
      // the difference wraps on 64 bits when it is negative
      var diff := ((a[i] as int - b[i] as int - borrow as int) % 0x1_0000_0000_0000_0000) as uint64;
      ghost var before, c := r[..i], borrow as int;
      r[i] := (diff % 0x1_0000_0000) as uint32;
      borrow := (diff / 0x1_0000_0000 % 2) as uint32;
      BorrowBit(x[i] as int - y[i] as int - c, diff as int);
      ghost var after := r[..];
      assert after[..i] == before && after[..i + 1] == r[..i + 1];
      SubDigit(after, x, y, i, borrow as int, c);
    }
    assert x[..len] == old(a[..len]) && y[..len] == old(b[..len]);
  }

  /** One more limb of a difference. */
  lemma SubDigit(r: seq<uint32>, x: seq<uint32>, y: seq<uint32>, i: nat, borrow: int, before: int)
    requires i < |r| && i < |x| && i < |y|
    requires Val(r[..i]) - Weight(i) * before == Val(x[..i]) - Val(y[..i])
    requires r[i] as int - BASE * borrow == x[i] as int - y[i] as int - before
    ensures Val(r[..i + 1]) - Weight(i + 1) * borrow == Val(x[..i + 1]) - Val(y[..i + 1])
  {
    hide Val, Weight;
    ValNext(r, i);
    ValNext(x, i);
    ValNext(y, i);
    WeightStep(i);
    AddStep(Weight(i), r[i] as int, -borrow, x[i] as int, -(y[i] as int), -before, Val(x[..i]),
            -(Val(y[..i]) as int), Val(r[..i]));
  }

  lemma BorrowBit(d: int, wrapped: int)
    requires -0x1_0000_0000 <= d < 0x1_0000_0000 && wrapped == d % 0x1_0000_0000_0000_0000
    ensures wrapped / 0x1_0000_0000 % 2 == if d < 0 then 1 else 0
    ensures wrapped % 0x1_0000_0000 == if d < 0 then d + 0x1_0000_0000 else d
  {
    if d < 0 {
      DivModUnique(d, 0x1_0000_0000_0000_0000, -1, d + 0x1_0000_0000_0000_0000);
      DivModUnique(wrapped, 0x1_0000_0000, 0xffff_ffff, d + 0x1_0000_0000);
    } else {
      ModSmall(d, 0x1_0000_0000_0000_0000);
      DivModUnique(wrapped, 0x1_0000_0000, 0, d);
    }
  }

  lemma MulStep(w: int, wj: int, wi: int, lo: int, hi: int, c: int, x: int, y: int, z: int, r: int, u: int, v: int)
    requires r + w * c == u + wi * x * v && lo + BASE * hi == c + x * y + z && w == wi * wj
    ensures r + w * lo + BASE * w * hi == u + w * z + wi * x * (v + wj * y)
  {
    assert w * (lo + BASE * hi) == w * lo + BASE * w * hi;
    assert w * (c + x * y + z) == w * c + w * (x * y) + w * z;
    assert wi * x * (v + wj * y) == wi * x * v + w * (x * y);
  }

  /** The inner loop's accumulator never leaves 64 bits. */
  lemma ProductFits(x: uint32, y: uint32)
    ensures 0 <= x as int * y as int <= 0xffff_ffff * 0xffff_ffff
  {
    MulMono(x as int, 0xffff_ffff, y as int);
    MulMono(y as int, 0xffff_ffff, 0xffff_ffff);
  }

  /** One row of bn_mul: adds a[i] * b at limb i. */
  method MulRow(r: array<uint32>, a: array<uint32>, b: array<uint32>, len: nat, i: nat)
    requires i < len <= a.Length && len <= b.Length && 2 * len <= r.Length && r != a && r != b
    modifies r
    ensures Val(r[..i + len + 1]) == old(Val(r[..i + len])) + Weight(i) * a[i] as int * Val(b[..len])
    ensures r[i + len + 1..] == old(r[i + len + 1..])
  {
    hide Val, Weight;
    ghost var z := r[..];
    var carry: uint64 := 0;
    NoLimbs();
    assert Weight(i) * a[i] as int * Val(b[..0]) == 0;
    for j := 0 to len
      invariant carry < 0x1_0000_0000
      invariant r[i + j..] == z[i + j..]
      invariant Val(r[..i + j]) + Weight(i + j) * carry as int
                == Val(z[..i + j]) + Weight(i) * a[i] as int * Val(b[..j])
    {
      ghost var before, c := r[..i + j], carry as int;
      assert r[i + j] == z[i + j] by {
        assert r[i + j..][0] == z[i + j..][0];
      }
      ProductFits(a[i], b[j]);
      carry := carry + (a[i] as uint64 * b[j] as uint64 + r[i + j] as uint64);
      r[i + j] := (carry % 0x1_0000_0000) as uint32;
      carry := carry / 0x1_0000_0000;
      assert r[..i + j] == before;
      assert r[i + j + 1..] == z[i + j..][1..] == z[i + j + 1..];
      ValNext(r[..], i + j);
      ValNext(z, i + j);
      ValNext(b[..], j);
      WeightStep(i + j);
      WeightAdd(i, j);
      assert r[..][..i + j] == r[..i + j] && r[..][..i + j + 1] == r[..i + j + 1] && b[..][..j] == b[..j]
             && b[..][..j + 1] == b[..j + 1];
      MulStep(Weight(i + j), Weight(j), Weight(i), r[i + j] as int, carry as int, c, a[i] as int, b[j] as int,
              z[i + j] as int, Val(before), Val(z[..i + j]), Val(b[..j]));
    }
    ghost var before := r[..i + len];
    r[i + len] := carry as uint32;
    assert r[..i + len] == before;
    ValNext(r[..], i + len);
    assert r[..][..i + len] == r[..i + len] && r[..][..i + len + 1] == r[..i + len + 1];
    assert r[i + len + 1..] == z[i + len..][1..] == z[i + len + 1..];
  }

  /** bn_mul: the exact product. */
  method MulLimbs(r: array<uint32>, a: array<uint32>, b: array<uint32>, len: nat)
    requires len <= a.Length && len <= b.Length && 2 * len <= r.Length && r != a && r != b
    modifies r
    ensures Val(r[..2 * len]) == Val(a[..len]) * Val(b[..len])
  {
    hide Val, Weight;
    for i := 0 to 2 * len
      invariant forall k :: 0 <= k < i ==> r[k] == 0
    {
      r[i] := 0;
    }
    NoLimbs();
    ValZeros(r[..len]);
    for i := 0 to len
      invariant Val(r[..len + i]) == Val(a[..i]) * Val(b[..len])
      invariant forall k :: len + i <= k < 2 * len ==> r[k] == 0
    {
      ghost var z := r[..];
      MulRow(r, a, b, len, i);
      ValNext(a[..], i);
      assert a[..][..i] == a[..i] && a[..][..i + 1] == a[..i + 1];
      assert (Val(a[..i]) + Weight(i) * a[i] as int) * Val(b[..len])
             == Val(a[..i]) * Val(b[..len]) + Weight(i) * a[i] as int * Val(b[..len]);
      assert i + len + 1 == len + (i + 1);
      forall k | len + i + 1 <= k < 2 * len
        ensures r[k] == 0
      {
        assert r[i + len + 1..][k - (i + len + 1)] == z[i + len + 1..][k - (i + len + 1)];
      }
    }
  }

  /** A limb weight is a power of two. */
  lemma {:induction false} WeightIsPow2(n: nat)
    ensures Weight(n) == Pow(2, 32 * n)
  {
    if n == 0 {
    } else {
      WeightIsPow2(n - 1);
      WeightStep(n - 1);
      PowAdd(2, 32, 32 * (n - 1));
      TwoTo32(2);
    }
  }

  lemma TwoTo32(b: int)
    requires b == 2
    ensures Pow(b, 32) == BASE
  {
    assert Pow(b, 4) == 0x10;
    hide Pow;
    PowAdd(b, 4, 4);
    assert Pow(b, 8) == 0x100;
    PowAdd(b, 8, 8);
    assert Pow(b, 16) == 0x1_0000;
    PowAdd(b, 16, 16);
  }

  /** Bit t of a number cut at bit n, with the low part below 2^n. */
  lemma BitAbove(lo: nat, hi: nat, n: nat, t: nat)
    requires lo < Pow(2, n)
    ensures Pow(2, n) * hi >= 0
    ensures Bit(lo + Pow(2, n) * hi, n + t) == Bit(hi, t)
  {
    PowPositive(2, n);
    PowPositive(2, t);
    PowPositive(2, n + t);
    PowAdd(2, n, t);
    hide Pow;
    MulMono(0, hi, Pow(2, n));
    DivModUnique(lo + Pow(2, n) * hi, Pow(2, n), hi, lo);
    DivDiv(lo + Pow(2, n) * hi, Pow(2, n), Pow(2, t), Pow(2, n + t));
  }

  lemma BitBelow(lo: nat, hi: nat, n: nat, t: nat)
    requires t < n && Pow(2, n) * hi >= 0
    ensures Bit(lo + Pow(2, n) * hi, t) == Bit(lo, t)
  {
    PowPositive(2, t);
    PowPositive(2, n - t - 1);
    PowAdd(2, t, n - t);
    PowStep(n - t - 1);
    hide Pow;
    BitBelowAt(lo, hi, Pow(2, n), Pow(2, t), Pow(2, n - t - 1));
  }

  lemma BitBelowAt(lo: nat, hi: nat, q: int, p: int, g: int)
    requires p > 0 && q == p * (2 * g)
    ensures (lo + q * hi) / p % 2 == lo / p % 2
  {
    assert q * hi == p * (2 * (g * hi));
    var h := g * hi;
    assert lo == p * (lo / p) + lo % p;
    assert p * (lo / p + 2 * h) == p * (lo / p) + p * (2 * h);
    DivModUnique(lo + q * hi, p, lo / p + 2 * h, lo % p);
    DivModUnique(lo / p + 2 * h, 2, lo / p / 2 + h, lo / p % 2);
  }

  /** Bit i of a limb string is bit i % 32 of limb i / 32. */
  lemma BitOfLimbs(s: seq<uint32>, i: nat)
    requires i / 32 < |s|
    ensures Bit(Val(s), i) == Bit(s[i / 32] as int, i % 32)
  {
    hide Val, Weight, Bit;
    var w, t := i / 32, i % 32;
    var rest := Val(s[w + 1..]);
    ValAppend(s[..w + 1], s[w + 1..]);
    assert s == s[..w + 1] + s[w + 1..];
    ValNext(s, w);
    ValBound(s[..w]);
    WeightStep(w);
    WeightIsPow2(w);
    TwoTo32(2);
    assert Weight(w + 1) * rest == Weight(w) * (BASE * rest);
    assert Val(s) == Val(s[..w]) + Weight(w) * (s[w] as int + BASE * rest);
    BitAbove(Val(s[..w]), s[w] as int + BASE * rest, 32 * w, t);
    BitBelow(s[w] as int, rest, 32, t);
  }

  /** bn_bit: bit i, and 0 beyond the limbs. */
  method BitAt(a: array<uint32>, len: nat, i: nat) returns (b: uint32)
    requires len <= a.Length
    ensures b as int == Bit(Val(a[..len]), i)
  {
    hide Val;
    var w := i / 32;
    if w >= len {
      BeyondTop(a[..len], i);
      return 0;
    }
    BitOfLimbs(a[..len], i);
    PowPositive(2, i % 32);
    return (a[w] as int / Pow(2, i % 32) % 2) as uint32;
  }

  lemma BeyondTop(s: seq<uint32>, i: nat)
    requires i / 32 >= |s|
    ensures Bit(Val(s), i) == 0
  {
    hide Val;
    ValBound(s);
    WeightIsPow2(|s|);
    PowMono(32 * |s|, i);
    DropLowBits(Val(s), i);
  }

  /** bn_bitlen: one more than the highest set bit, 0 for zero. */
  method BitLen(a: array<uint32>, len: nat) returns (bits: nat)
    requires len <= a.Length
    ensures bits == 0 <==> Val(a[..len]) == 0
    ensures bits <= 32 * len
    ensures bits > 0 ==> Pow(2, bits - 1) <= Val(a[..len]) < Pow(2, bits)
  {
    hide Val, Weight, Pow;
    var i := len;
    while i > 0
      invariant 0 <= i <= len
      invariant forall k :: i <= k < len ==> a[k] == 0
    {
      i := i - 1;
      if a[i] != 0 {
        var b := 31;
        TwoTo32(2);
        PowZero();
        while b >= 0
          invariant -1 <= b <= 31
          invariant a[i] as int < Pow(2, b + 1)
          invariant b == -1 ==> a[i] == 0
        {
          PowPositive(2, b);
          PowStep(b);
          var bit := a[i] as int / Pow(2, b) % 2;
          TopBit(a[i] as int, Pow(2, b));
          if bit == 1 {
            TopLimb(a[..len], i, b);
            return i * 32 + b + 1;
          }
          b := b - 1;
        }
        assert false;
      }
    }
    ValZeros(a[..len]);
    return 0;
  }

  lemma PowZero()
    ensures Pow(2, 0) == 1
  {}

  lemma PowStep(n: nat)
    ensures Pow(2, n + 1) == 2 * Pow(2, n)
  {}

  lemma TopBit(x: int, p: int)
    requires p > 0 && 0 <= x < 2 * p
    ensures x / p % 2 == 1 <==> x >= p
  {
    if x >= p {
      DivModUnique(x, p, 1, x - p);
    } else {
      DivModUnique(x, p, 0, x);
    }
  }

  lemma TopLimb(s: seq<uint32>, i: nat, b: nat)
    requires i < |s| && Pow(2, b) <= s[i] as int < Pow(2, b + 1)
    requires forall k :: i < k < |s| ==> s[k] == 0
    ensures 0 < Pow(2, i * 32 + b) <= Val(s) < Pow(2, i * 32 + b + 1)
  {
    hide Val, Weight, Pow;
    ValAppend(s[..i + 1], s[i + 1..]);
    assert s == s[..i + 1] + s[i + 1..];
    ValZeros(s[i + 1..]);
    ValNext(s, i);
    ValBound(s[..i]);
    WeightIsPow2(i);
    PowPositive(2, i * 32 + b);
    PowAdd(2, 32 * i, b);
    PowAdd(2, 32 * i, b + 1);
    MulMono(Pow(2, b), s[i] as int, Weight(i));
    MulMono(s[i] as int + 1, Pow(2, b + 1), Weight(i));
    assert Weight(i) * (s[i] as int + 1) == Weight(i) * s[i] as int + Weight(i);
    assert i * 32 + b == 32 * i + b;
  }

  lemma ShiftStep(w: int, lo: int, hi: int, x: int, c: int, v: int, r: int)
    requires r + w * c == 2 * v && lo + BASE * hi == 2 * x + c
    ensures r + w * lo + BASE * w * hi == 2 * (v + w * x)
  {
    assert w * (lo + BASE * hi) == w * lo + BASE * w * hi;
    assert w * (2 * x + c) == 2 * (w * x) + w * c;
  }

  /** `acc <<= 1`, where the top bit is known to be clear; then the next bit
      of x comes in. */
  method ShiftIn(acc: array<uint32>, len: nat, bit: uint32)
    requires 0 < len <= acc.Length && bit <= 1
    requires 2 * Val(acc[..len]) + 1 < Weight(len)
    modifies acc
    ensures Val(acc[..len]) == 2 * old(Val(acc[..len])) + bit as int
    ensures acc[len..] == old(acc[len..])
  {
    hide Val, Weight;
    ghost var z := acc[..];
    var carry: uint32 := 0;
    NoLimbs();
    for k := 0 to len
      invariant carry <= 1
      invariant acc[k..] == z[k..]
      invariant Val(acc[..k]) + Weight(k) * carry as int == 2 * Val(z[..k])
      invariant k > 0 ==> acc[0] % 2 == 0
    {
      ghost var before, c := acc[..k], carry as int;
      assert acc[k] == z[k] by {
        assert acc[k..][0] == z[k..][0];
      }
      var newcarry := acc[k] / 0x8000_0000;
      acc[k] := acc[k] % 0x8000_0000 * 2 + carry; // the shifted limb is even
      carry := newcarry;
      assert acc[..k] == before;
      assert acc[k + 1..] == z[k..][1..] == z[k + 1..];
      ValNext(acc[..], k);
      ValNext(z, k);
      WeightStep(k);
      assert acc[..][..k] == acc[..k] && acc[..][..k + 1] == acc[..k + 1];
      ShiftStep(Weight(k), acc[k] as int, carry as int, z[k] as int, c, Val(z[..k]), Val(before));
    }
    assert z[..len] == old(acc[..len]);
    ghost var shifted := acc[..len];
    assert carry == 0;
    acc[0] := acc[0] + bit; // |= bit
    LowLimb(shifted, acc[..len], bit as int);
  }

  lemma LowLimb(s: seq<uint32>, t: seq<uint32>, d: int)
    requires |s| == |t| > 0 && s[1..] == t[1..] && t[0] as int == s[0] as int + d
    ensures Val(t) == Val(s) + d
  {}

  /** bn_mod: binary long division; `r` may be `x`. */
  method Mod(r: array<uint32>, x: array<uint32>, xlen: nat, m: array<uint32>, n: nat)
    requires n <= r.Length && xlen <= x.Length && n <= m.Length && Val(m[..n]) > 0
    modifies r
    ensures Val(r[..n]) == old(Val(x[..xlen])) % old(Val(m[..n]))
    ensures r[n..] == old(r[n..])
  {
    hide Val, Weight, Bit, High, Num;
    ghost var v, d := Val(x[..xlen]), Val(m[..n]);
    NumIs(x, xlen);
    ValBound(m[..n]);
    var acc, mm := new uint32[n + 1], new uint32[n + 1];
    var bits := BitLen(x, xlen);
    DivisionStart(acc, mm, m, n);
    StartOfDivision(v, bits, d);
    var i := bits as int - 1;
    while i >= 0
      invariant -1 <= i < bits
      invariant Num(mm, n + 1, d)
      invariant Num(acc, n + 1, High(v, i + 1) % d)
      modifies acc
    {
      DivisionBit(acc, mm, x, xlen, n, i, v, d);
      i := i - 1;
    }
    WholeNumber(v);
    QuotientDone(acc, n, v % d, d);
    CopyLimbs(r, acc, n);
  }

  /** The first `len` limbs stand for v. */
  ghost predicate Num(a: array<uint32>, len: nat, v: int)
    reads a
  {
    len <= a.Length && Val(a[..len]) == v
  }

  lemma NumIs(a: array<uint32>, len: nat)
    requires len <= a.Length
    ensures Num(a, len, Val(a[..len]))
  {}

  lemma NumMeans(a: array<uint32>, len: nat, v: int)
    requires Num(a, len, v)
    ensures len <= a.Length && Val(a[..len]) == v
  {}

  lemma QuotientDone(acc: array<uint32>, n: nat, v: int, d: int)
    requires Num(acc, n + 1, v) && v < d < Weight(n)
    ensures acc.Length >= n && Val(acc[..n]) == v
  {
    hide Val, Weight;
    TopLimbIsZero(acc[..n + 1], n, d);
    assert acc[..n + 1][..n] == acc[..n];
  }

  /** One bit of the division. */
  method DivisionBit(acc: array<uint32>, mm: array<uint32>, x: array<uint32>, xlen: nat, n: nat, i: nat,
                     ghost v: nat, ghost d: nat)
    requires acc != mm && acc != x && 0 < d < Weight(n)
    requires Num(x, xlen, v) && Num(mm, n + 1, d) && Num(acc, n + 1, High(v, i + 1) % d)
    modifies acc
    ensures Num(acc, n + 1, High(v, i) % d)
  {
    hide Val, Weight, Bit, High;
    ghost var a := Val(acc[..n + 1]);
    RoomToShift(n, d, a);
    var bit := BitAt(x, xlen, i);
    ShiftIn(acc, n + 1, bit);
    SubtractOnce(acc, mm, n + 1);
    DivisionStep(v, i, d, a, bit as int, Val(acc[..n + 1]));
  }

  /** acc = 0 and mm = m with one more limb. */
  method DivisionStart(acc: array<uint32>, mm: array<uint32>, m: array<uint32>, n: nat)
    requires acc.Length == n + 1 && mm.Length == n + 1 && n <= m.Length && acc != mm && acc != m && mm != m
    modifies acc, mm
    ensures Num(acc, n + 1, 0) && Num(mm, n + 1, Val(m[..n]))
  {
    hide Val;
    for i := 0 to n + 1
      invariant forall k :: 0 <= k < i ==> acc[k] == 0 && mm[k] == if k < n then m[k] else 0
    {
      acc[i] := 0;
      mm[i] := if i < n then m[i] else 0;
    }
    assert mm[..n + 1] == mm[..];
    ModulusCopy(m[..n], mm[..]);
    ValZeros(acc[..n + 1]);
  }

  /** `if (bn_cmp(acc, mm) >= 0) bn_sub(acc, acc, mm)`. */
  method SubtractOnce(acc: array<uint32>, mm: array<uint32>, len: nat)
    requires len <= acc.Length && len <= mm.Length && acc != mm
    modifies acc
    ensures Val(acc[..len]) == if old(Val(acc[..len])) >= Val(mm[..len]) then old(Val(acc[..len])) - Val(mm[..len])
            else old(Val(acc[..len]))
  {
    hide Val, Weight;
    ghost var t, d := Val(acc[..len]), Val(mm[..len]);
    var c := Cmp(acc, mm, len);
    if c >= 0 {
      var borrow := SubLimbs(acc, acc, mm, len);
      NoBorrow(acc[..len], borrow as int, t - d);
    }
  }

  /** `for (i = 0; i < n; i++) r[i] = a[i]`. */
  method CopyLimbs(r: array<uint32>, a: array<uint32>, n: nat)
    requires n <= r.Length && n <= a.Length
    modifies r
    ensures r[..n] == old(a[..n])
    ensures r[n..] == old(r[n..])
  {
    for i := 0 to n
      invariant r[..i] == old(a[..i]) && r[n..] == old(r[n..])
      invariant forall k :: i <= k < n ==> a[k] == old(a[k])
    {
      r[i] := a[i];
    }
  }

  lemma ModulusCopy(m: seq<uint32>, mm: seq<uint32>)
    requires |mm| == |m| + 1 && mm[|m|] == 0 && forall k :: 0 <= k < |m| ==> mm[k] == m[k]
    ensures mm[..|m| + 1] == mm
    ensures Val(mm) == Val(m)
  {
    assert mm[..|m|] == m;
    ValNext(mm, |m|);
  }

  lemma StartOfDivision(v: nat, bits: nat, d: nat)
    requires d > 0 && (bits == 0 <==> v == 0)
    requires bits > 0 ==> v < Pow(2, bits)
    ensures High(v, bits) % d == 0
  {
    PowPositive(2, bits);
    DropLowBits(v, bits);
  }

  lemma RoomToShift(n: nat, d: nat, a: nat)
    requires a < d < Weight(n)
    ensures 2 * a + 1 < Weight(n + 1)
  {
    hide Weight;
    WeightStep(n);
  }

  lemma NoBorrow(s: seq<uint32>, borrow: int, diff: int)
    requires 0 <= borrow <= 1 && diff >= 0 && Val(s) - Weight(|s|) * borrow == diff
    ensures borrow == 0
  {
    hide Val, Weight;
    ValBound(s);
  }

  lemma DivisionStep(v: nat, i: nat, d: nat, a: nat, bit: int, a': int)
    requires d > 0 && a == High(v, i + 1) % d && bit == Bit(v, i)
    requires a' == if 2 * a + bit >= d then 2 * a + bit - d else 2 * a + bit
    ensures a' == High(v, i) % d
  {
    hide High, Bit;
    HighStep(v, i);
    var q := High(v, i + 1) / d;
    assert High(v, i + 1) == d * q + a;
    assert High(v, i) == (2 * q) * d + (2 * a + bit);
    if 2 * a + bit >= d {
      DivModUnique(High(v, i), d, 2 * q + 1, 2 * a + bit - d);
    } else {
      DivModUnique(High(v, i), d, 2 * q, 2 * a + bit);
    }
  }

  lemma WholeNumber(v: nat)
    ensures High(v, 0) == v
  {}

  lemma ZeroOrAtLeast(w: int, x: int)
    requires w > 0 && x >= 0
    ensures x == 0 || w * x >= w
  {}

  lemma TopLimbIsZero(s: seq<uint32>, n: nat, d: int)
    requires |s| == n + 1 && Val(s) < d < Weight(n)
    ensures Val(s[..n]) == Val(s)
  {
    hide Val, Weight;
    ValNext(s, n);
    assert s[..n + 1] == s;
    ZeroOrAtLeast(Weight(n), s[n] as int);
  }

  /** bn_mulmod; `r` may be `a` or `b`. */
  method MulMod(r: array<uint32>, a: array<uint32>, b: array<uint32>, m: array<uint32>, n: nat)
    requires n <= r.Length && n <= a.Length && n <= b.Length && n <= m.Length && Val(m[..n]) > 0
    modifies r
    ensures Val(r[..n]) == old(Val(a[..n])) * old(Val(b[..n])) % old(Val(m[..n]))
    ensures r[n..] == old(r[n..])
  {
    hide Val;
    var prod := new uint32[2 * n];
    MulLimbs(prod, a, b, n);
    Mod(r, prod, 2 * n, m, n);
  }

  /** The exponent bits from ebits - 1 down to i. */
  function TopBits(x: nat, ebits: nat, i: nat): (t: nat)
    requires i <= ebits
    decreases ebits - i
  {
    if i == ebits then 0 else 2 * TopBits(x, ebits, i + 1) + Bit(x, i)
  }

  lemma {:induction false} TopBitsOfSmall(x: nat, ebits: nat, i: nat)
    requires i <= ebits && x < Pow(2, ebits)
    ensures TopBits(x, ebits, i) == High(x, i)
    decreases ebits - i
  {
    hide High, Bit, Pow;
    if i == ebits {
      DropLowBits(x, ebits);
    } else {
      TopBitsOfSmall(x, ebits, i + 1);
      HighStep(x, i);
    }
  }

  lemma {:induction false} TopBitsIgnoreHigher(x: nat, ebits: nat, i: nat)
    requires i <= ebits
    ensures Pow(2, ebits) > 0
    ensures TopBits(x, ebits, i) == TopBits(x % Pow(2, ebits), ebits, i)
    decreases ebits - i
  {
    hide Bit, Pow;
    PowPositive(2, ebits);
    if i < ebits {
      TopBitsIgnoreHigher(x, ebits, i + 1);
      var p := Pow(2, ebits);
      assert x == x % p + p * (x / p);
      BitBelow(x % p, x / p, ebits, i);
    }
  }

  /** All the exponent bits are the exponent modulo 2^ebits. */
  lemma TopBitsAre(x: nat, ebits: nat)
    ensures Pow(2, ebits) > 0
    ensures TopBits(x, ebits, 0) == x % Pow(2, ebits)
  {
    hide Pow, High;
    TopBitsIgnoreHigher(x, ebits, 0);
    TopBitsOfSmall(x % Pow(2, ebits), ebits, 0);
    WholeNumber(x % Pow(2, ebits));
  }

  /** A square-and-multiply step. */
  lemma PowerStep(base: nat, e: nat, bit: int, m: nat, b: nat, acc: nat, sq: nat, acc': nat)
    requires m > 0 && (bit == 0 || bit == 1)
    requires b == base % m && Cong(acc, Pow(base, e), m) && sq == acc * acc % m
    requires acc' == if bit == 1 then sq * b % m else sq
    ensures acc' < m && Cong(acc', Pow(base, 2 * e + bit), m)
  {
    hide Pow;
    var p := Pow(base, e);
    CongMul(acc, p, acc, p, m);
    PowAdd(base, e, e);
    CongMod(acc * acc, m);
    CongMod(base, m);
    assert Cong(sq, p * p, m);
    if bit == 1 {
      CongMul(sq, p * p, b, base, m);
      PowAdd(base, 2 * e, 1);
      FirstPower(base);
    }
    CongMod(sq * b, m);
    ModSmall(sq, m);
  }

  lemma FirstPower(base: int)
    ensures Pow(base, 1) == base && Pow(base, 0) == 1
  {
    assert Pow(base, 1) == base * Pow(base, 0);
  }

  /** bn_modexp: square and multiply. With no exponent bits the result is 1,
      not 1 mod m. */
  method ModExp(r: array<uint32>, base: array<uint32>, exp: array<uint32>, ebits: nat, m: array<uint32>, n: nat)
    requires 0 < n <= r.Length && n <= base.Length && n <= m.Length && (ebits + 31) / 32 <= exp.Length
    requires Val(m[..n]) > 0
    modifies r
    ensures Pow(2, ebits) > 0
    ensures Val(r[..n]) == if ebits == 0 then 1
                           else Pow(old(Val(base[..n])),
                                    old(Val(exp[..(ebits + 31) / 32])) % Pow(2, ebits)) % old(Val(m[..n]))
  {
    hide Val, Bit, High, Pow, Num, TopBits;
    var explimbs := (ebits + 31) / 32;
    ghost var v, e, d := Val(base[..n]), Val(exp[..explimbs]), Val(m[..n]);
    NumIs(exp, explimbs);
    NumIs(m, n);
    NumIs(base, n);
    var acc, b := new uint32[n], new uint32[n];
    PowerStart(acc, b, base, n, v);
    ModOf(b, b, m, n, v, d);
    FirstPower(v);
    NoBits(e, ebits);
    ghost var a := 1;
    var i := ebits as int - 1;
    while i >= 0
      invariant -1 <= i < ebits
      invariant Num(b, n, v % d) && Num(acc, n, a)
      invariant Cong(a, Pow(v, TopBits(e, ebits, i + 1)), d)
      invariant i + 1 < ebits ==> a < d
      invariant i + 1 == ebits ==> a == 1
      modifies acc
    {
      a := PowerBit(acc, b, exp, ebits, m, n, i, v, e, d, a);
      i := i - 1;
    }
    TopBitsAre(e, ebits);
    NumMeans(acc, n, a);
    if ebits > 0 {
      ModSmall(a, d);
    }
    CopyLimbs(r, acc, n);
  }

  lemma NoBits(e: nat, ebits: nat)
    ensures TopBits(e, ebits, ebits) == 0
  {}

  lemma MoreBits(e: nat, ebits: nat, i: nat)
    requires i < ebits
    ensures TopBits(e, ebits, i) == 2 * TopBits(e, ebits, i + 1) + Bit(e, i)
  {}

  method ModOf(r: array<uint32>, x: array<uint32>, m: array<uint32>, n: nat, ghost v: nat, ghost d: nat)
    requires n <= r.Length && Num(x, n, v) && Num(m, n, d) && d > 0
    modifies r
    ensures Num(r, n, v % d)
  {
    hide Val;
    Mod(r, x, n, m, n);
  }

  method MulModOf(r: array<uint32>, a: array<uint32>, b: array<uint32>, m: array<uint32>, n: nat, ghost x: nat,
                  ghost y: nat, ghost d: nat)
    requires n <= r.Length && Num(a, n, x) && Num(b, n, y) && Num(m, n, d) && d > 0
    modifies r
    ensures Num(r, n, x * y % d)
  {
    hide Val;
    MulMod(r, a, b, m, n);
  }

  /** One exponent bit. */
  method PowerBit(acc: array<uint32>, b: array<uint32>, exp: array<uint32>, ebits: nat, m: array<uint32>, n: nat,
                  i: nat,
                  ghost v: nat, ghost e: nat, ghost d: nat, ghost a: nat) returns (ghost a': nat)
    requires i < ebits && d > 0 && acc != b && acc != exp && acc != m
    requires Num(exp, (ebits + 31) / 32, e) && Num(m, n, d) && Num(b, n, v % d) && Num(acc, n, a)
    requires Cong(a, Pow(v, TopBits(e, ebits, i + 1)), d)
    modifies acc
    ensures Num(acc, n, a') && a' < d
    ensures Cong(a', Pow(v, TopBits(e, ebits, i)), d)
  {
    hide Val, Bit, Pow, Num, TopBits;
    NumMeans(exp, (ebits + 31) / 32, e);
    NumMeans(acc, n, a);
    var bit := BitAt(exp, (ebits + 31) / 32, i);
    ghost var sq := a * a % d;
    MulModOf(acc, acc, acc, m, n, a, a, d);
    a' := sq;
    if bit == 1 {
      MulModOf(acc, acc, b, m, n, sq, v % d, d);
      a' := sq * (v % d) % d;
    }
    MoreBits(e, ebits, i);
    PowerStep(v, TopBits(e, ebits, i + 1), bit as int, d, v % d, a, sq, a');
  }

  /** acc = 1 and a copy of the base. */
  method PowerStart(acc: array<uint32>, b: array<uint32>, base: array<uint32>, n: nat, ghost v: nat)
    requires 0 < n && acc.Length == n && b.Length == n && acc != b && acc != base && b != base && Num(base, n, v)
    modifies acc, b
    ensures Num(acc, n, 1) && Num(b, n, v)
  {
    hide Val;
    for i := 0 to n
      invariant forall k :: 0 <= k < i ==> acc[k] == 0 && b[k] == base[k]
    {
      acc[i] := 0;
      b[i] := base[i];
    }
    acc[0] := 1;
    assert b[..n] == base[..n];
    ValOne(acc[..n]);
  }

  lemma ValOne(s: seq<uint32>)
    requires |s| > 0 && s[0] == 1 && forall k :: 1 <= k < |s| ==> s[k] == 0
    ensures Val(s) == 1
  {
    ValZeros(s[1..]);
  }
}
