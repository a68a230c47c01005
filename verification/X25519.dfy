/** X25519 (tools/zz9k-crypto-soft.c, x25519_ladder) against section 5 of
    RFC 7748. */
module Rfc7748 {
  import opened Words
  import opened Field25519

  /** The working values of the ladder, residues modulo p. */
  datatype Ladder = Ladder(x2: int, z2: int, x3: int, z3: int)

  function Swap(l: Ladder, swap: int): Ladder {
    if swap == 1 then Ladder(l.x3, l.z3, l.x2, l.z2) else l
  }

  /** One iteration after its conditional swap. */
  function Step(l: Ladder, x1: int): Ladder {
    var A := FAdd(l.x2, l.z2);
    var AA := FMul(A, A);
    var B := FSub(l.x2, l.z2);
    var BB := FMul(B, B);
    var E := FSub(AA, BB);
    var C := FAdd(l.x3, l.z3);
    var D := FSub(l.x3, l.z3);
    var DA := FMul(D, A);
    var CB := FMul(C, B);
    var sum, diff := FAdd(DA, CB), FSub(DA, CB);
    Ladder(FMul(AA, BB), FMul(E, FAdd(AA, FMul(E, 121665))), FMul(sum, sum), FMul(FMul(diff, diff), x1))
  }

  /** The working values and the swap flag after the iterations for bits 254
      down to t. */
  function Iterate(k: nat, u: int, t: nat): (Ladder, int)
    requires t <= 255
    decreases 255 - t
  {
    if t == 255 then (Ladder(1, 0, u, 1), 0)
    else
      var (l, swap) := Iterate(k, u, t + 1);
      var b := Bit(k, t);
      (Step(Swap(l, if swap == b then 0 else 1), u), b)
  }

  const TWO_254: int := 0x4000_0000_0000_0000_0000_0000_0000_0000_0000_0000_0000_0000_0000_0000_0000_0000

  /** The scalar: bits 3 to 253 of the string, bit 254 set and all others
      clear. */
  function DecodeScalar(k: seq<uint8>): (s: nat)
    requires |k| == 32
    ensures s % 8 == 0 && TWO_254 <= s < 2 * TWO_254
  {
    TWO_254 + LeValue(k) % TWO_254 / 8 * 8
  }

  /** The u-coordinate with its top bit ignored, as a residue. */
  function DecodeU(u: seq<uint8>): int {
    LeValue(u) % 0x8000_0000_0000_0000_0000_0000_0000_0000_0000_0000_0000_0000_0000_0000_0000_0000 % P25519
  }

  /** The function X25519, its result as a number below p. */
  function X25519(k: seq<uint8>, u: seq<uint8>): int
    requires |k| == 32
  {
    var (l, swap) := Iterate(DecodeScalar(k), DecodeU(u), 0);
    var r := Swap(l, swap);
    FMul(r.x2, Pow(r.z2, P25519 - 2) % P25519)
  }

  /** The ladder without its swap flag: the pair for n and n + 1 becomes the
      pair for 2n + b and 2n + b + 1. */
  function Plain(k: nat, u: int, t: nat): Ladder
    requires t <= 255
    decreases 255 - t
  {
    if t == 255 then Ladder(1, 0, u, 1)
    else
      var b := Bit(k, t);
      Swap(Step(Swap(Plain(k, u, t + 1), b), u), b)
  }

  /** Deferring each swap to the next iteration changes nothing. */
  lemma {:induction false} SwapFlagIsBookkeeping(k: nat, u: int, t: nat)
    requires t <= 255
    ensures Iterate(k, u, t).1 == (if t == 255 then 0 else Bit(k, t))
    ensures Swap(Iterate(k, u, t).0, Iterate(k, u, t).1) == Plain(k, u, t)
    decreases 255 - t
  {
    hide Step, Bit;
    if t < 255 {
      SwapFlagIsBookkeeping(k, u, t + 1);
      var (l, swap) := Iterate(k, u, t + 1);
      var b := Bit(k, t);
      assert Swap(l, if swap == b then 0 else 1) == Swap(Swap(l, swap), b);
    }
  }

  /** (x2 : z2) and (x3 : z3) represent m and n times the input point. */
  ghost predicate Pair(on: (int, int, nat) -> bool, l: Ladder, m: nat, n: nat) {
    on(l.x2, l.z2, m) && on(l.x3, l.z3, n)
  }

  /** A step doubles the first of two neighbouring multiples and adds them. */
  ghost predicate StepsAreRight(on: (int, int, nat) -> bool, u: int) {
    forall l: Ladder, m: nat, n: nat :: Pair(on, l, m, n) && (m == n + 1 || n == m + 1) ==>
        Pair(on, Step(l, u), 2 * m, m + n)
  }

  lemma TakeStep(on: (int, int, nat) -> bool, u: int, l: Ladder, m: nat, n: nat)
    requires StepsAreRight(on, u) && Pair(on, l, m, n) && (m == n + 1 || n == m + 1)
    ensures Pair(on, Step(l, u), 2 * m, m + n)
  {}

  /** Suppose `on(x, z, n)` says that (x : z) represents the u-coordinate of n
      times the input point, and steps double and add. Then the ladder ends
      with representatives of k and k + 1 times the input point. */
  lemma {:induction false} LadderMultiplies(on: (int, int, nat) -> bool, k: nat, u: int, t: nat)
    requires t <= 255 && k < Pow(2, 255)
    requires on(1, 0, 0) && on(u, 1, 1)
    requires StepsAreRight(on, u)
    ensures Pair(on, Plain(k, u, t), High(k, t), High(k, t) + 1)
    decreases 255 - t
  {
    hide Step, Pow, StepsAreRight, High;
    if t == 255 {
      DropLowBits(k, 255);
    } else {
      LadderMultiplies(on, k, u, t + 1);
      HighStep(k, t);
      var l, b, n := Plain(k, u, t + 1), Bit(k, t), High(k, t + 1);
      if b == 0 {
        TakeStep(on, u, l, n, n + 1);
      } else {
        TakeStep(on, u, Swap(l, 1), n + 1, n);
      }
    }
  }
}

/** The C code. */
module X25519 {
  import opened Words
  import opened ModArith
  import opened Bitwise
  import opened Field25519
  import opened Field25519Bytes
  import opened Rfc7748

  /** The array holds z^e. */
  ghost predicate IsPow(a: array<uint32>, z: int, e: nat)
    reads a
  {
    a.Length == 10 && Short(a[..]) && Res(a[..]) == Pow(z, e) % P25519
  }

  lemma MulPows(x: int, y: int, z: int, m: nat, n: nat)
    requires x == Pow(z, m) % P25519 && y == Pow(z, n) % P25519
    ensures FMul(x, y) == Pow(z, m + n) % P25519
  {
    hide Pow;
    PowAdd(z, m, n);
    CongMod(Pow(z, m), P25519);
    CongMod(Pow(z, n), P25519);
    CongMul(x, Pow(z, m), y, Pow(z, n), P25519);
  }

  lemma ShortIsLoose(s: seq<uint32>)
    requires Short(s)
    ensures Loose(s)
  {}

  /** Multiplying powers adds exponents. */
  method MulPow(h: array<uint32>, f: array<uint32>, g: array<uint32>, ghost z: int, ghost m: nat, ghost n: nat)
    requires IsPow(f, z, m) && IsPow(g, z, n) && h.Length == 10
    modifies h
    ensures IsPow(h, z, m + n)
  {
    hide Short, Loose, Res, FMul, Pow, Carried;
    ShortIsLoose(f[..]);
    ShortIsLoose(g[..]);
    MulPows(Res(f[..]), Res(g[..]), z, m, n);
    Mul(h, f, g);
  }

  /** m times 2^n. */
  function Doubled(m: nat, n: nat): nat {
    if n == 0 then m else 2 * Doubled(m, n - 1)
  }

  lemma {:induction false} DoubledIsTimes(m: nat, n: nat)
    ensures Doubled(m, n) == m * Pow(2, n)
  {
    if n > 0 {
      DoubledIsTimes(m, n - 1);
      assert m * Pow(2, n) == 2 * (m * Pow(2, n - 1));
    }
  }

  /** Squaring n > 0 times multiplies the exponent by 2^n: the first squaring
      reads `f`, the loop behind it works in place. */
  method SquareTimes(h: array<uint32>, f: array<uint32>, n: nat, ghost z: int, ghost m: nat)
    requires IsPow(f, z, m) && h.Length == 10 && n > 0
    modifies h
    ensures IsPow(h, z, Doubled(m, n))
  {
    hide Pow, Short, Res;
    MulPow(h, f, f, z, m, m);
    ghost var e := Doubled(m, 1);
    for i := 1 to n
      invariant e == Doubled(m, i)
      invariant IsPow(h, z, e)
    {
      MulPow(h, h, h, z, e, e);
      e := 2 * e;
    }
  }

  /** 2^k - 1. */
  ghost function Ones(k: nat): nat {
    PowPositive(2, k);
    Pow(2, k) - 1
  }

  lemma OnesJoin(k: nat, n: nat)
    ensures Doubled(Ones(k), n) + Ones(n) == Ones(k + n)
  {
    DoubledIsTimes(Ones(k), n);
    PowAdd(2, k, n);
    assert (Pow(2, k) - 1) * Pow(2, n) == Pow(2, k) * Pow(2, n) - Pow(2, n);
  }

  lemma LastExponent()
    ensures Doubled(Ones(250), 5) + 11 == P25519 - 2
  {
    DoubledIsTimes(Ones(250), 5);
    Pow2Of255();
    PowAdd(2, 250, 5);
    assert Pow(2, 5) == 32;
    assert (Pow(2, 250) - 1) * 32 == Pow(2, 250) * 32 - 32;
  }

  lemma Pow2Of255()
    ensures Pow(2, 255) == TWO_255
  {
    Powers(2);
  }

  lemma Powers(b: int)
    requires b == 2
    ensures Pow(b, 255) == TWO_255
  {
    assert Pow(b, 5) == 0x20;
    hide Pow;
    PowAdd(b, 5, 5);
    assert Pow(b, 10) == 0x400;
    PowAdd(b, 10, 5);
    assert Pow(b, 15) == 0x8000;
    PowAdd(b, 15, 15);
    assert Pow(b, 30) == 0x4000_0000;
    PowAdd(b, 30, 30);
    assert Pow(b, 60) == 0x1000_0000_0000_0000;
    PowAdd(b, 60, 60);
    assert Pow(b, 120) == 0x100_0000_0000_0000_0000_0000_0000_0000;
    PowAdd(b, 120, 120);
    PowAdd(b, 240, 15);
  }

  /** The next run of ones: square n times, multiply by a run of n. */
  method JoinOnes(h: array<uint32>, sq: array<uint32>, f: array<uint32>, g: array<uint32>, ghost z: int,
                  ghost k: nat, n: nat)
    requires IsPow(f, z, Ones(k)) && IsPow(g, z, Ones(n)) && n > 0
    requires h.Length == 10 && sq.Length == 10 && sq != g
    modifies h, sq
    ensures IsPow(h, z, Ones(k + n))
  {
    hide Pow, Ones, Doubled, IsPow;
    assert sq.Length == 10;
    SquareTimes(sq, f, n, z, Ones(k));
    MulPow(h, sq, g, z, Doubled(Ones(k), n), Ones(n));
    OnesJoin(k, n);
  }

  lemma FirstPower(z: array<uint32>)
    requires z.Length == 10 && Short(z[..])
    ensures IsPow(z, Res(z[..]), 1)
  {
    assert Pow(Res(z[..]), 1) == Res(z[..]);
    CongMod(V(z[..]), P25519);
  }

  /** z^11 and z^31. */
  method InvertStart(t0: array<uint32>, t1: array<uint32>, z: array<uint32>, ghost v: int)
    requires t0.Length == 10 && t1.Length == 10 && t0 != t1 && t0 != z && t1 != z && IsPow(z, v, 1)
    modifies t0, t1
    ensures IsPow(t0, v, 11) && IsPow(t1, v, Ones(5))
  {
    hide Pow, Doubled, Ones, IsPow;
    SmallExponents();
    var t2 := new uint32[10];
    MulPow(t0, z, z, v, 1, 1);
    SquareTimes(t1, t0, 2, v, 2);
    MulPow(t1, z, t1, v, 1, 8);
    MulPow(t0, t0, t1, v, 2, 9);
    MulPow(t2, t0, t0, v, 11, 11);
    MulPow(t1, t1, t2, v, 9, 22);
  }

  /** From z^(2^5 - 1) to z^(2^250 - 1). */
  method InvertRuns(t1: array<uint32>, ghost v: int)
    requires t1.Length == 10 && IsPow(t1, v, Ones(5))
    modifies t1
    ensures IsPow(t1, v, Ones(250))
  {
    hide Pow, Doubled, Ones, IsPow;
    var t2, t3 := new uint32[10], new uint32[10];
    JoinOnes(t1, t2, t1, t1, v, 5, 5);
    JoinOnes(t2, t2, t1, t1, v, 10, 10);
    JoinOnes(t2, t3, t2, t2, v, 20, 20);
    JoinOnes(t1, t2, t2, t1, v, 40, 10);
    JoinOnes(t2, t2, t1, t1, v, 50, 50);
    JoinOnes(t2, t3, t2, t2, v, 100, 100);
    JoinOnes(t1, t2, t2, t1, v, 200, 50);
  }

  /** fe25519_invert: out = z^(p - 2); `out` may be `z`. */
  method Invert(out: array<uint32>, z: array<uint32>)
    requires out.Length == 10 && z.Length == 10 && Short(z[..])
    modifies out
    ensures Short(out[..])
    ensures Res(out[..]) == Pow(old(Res(z[..])), P25519 - 2) % P25519
  {
    hide Pow, Short, Res, Doubled, Ones, IsPow;
    ghost var v := Res(z[..]);
    FirstPower(z);
    var t0, t1 := new uint32[10], new uint32[10];
    InvertStart(t0, t1, z, v);
    InvertRuns(t1, v);
    SquareTimes(t1, t1, 5, v, Ones(250));
    MulPow(out, t1, t0, v, Doubled(Ones(250), 5), 11);
    LastExponent();
    PowMeans(out, v, P25519 - 2);
  }

  lemma SmallExponents()
    ensures Doubled(2, 2) == 8 && Ones(5) == 31
  {}

  lemma PowMeans(a: array<uint32>, z: int, e: nat)
    ensures IsPow(a, z, e) ==> a.Length == 10 && Short(a[..]) && Res(a[..]) == Pow(z, e) % P25519
  {}

  /** The array is an operand of a multiplication with residue v. */
  ghost predicate Holds(a: array<uint32>, v: int)
    reads a
  {
    a.Length == 10 && Loose(a[..]) && Res(a[..]) == v
  }

  /** The array is an operand of any operation with residue v. */
  ghost predicate HoldsShort(a: array<uint32>, v: int)
    reads a
  {
    a.Length == 10 && Short(a[..]) && Res(a[..]) == v
  }

  method MulOf(h: array<uint32>, f: array<uint32>, g: array<uint32>, ghost x: int, ghost y: int)
    requires Holds(f, x) && Holds(g, y) && h.Length == 10
    modifies h
    ensures Holds(h, FMul(x, y)) && HoldsShort(h, FMul(x, y))
  {
    hide Short, Loose, Carried, Res, FMul;
    Mul(h, f, g);
    ShortIsLoose(h[..]);
  }

  method A24Of(h: array<uint32>, f: array<uint32>, ghost x: int)
    requires Holds(f, x) && h.Length == 10
    modifies h
    ensures HoldsShort(h, FMul(x, 121665))
  {
    hide Short, Loose, Carried, Res, FMul;
    MulA24(h, f);
  }

  method AddOf(h: array<uint32>, f: array<uint32>, g: array<uint32>, ghost x: int, ghost y: int)
    requires HoldsShort(f, x) && HoldsShort(g, y) && h.Length == 10
    modifies h
    ensures Holds(h, FAdd(x, y))
  {
    hide Short, Loose, Res, FAdd;
    Add(h, f, g);
  }

  method SubOf(h: array<uint32>, f: array<uint32>, g: array<uint32>, ghost x: int, ghost y: int)
    requires HoldsShort(f, x) && HoldsShort(g, y) && h.Length == 10
    modifies h
    ensures Holds(h, FSub(x, y))
  {
    hide Short, Loose, Res, FSub;
    Sub(h, f, g);
  }

  /** The four working arrays hold the ladder's values. */
  ghost predicate HoldsLadder(x2: array<uint32>, z2: array<uint32>, x3: array<uint32>, z3: array<uint32>, l: Ladder)
    reads x2, z2, x3, z3
  {
    HoldsShort(x2, l.x2) && HoldsShort(z2, l.z2) && HoldsShort(x3, l.x3) && HoldsShort(z3, l.z3)
  }

  /** The first half of an iteration: AA, BB and E from (x2 : z2). */
  method DoubleHalf(x2: array<uint32>, z2: array<uint32>, ghost p: int, ghost q: int)
    returns (A: array<uint32>, AA: array<uint32>, B: array<uint32>, BB: array<uint32>, E: array<uint32>)
    requires HoldsShort(x2, p) && HoldsShort(z2, q)
    ensures fresh(A) && fresh(AA) && fresh(B) && fresh(BB) && fresh(E)
    ensures Holds(A, FAdd(p, q)) && Holds(B, FSub(p, q))
    ensures var aa, bb := FMul(FAdd(p, q), FAdd(p, q)), FMul(FSub(p, q), FSub(p, q));
            Holds(AA, aa) && HoldsShort(AA, aa) && Holds(BB, bb) && HoldsShort(BB, bb) && Holds(E, FSub(aa, bb))
  {
    hide Holds, HoldsShort, FAdd, FSub, FMul;
    A, AA, B, BB, E := new uint32[10], new uint32[10], new uint32[10], new uint32[10], new uint32[10];
    ghost var a, b := FAdd(p, q), FSub(p, q);
    AddOf(A, x2, z2, p, q);
    MulOf(AA, A, A, a, a);
    SubOf(B, x2, z2, p, q);
    MulOf(BB, B, B, b, b);
    SubOf(E, AA, BB, FMul(a, a), FMul(b, b));
  }

  /** The second half: DA and CB. */
  method CrossHalf(x3: array<uint32>, z3: array<uint32>, A: array<uint32>, B: array<uint32>,
                   ghost p: int, ghost q: int, ghost a: int, ghost b: int)
    returns (DA: array<uint32>, CB: array<uint32>)
    requires HoldsShort(x3, p) && HoldsShort(z3, q) && Holds(A, a) && Holds(B, b)
    ensures fresh(DA) && fresh(CB)
    ensures HoldsShort(DA, FMul(FSub(p, q), a)) && HoldsShort(CB, FMul(FAdd(p, q), b))
  {
    hide Holds, HoldsShort, FAdd, FSub, FMul;
    var C, D := new uint32[10], new uint32[10];
    DA, CB := new uint32[10], new uint32[10];
    AddOf(C, x3, z3, p, q);
    SubOf(D, x3, z3, p, q);
    MulOf(DA, D, A, FSub(p, q), a);
    MulOf(CB, C, B, FAdd(p, q), b);
  }

  /** x3 and z3 from DA and CB. */
  method CrossResult(x3: array<uint32>, z3: array<uint32>, x1: array<uint32>, DA: array<uint32>, CB: array<uint32>,
                     ghost u: int, ghost da: int, ghost cb: int)
    requires HoldsShort(DA, da) && HoldsShort(CB, cb) && Holds(x1, u)
    requires x3.Length == 10 && z3.Length == 10 && x3 != z3 && x3 != DA && x3 != CB && z3 != DA && z3 != CB
             && x3 != x1 && z3 != x1
    modifies x3, z3
    ensures HoldsShort(x3, FMul(FAdd(da, cb), FAdd(da, cb)))
    ensures HoldsShort(z3, FMul(FMul(FSub(da, cb), FSub(da, cb)), u))
  {
    hide Holds, HoldsShort, FAdd, FSub, FMul;
    var tmp := new uint32[10];
    AddOf(tmp, DA, CB, da, cb);
    MulOf(x3, tmp, tmp, FAdd(da, cb), FAdd(da, cb));
    SubOf(tmp, DA, CB, da, cb);
    MulOf(z3, tmp, tmp, FSub(da, cb), FSub(da, cb));
    MulOf(z3, z3, x1, FMul(FSub(da, cb), FSub(da, cb)), u);
  }

  /** x2 and z2 from AA, BB and E. */
  method DoubleResult(x2: array<uint32>, z2: array<uint32>, AA: array<uint32>, BB: array<uint32>, E: array<uint32>,
                      ghost aa: int, ghost bb: int, ghost e: int)
    requires Holds(AA, aa) && HoldsShort(AA, aa) && Holds(BB, bb) && Holds(E, e)
    requires x2.Length == 10 && z2.Length == 10 && x2 != z2 && x2 != AA && x2 != E && z2 != E
    modifies x2, z2
    ensures HoldsShort(x2, FMul(aa, bb)) && HoldsShort(z2, FMul(e, FAdd(aa, FMul(e, 121665))))
  {
    hide Holds, HoldsShort, FAdd, FSub, FMul;
    var tmp := new uint32[10];
    MulOf(x2, AA, BB, aa, bb);
    A24Of(tmp, E, e);
    AddOf(tmp, AA, tmp, aa, FMul(e, 121665));
    MulOf(z2, E, tmp, e, FAdd(aa, FMul(e, 121665)));
  }

  /** One iteration of the ladder after its conditional swap. */
  method LadderStep(x1: array<uint32>, x2: array<uint32>, z2: array<uint32>, x3: array<uint32>, z3: array<uint32>,
                    ghost u: int, ghost l: Ladder)
    requires x1 != x2 && x1 != z2 && x1 != x3 && x1 != z3 && x2 != z2 && x2 != x3 && x2 != z3 && z2 != x3
             && z2 != z3 && x3 != z3
    requires Holds(x1, u) && HoldsLadder(x2, z2, x3, z3, l)
    modifies x2, z2, x3, z3
    ensures HoldsLadder(x2, z2, x3, z3, Step(l, u))
  {
    hide Holds, HoldsShort, FAdd, FSub, FMul;
    Lengths(x2, z2, x3, z3, l);
    ghost var a, b := FAdd(l.x2, l.z2), FSub(l.x2, l.z2);
    var A, AA, B, BB, E := DoubleHalf(x2, z2, l.x2, l.z2);
    var DA, CB := CrossHalf(x3, z3, A, B, l.x3, l.z3, a, b);
    CrossResult(x3, z3, x1, DA, CB, u, FMul(FSub(l.x3, l.z3), a), FMul(FAdd(l.x3, l.z3), b));
    DoubleResult(x2, z2, AA, BB, E, FMul(a, a), FMul(b, b), FSub(FMul(a, a), FMul(b, b)));
  }

  lemma Lengths(x2: array<uint32>, z2: array<uint32>, x3: array<uint32>, z3: array<uint32>, l: Ladder)
    ensures HoldsLadder(x2, z2, x3, z3, l) ==> x2.Length == 10 && z2.Length == 10 && x3.Length == 10 && z3.Length == 10
  {}

  /** fe25519_cswap on both coordinates. */
  method SwapPoints(x2: array<uint32>, z2: array<uint32>, x3: array<uint32>, z3: array<uint32>, swap: uint32,
                    ghost l: Ladder)
    requires x2 != z2 && x2 != x3 && x2 != z3 && z2 != x3 && z2 != z3 && x3 != z3 && swap <= 1
    requires HoldsLadder(x2, z2, x3, z3, l)
    modifies x2, z2, x3, z3
    ensures HoldsLadder(x2, z2, x3, z3, Swap(l, swap as int))
  {
    hide Short, Res;
    CSwap(x2, x3, swap);
    CSwap(z2, z3, swap);
  }

  /** One iteration: the scalar bit, the swaps and the step. */
  method Iteration(e: seq<uint8>, i: nat, swap: uint32, x1: array<uint32>, x2: array<uint32>, z2: array<uint32>,
                   x3: array<uint32>, z3: array<uint32>, ghost u: int, ghost l: Ladder) returns (b: uint32)
    requires |e| == 32 && i < 255 && swap <= 1
    requires x1 != x2 && x1 != z2 && x1 != x3 && x1 != z3 && x2 != z2 && x2 != x3 && x2 != z3 && z2 != x3
             && z2 != z3 && x3 != z3
    requires Holds(x1, u) && HoldsLadder(x2, z2, x3, z3, l)
    requires Iterate(LeValue(e), u, i + 1) == (l, swap as int)
    modifies x2, z2, x3, z3
    ensures b <= 1
    ensures var (l', swap') := Iterate(LeValue(e), u, i);
            b as int == swap' && HoldsLadder(x2, z2, x3, z3, l')
  {
    hide HoldsLadder, Holds, Step, LeValue, Pow;
    BitOfBytes(e, i);
    b := (e[i / 8] as int / Pow(2, i % 8) % 2) as uint32;
    var exchange := if swap == b then 0 else 1; // swap ^ b
    SwapPoints(x2, z2, x3, z3, exchange, l);
    LadderStep(x1, x2, z2, x3, z3, u, Swap(l, exchange as int));
  }

  // ----- the scalar that is used -----

  lemma OneByte(b: seq<uint8>)
    requires |b| == 1
    ensures LeValue(b) == b[0] as nat
  {
    assert b[1..] == [];
    assert LeValue(b) == b[0] as nat + 0x100 * LeValue(b[1..]);
  }

  /** First byte, the thirty bytes between, last byte. */
  lemma FirstAndLast(b: seq<uint8>)
    requires |b| == 32
    ensures LeValue(b) == b[0] as nat + 0x100 * LeValue(b[1..31]) + Pow(0x100, 31) * b[31] as nat
    ensures 0x100 * LeValue(b[1..31]) + 0x100 <= Pow(0x100, 31)
  {
    LeValueAppend(b[..31], b[31..]);
    assert b == b[..31] + b[31..] && b[..31][1..] == b[1..31];
    assert LeValue(b[..31]) == b[0] as nat + 0x100 * LeValue(b[1..31]);
    OneByte(b[31..]);
    LeValueBound(b[1..31]);
    assert Pow(0x100, 31) == 0x100 * Pow(0x100, 30);
  }

  /** The two changed bytes are the changed number. */
  lemma ClampSum(a: nat, m: nat, c: nat, p: nat, v: nat, q: nat)
    requires a < 0x100 && v == a + 0x100 * m + p * c && p == 8 * q && q > 0
    requires 0x100 * m + 0x100 <= p
    ensures v % (64 * p) / 8 * 8 + 64 * p == a / 8 * 8 + 0x100 * m + p * (c % 64 + 64)
  {
    var low := a + 0x100 * m;
    assert v == p * c + low;
    assert c == 64 * (c / 64) + c % 64;
    assert p * c == c / 64 * (64 * p) + p * (c % 64);
    MulMono(c % 64, 63, p);
    DivModUnique(v, 64 * p, c / 64, p * (c % 64) + low);
    assert p * (c % 64) == q * (c % 64) * 8;
    DivModUnique(p * (c % 64) + low, 8, q * (c % 64) + 32 * m + a / 8, a % 8);
  }

  lemma TopByte()
    ensures Pow(0x100, 31) * 64 == TWO_254 && Pow(0x100, 31) == 8 * (TWO_254 / 512)
  {
    assert Pow(0x100, 8) == 0x1_0000_0000_0000_0000;
    PowAdd(0x100, 8, 8);
    PowAdd(0x100, 16, 8);
    PowAdd(0x100, 24, 7);
    assert Pow(0x100, 7) == 0x100_0000_0000_0000;
  }

  /** Masking and setting bits of the first and the last byte gives the
      scalar. */
  lemma ClampedBytes(k: seq<uint8>, e: seq<uint8>)
    requires |k| == 32 && e == k[0 := k[0] / 8 * 8][31 := k[31] % 64 + 64]
    ensures LeValue(e) == DecodeScalar(k)
  {
    hide LeValue, Pow;
    FirstAndLast(k);
    FirstAndLast(e);
    assert e[1..31] == k[1..31];
    TopByte();
    ClampSum(k[0] as nat, LeValue(k[1..31]), k[31] as nat, Pow(0x100, 31), LeValue(k), TWO_254 / 512);
  }

  /** Bit by bit: bits 0 to 2 are clear, bits 3 to 253 are those of the string,
      bit 254 is set and nothing is above it. */
  lemma ScalarBits(k: seq<uint8>, i: nat)
    requires |k| == 32 && i < 256
    ensures Bit(DecodeScalar(k), i) == if i < 3 || i == 255 then 0 else if i == 254 then 1 else Bit(LeValue(k), i)
  {
    hide LeValue, Bit, DecodeScalar, Pow;
    var e := k[0 := k[0] / 8 * 8][31 := k[31] % 64 + 64];
    ClampedBytes(k, e);
    BitOfBytes(e, i);
    BitOfBytes(k, i);
    ClampedByte(k[0] as nat, i % 8);
    ClampedByte(k[31] as nat, i % 8);
  }

  lemma ClampedByte(a: nat, t: nat)
    requires a < 0x100 && t < 8
    ensures Bit(a / 8 * 8, t) == if t < 3 then 0 else Bit(a, t)
    ensures Bit(a % 64 + 64, t) == if t == 6 then 1 else if t == 7 then 0 else Bit(a, t)
  {
    assert Pow(2, 3) == 8 && Pow(2, 6) == 64;
    TopBits(a % 64);
    hide Bit, Pow;
    BitOfMultiple(a, 3, t);
    BitOfRemainder(a, 6, t);
    BitOfRemainder(a % 64 + 64, 6, t);
    assert (a % 64 + 64) % 64 == a % 64;
  }

  lemma TopBits(x: nat)
    requires x < 64
    ensures Bit(x + 64, 6) == 1 && Bit(x + 64, 7) == 0
  {
    assert Pow(2, 6) == 64 && Pow(2, 7) == 128;
    hide Pow;
    DivModUnique(x + 64, 64, 1, x);
    DivModUnique(x + 64, 128, 0, x + 64);
  }

  /** x25519_ladder: the result, encoded in 32 bytes. */
  method Ladder25519(k: seq<uint8>, u: seq<uint8>, out: array<uint8>)
    requires |k| == 32 && |u| == 32 && out.Length == 32
    modifies out
    ensures LeValue(out[..]) == X25519(k, u)
  {
    hide HoldsLadder, Holds, HoldsShort, Step, LeValue, Pow, Short, Res, FMul;
    var x1, x2, z2 := new uint32[10], new uint32[10], new uint32[10];
    var x3, z3 := new uint32[10], new uint32[10];
    var e := k;
    e := e[0 := e[0] / 8 * 8]; // e[0] &= 248
    e := e[31 := e[31] % 128]; // e[31] &= 127
    e := e[31 := if e[31] < 64 then e[31] + 64 else e[31]]; // e[31] |= 64
    ClampedBytes(k, e);
    ghost var v, l := DecodeU(u), Ladder(1, 0, DecodeU(u), 1);
    Start(x1, x2, z2, x3, z3, u);
    var swap: uint32 := 0;
    var i := 254;
    while i >= 0
      invariant -1 <= i <= 254 && swap <= 1
      invariant Iterate(LeValue(e), v, i + 1) == (l, swap as int)
      invariant Holds(x1, v) && HoldsLadder(x2, z2, x3, z3, l)
    {
      swap := Iteration(e, i, swap, x1, x2, z2, x3, z3, v, l);
      l := Iterate(LeValue(e), v, i).0;
      i := i - 1;
    }
    SwapPoints(x2, z2, x3, z3, swap, l);
    FinishLadder(x2, z2, out, Swap(l, swap as int).x2, Swap(l, swap as int).z2) by {
      Coordinates(x2, z2, x3, z3, Swap(l, swap as int));
    }
  }

  lemma Coordinates(x2: array<uint32>, z2: array<uint32>, x3: array<uint32>, z3: array<uint32>, l: Ladder)
    ensures HoldsLadder(x2, z2, x3, z3, l) ==> HoldsShort(x2, l.x2) && HoldsShort(z2, l.z2)
  {}

  /** The working values before the first iteration. */
  method Start(x1: array<uint32>, x2: array<uint32>, z2: array<uint32>, x3: array<uint32>, z3: array<uint32>,
               u: seq<uint8>)
    requires x1 != x2 && x1 != z2 && x1 != x3 && x1 != z3 && x2 != z2 && x2 != x3 && x2 != z3 && z2 != x3
             && z2 != z3 && x3 != z3
    requires x1.Length == 10 && x2.Length == 10 && z2.Length == 10 && x3.Length == 10 && z3.Length == 10 && |u| == 32
    modifies x1, x2, z2, x3, z3
    ensures Holds(x1, DecodeU(u))
    ensures HoldsLadder(x2, z2, x3, z3, Ladder(1, 0, DecodeU(u), 1))
  {
    hide Short, Loose, LeValue, Value;
    FromBytes(x1, u);
    ShortIsLoose(x1[..]);
    SetSmall(x2, 1);
    SetSmall(z2, 0);
    Copy(x3, x1);
    SetSmall(z3, 1);
  }

  /** x2 / z2, encoded. */
  method FinishLadder(x2: array<uint32>, z2: array<uint32>, out: array<uint8>, ghost x: int, ghost z: int)
    requires x2 != z2 && HoldsShort(x2, x) && HoldsShort(z2, z) && out.Length == 32
    modifies x2, z2, out
    ensures LeValue(out[..]) == FMul(x, Pow(z, P25519 - 2) % P25519)
  {
    hide Short, Loose, Carried, Res, FMul, Pow, LeValue;
    Invert(z2, z2);
    ShortIsLoose(x2[..]);
    ShortIsLoose(z2[..]);
    Mul(x2, x2, z2);
    ToBytes(out, x2);
  }

  /** zz9k_soft_x25519: rejects exactly the all-zero result. */
  method Exchange(out: array<uint8>, scalar: seq<uint8>, point: seq<uint8>) returns (ok: bool)
    requires |scalar| == 32 && |point| == 32 && out.Length == 32
    modifies out
    ensures LeValue(out[..]) == X25519(scalar, point)
    ensures ok <==> X25519(scalar, point) != 0
  {
    hide X25519;
    Ladder25519(scalar, point, out);
    var zero := false; // whether some byte seen so far is not zero
    for i := 0 to 32
      invariant zero <==> exists j :: 0 <= j < i && out[j] != 0
    {
      if out[i] != 0 {
        zero := true;
      }
    }
    ok := zero;
    ZeroBytes(out[..]);
  }

  /** Only zero bytes have the value zero. */
  lemma {:induction false} ZeroBytes(b: seq<uint8>)
    ensures LeValue(b) == 0 <==> forall j :: 0 <= j < |b| ==> b[j] == 0
  {
    if b != [] {
      ZeroBytes(b[1..]);
      assert forall j :: 1 <= j < |b| ==> b[j] == b[1..][j - 1];
    }
  }
}
