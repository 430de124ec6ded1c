/** CRC-16 (polynomial 0x8005, start 0, bytes and remainder reflected): the table-driven form computes
    what the bit-by-bit form computes. */
module Crc16 {

  const INITIAL_REMAINDER: bv16 := 0x0000

  // Exclusive or, the shifts and the tests of single bits have names of their own, so that proofs
  // about whole steps need not look into them.

  function Xor(a: bv16, b: bv16): bv16 {
    a ^ b
  }

  function Twice(r: bv16): bv16 {
    r << 1
  }

  predicate Top(r: bv16) {
    r & 0x8000 != 0
  }

  predicate Odd(r: bv16) {
    r & 1 != 0
  }

  function Up(r: bv16): bv16 {
    r << 8
  }

  function Down(r: bv16): (d: bv16)
    ensures d < 256
  {
    r >> 8
  }

  // ---- one bit and one byte of the division ----

  /** One step of the division by the polynomial. */
  function BitStep(r: bv16): bv16 {
    if Top(r) then Xor(Twice(r), 0x8005) else Twice(r)
  }

  function Bits(r: bv16, n: nat): bv16
    decreases n
  {
    if n == 0 then r else Bits(BitStep(r), n - 1)
  }

  function ByteStep(r: bv16): bv16 {
    Bits(r, 8)
  }

  lemma XorAssoc(a: bv16, b: bv16, c: bv16)
    ensures Xor(Xor(a, b), c) == Xor(a, Xor(b, c))
  {
  }

  lemma XorSwaps(a: bv16, b: bv16)
    ensures Xor(a, b) == Xor(b, a)
  {
  }

  lemma XorUndoes(a: bv16)
    ensures Xor(a, a) == 0 && Xor(a, 0) == a
  {
  }

  lemma XorCancels(a: bv16, b: bv16, c: bv16)
    ensures Xor(a, c) == Xor(b, c) ==> a == b
    ensures Xor(c, a) == Xor(c, b) ==> a == b
  {
  }

  lemma XorTwice(a: bv16, b: bv16)
    ensures Twice(Xor(a, b)) == Xor(Twice(a), Twice(b))
  {
  }

  lemma XorTop(a: bv16, b: bv16)
    ensures Top(Xor(a, b)) <==> Top(a) != Top(b)
  {
  }

  lemma XorMoves(a: bv16, b: bv16, p: bv16)
    ensures Xor(Xor(a, p), b) == Xor(Xor(a, b), p) && Xor(a, Xor(b, p)) == Xor(Xor(a, b), p)
    ensures Xor(Xor(a, p), Xor(b, p)) == Xor(a, b)
  {
    hide Xor;
    XorAssoc(a, p, b);
    XorAssoc(a, b, p);
    XorSwaps(p, b);
    XorAssoc(Xor(a, p), b, p);
    XorAssoc(Xor(a, b), p, p);
    XorUndoes(p);
    XorUndoes(Xor(a, b));
  }

  lemma BitLinear(a: bv16, b: bv16)
    ensures BitStep(Xor(a, b)) == Xor(BitStep(a), BitStep(b))
  {
    hide Xor, Twice, Top;
    XorTwice(a, b);
    XorTop(a, b);
    XorMoves(Twice(a), Twice(b), 0x8005);
  }

  lemma TwiceInjective(a: bv16, b: bv16)
    ensures Twice(a) == Twice(b) && (Top(a) <==> Top(b)) ==> a == b
  {
  }

  /** The polynomial has a constant term. */
  lemma TwiceIsEven(a: bv16)
    ensures !Odd(Twice(a)) && Odd(Xor(Twice(a), 0x8005))
  {
  }

  /** So no two remainders step to the same one. */
  lemma BitInjective(a: bv16, b: bv16)
    requires BitStep(a) == BitStep(b)
    ensures a == b
  {
    hide Xor, Twice, Top, Odd;
    TwiceIsEven(a);
    TwiceIsEven(b);
    XorCancels(Twice(a), Twice(b), 0x8005);
    TwiceInjective(a, b);
  }

  /** Dividing is linear over exclusive or. */
  lemma {:induction false} BitsLinear(a: bv16, b: bv16, n: nat)
    ensures Bits(Xor(a, b), n) == Xor(Bits(a, n), Bits(b, n))
    decreases n
  {
    hide BitStep, Xor;
    if n == 0 {
      assert Bits(a, 0) == a && Bits(b, 0) == b;
    } else {
      BitLinear(a, b);
      BitsLinear(BitStep(a), BitStep(b), n - 1);
    }
  }

  lemma {:induction false} BitsInjective(a: bv16, b: bv16, n: nat)
    requires Bits(a, n) == Bits(b, n)
    ensures a == b
    decreases n
  {
    hide BitStep;
    if n == 0 {
    } else {
      BitsInjective(BitStep(a), BitStep(b), n - 1);
      BitInjective(a, b);
    }
  }

  lemma ShiftsUp(lo: bv16)
    requires lo < 256
    ensures BitStep(lo) == lo << 1 && BitStep(lo << 1) == lo << 2 && BitStep(lo << 2) == lo << 3
    ensures BitStep(lo << 3) == lo << 4 && BitStep(lo << 4) == lo << 5 && BitStep(lo << 5) == lo << 6
    ensures BitStep(lo << 6) == lo << 7 && BitStep(lo << 7) == lo << 8
  {
  }

  /** The low byte is only shifted up. */
  lemma LowByte(lo: bv16)
    requires lo < 256
    ensures ByteStep(lo) == Up(lo)
  {
    ShiftsUp(lo);
    hide BitStep;
    assert Bits(lo, 8) == Bits(lo << 1, 7) == Bits(lo << 2, 6) == Bits(lo << 3, 5) == Bits(lo << 4, 4);
    assert Bits(lo << 4, 4) == Bits(lo << 5, 3) == Bits(lo << 6, 2) == Bits(lo << 7, 1) == Bits(lo << 8, 0);
  }

  lemma SplitBytes(r: bv16, d: bv16)
    requires d < 256
    ensures Xor(r, Up(d)) == Xor(Up(Xor(d, Down(r))), r & 0xFF)
    ensures r & 0xFF < 256 && Up(r & 0xFF) == Up(r) && Xor(d, Down(r)) < 256
  {
  }

  /** One table lookup is eight shifts: the step of the fast form is the step of the slow form. */
  lemma LookupIsEight(r: bv16, d: bv16)
    requires d < 256
    ensures ByteStep(Xor(r, Up(d))) == Xor(ByteStep(Up(Xor(d, Down(r)))), Up(r))
  {
    SplitBytes(r, d);
    hide Bits, Xor, Up, Down;
    BitsLinear(Up(Xor(d, Down(r))), r & 0xFF, 8);
    LowByte(r & 0xFF);
  }

  // ---- reflecting ----

  function Or(a: bv32, b: bv32): bv32 {
    a | b
  }

  function One(k: nat): bv32
    requires k < 32
  {
    1 << k
  }

  /** One turn of the loop of reflect: the lowest bit goes to place `k`. */
  function Copy(acc: bv32, x: bv32, k: nat): bv32
    requires k < 32
  {
    if x & 1 != 0 then Or(acc, One(k)) else acc
  }

  function Half(x: bv32): bv32 {
    x >> 1
  }

  /** The lowest `n` bits of `x`, in reverse order, added to `acc`. */
  function Mirror(acc: bv32, x: bv32, n: nat): bv32
    requires n <= 32
    decreases n
  {
    if n == 0 then acc else Mirror(Copy(acc, x, n - 1), Half(x), n - 1)
  }

  /** reflect */
  method Reflect(data: bv32, nBits: nat) returns (reflection: bv32)
    requires nBits <= 32
    ensures reflection == Mirror(0, data, nBits)
  {
    reflection := 0;
    var rest, bit := data, 0;
    while bit < nBits
      invariant 0 <= bit <= nBits
      invariant Mirror(reflection, rest, nBits - bit) == Mirror(0, data, nBits)
    {
      if rest & 1 != 0 {
        reflection := reflection | (1 << (nBits - 1 - bit));
      }
      rest := rest >> 1;
      bit := bit + 1;
    }
  }

  /** Bit k goes to place 7 - k. */
  function MirroredByte(x: bv32): (m: bv32)
    ensures m < 256
  {
    ((x & 1) << 7) | ((x & 2) << 5) | ((x & 4) << 3) | ((x & 8) << 1)
    | ((x & 16) >> 1) | ((x & 32) >> 3) | ((x & 64) >> 5) | ((x & 128) >> 7)
  }

  function MirroredWord(x: bv32): bv32 {
    (MirroredByte(x) << 8) | MirroredByte(x >> 8)
  }

  lemma OrFacts(a: bv32, b: bv32, c: bv32)
    ensures Or(Or(a, b), c) == Or(a, Or(b, c)) && Or(a, 0) == a && Or(0, a) == a
  {
  }

  lemma CopyOr(acc: bv32, x: bv32, k: nat)
    requires k < 32
    ensures Copy(acc, x, k) == Or(acc, Copy(0, x, k))
  {
    hide Or, One;
    OrFacts(acc, 0, 0);
    OrFacts(One(k), 0, 0);
  }

  /** What has been collected stays. */
  lemma {:induction false} MirrorOr(acc: bv32, x: bv32, n: nat)
    requires n <= 32
    ensures Mirror(acc, x, n) == Or(acc, Mirror(0, x, n))
    decreases n
  {
    hide Copy, Half, Or;
    if n == 0 {
      OrFacts(acc, 0, 0);
    } else {
      CopyOr(acc, x, n - 1);
      MirrorOr(Copy(acc, x, n - 1), Half(x), n - 1);
      MirrorOr(Copy(0, x, n - 1), Half(x), n - 1);
      OrFacts(acc, Copy(0, x, n - 1), Mirror(0, Half(x), n - 1));
    }
  }

  lemma UnrollFour(acc: bv32, x: bv32, n: nat)
    requires 4 <= n <= 32
    ensures Mirror(acc, x, n) ==
      var x1 := Half(x); var x2 := Half(x1); var x3 := Half(x2);
      Mirror(Copy(Copy(Copy(Copy(acc, x, n - 1), x1, n - 2), x2, n - 3), x3, n - 4), Half(x3), n - 4)
  {
    hide Copy, Half;
    var a1, x1 := Copy(acc, x, n - 1), Half(x);
    var a2, x2 := Copy(a1, x1, n - 2), Half(x1);
    var a3, x3 := Copy(a2, x2, n - 3), Half(x2);
    assert Mirror(acc, x, n) == Mirror(a1, x1, n - 1) == Mirror(a2, x2, n - 2) == Mirror(a3, x3, n - 3);
  }

  lemma UnrollEight(x: bv32)
    ensures Mirror(0, x, 8) ==
      var x1 := Half(x); var x2 := Half(x1); var x3 := Half(x2); var x4 := Half(x3);
      var x5 := Half(x4); var x6 := Half(x5); var x7 := Half(x6);
      Copy(Copy(Copy(Copy(Copy(Copy(Copy(Copy(0, x, 7), x1, 6), x2, 5), x3, 4), x4, 3), x5, 2), x6, 1), x7, 0)
  {
    hide Copy, Half;
    var x1 := Half(x); var x2 := Half(x1); var x3 := Half(x2);
    UnrollFour(0, x, 8);
    UnrollFour(Copy(Copy(Copy(Copy(0, x, 7), x1, 6), x2, 5), x3, 4), Half(x3), 4);
  }

  lemma MirrorEight(x: bv32)
    ensures Mirror(0, x, 8) == MirroredByte(x)
  {
    UnrollEight(x);
    hide Mirror;
  }

  lemma UnrollHigh(x: bv32)
    ensures Mirror(0, x, 16) ==
      var x1 := Half(x); var x2 := Half(x1); var x3 := Half(x2); var x4 := Half(x3);
      var x5 := Half(x4); var x6 := Half(x5); var x7 := Half(x6);
      var a4 := Copy(Copy(Copy(Copy(0, x, 15), x1, 14), x2, 13), x3, 12);
      Mirror(Copy(Copy(Copy(Copy(a4, x4, 11), x5, 10), x6, 9), x7, 8), Half(x7), 8)
  {
    hide Copy, Half, Mirror;
    var x1 := Half(x); var x2 := Half(x1); var x3 := Half(x2);
    UnrollFour(0, x, 16);
    UnrollFour(Copy(Copy(Copy(Copy(0, x, 15), x1, 14), x2, 13), x3, 12), Half(x3), 12);
  }

  lemma MirrorHigh(x: bv32)
    ensures Mirror(0, x, 16) == Mirror(MirroredByte(x) << 8, x >> 8, 8)
  {
    UnrollHigh(x);
    hide Mirror;
  }

  lemma MirrorSixteen(x: bv32)
    ensures Mirror(0, x, 16) == MirroredWord(x)
  {
    hide Mirror, MirroredByte;
    MirrorHigh(x);
    MirrorOr(MirroredByte(x) << 8, x >> 8, 8);
    MirrorEight(x >> 8);
  }

  /** Reflecting eight or sixteen bits reverses their order, so doing it twice gives them back. */
  lemma ReflectTwice(x: bv32)
    ensures Mirror(0, x, 8) == MirroredByte(x) && Mirror(0, x, 16) == MirroredWord(x)
    ensures x < 0x100 ==> MirroredByte(MirroredByte(x)) == x
    ensures x < 0x10000 ==> MirroredWord(x) < 0x10000 && MirroredWord(MirroredWord(x)) == x
  {
    hide Mirror, MirroredByte, MirroredWord;
    MirrorEight(x);
    MirrorSixteen(x);
    MirrorsBack(x);
  }

  lemma MirrorsBack(x: bv32)
    ensures x < 0x100 ==> MirroredByte(MirroredByte(x)) == x
    ensures x < 0x10000 ==> MirroredWord(x) < 0x10000 && MirroredWord(MirroredWord(x)) == x
  {
  }
}
