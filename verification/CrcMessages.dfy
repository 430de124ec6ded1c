/** Whole messages: crcSlow, crcInit and crcFast, and what the checksum detects. */
module CrcMessages {
  import opened Crc16

  /** REFLECT_DATA */
  function Data(m: bv8): (d: bv16)
    ensures d < 256
  {
    (Mirror(0, m as bv32, 8) & 0xFF) as bv16
  }

  /** REFLECT_REMAINDER(...) ^ FINAL_XOR_VALUE, which is 0 */
  function Finish(r: bv16): bv16 {
    (Mirror(0, r as bv32, 16) & 0xFFFF) as bv16
  }

  /** The division, bit by bit. */
  function Remainder(r: bv16, msg: seq<bv8>): bv16
    decreases |msg|
  {
    if msg == [] then r else Remainder(ByteStep(Xor(r, Up(Data(msg[0])))), msg[1..])
  }

  /** The checksum of a message. */
  function Crc(msg: seq<bv8>): bv16 {
    Finish(Remainder(INITIAL_REMAINDER, msg))
  }

  /** The table entry of a byte. */
  function Entry(i: bv16): bv16 {
    ByteStep(Up(i))
  }

  /** What crcInit leaves in crcTable. */
  ghost predicate Filled(table: seq<bv16>) {
    |table| == 256 && forall i :: 0 <= i < 256 ==> table[i] == Entry(i as bv16)
  }

  lemma {:induction false} RemainderAppend(r: bv16, a: seq<bv8>, b: seq<bv8>)
    ensures Remainder(r, a + b) == Remainder(Remainder(r, a), b)
    decreases |a|
  {
    hide ByteStep, Xor, Up, Data;
    if a == [] {
      assert a + b == b;
    } else {
      assert (a + b)[0] == a[0] && (a + b)[1..] == a[1..] + b;
      RemainderAppend(ByteStep(Xor(r, Up(Data(a[0])))), a[1..], b);
    }
  }

  lemma RemainderSnoc(r: bv16, msg: seq<bv8>, k: nat)
    requires k < |msg|
    ensures Remainder(r, msg[..k + 1]) == ByteStep(Xor(Remainder(r, msg[..k]), Up(Data(msg[k]))))
  {
    hide ByteStep, Xor, Up, Data;
    assert msg[..k + 1] == msg[..k] + [msg[k]];
    RemainderAppend(r, msg[..k], [msg[k]]);
    var u := ByteStep(Xor(Remainder(r, msg[..k]), Up(Data(msg[k]))));
    assert [msg[k]][0] == msg[k] && [msg[k]][1..] == [];
    assert Remainder(u, []) == u;
  }

  /** crcSlow */
  method CrcSlow(message: array<bv8>, nBytes: nat) returns (crc: bv16)
    requires nBytes <= message.Length
    ensures crc == Crc(message[..nBytes])
  {
    hide Mirror, Bits, BitStep, Up;
    var remainder := INITIAL_REMAINDER;
    var byte := 0;
    assert message[..0] == [];
    while byte < nBytes
      invariant 0 <= byte <= nBytes
      invariant remainder == Remainder(INITIAL_REMAINDER, message[..byte])
    {
      RemainderSnoc(INITIAL_REMAINDER, message[..nBytes], byte);
      assert message[..nBytes][..byte] == message[..byte] && message[..nBytes][..byte + 1] == message[..byte + 1];
      var reflected := ReflectData(message[byte]);
      remainder := Xor(remainder, Up(reflected));
      remainder := DivideByte(remainder);
      byte := byte + 1;
    }
    crc := ReflectRemainder(remainder);
  }

  method ReflectData(m: bv8) returns (d: bv16)
    ensures d == Data(m)
  {
    hide Mirror;
    var x := Reflect(m as bv32, 8);
    d := (x & 0xFF) as bv16;
  }

  method ReflectRemainder(r: bv16) returns (f: bv16)
    ensures f == Finish(r)
  {
    hide Mirror;
    var x := Reflect(r as bv32, 16);
    f := (x & 0xFFFF) as bv16;
  }

  /** The inner loop of crcSlow and crcInit. */
  method DivideByte(start: bv16) returns (remainder: bv16)
    ensures remainder == ByteStep(start)
  {
    remainder := start;
    var bit := 8;
    while bit > 0
      invariant 0 <= bit <= 8
      invariant Bits(remainder, bit) == Bits(start, 8)
    {
      if remainder & 0x8000 != 0 {
        remainder := (remainder << 1) ^ 0x8005;
      } else {
        remainder := remainder << 1;
      }
      bit := bit - 1;
    }
  }

  /** crcInit */
  method CrcInit(crcTable: array<bv16>)
    requires crcTable.Length == 256
    modifies crcTable
    ensures Filled(crcTable[..])
  {
    hide ByteStep, Up;
    var dividend := 0;
    while dividend < 256
      invariant 0 <= dividend <= 256
      invariant forall i :: 0 <= i < dividend ==> crcTable[i] == Entry(i as bv16)
    {
      var remainder := DivideByte(Up(dividend as bv16));
      crcTable[dividend] := remainder;
      dividend := dividend + 1;
    }
  }

  lemma IndexBack(d: bv16)
    requires d < 256
    ensures (d as nat) < 256 && (d as nat) as bv16 == d
  {
  }

  /** crcFast: with the table in place it computes what crcSlow computes. */
  method CrcFast(crcTable: array<bv16>, message: array<bv8>, nBytes: nat) returns (crc: bv16)
    requires Filled(crcTable[..]) && nBytes <= message.Length
    ensures crc == Crc(message[..nBytes])
  {
    hide Mirror, ByteStep, Up, Down, Xor, Data, Finish;
    var remainder := INITIAL_REMAINDER;
    var byte := 0;
    assert message[..0] == [];
    while byte < nBytes
      invariant 0 <= byte <= nBytes
      invariant remainder == Remainder(INITIAL_REMAINDER, message[..byte])
    {
      RemainderSnoc(INITIAL_REMAINDER, message[..nBytes], byte);
      assert message[..nBytes][..byte] == message[..byte] && message[..nBytes][..byte + 1] == message[..byte + 1];
      var reflected := ReflectData(message[byte]);
      LookupIsEight(remainder, reflected);
      XorSmall(reflected, Down(remainder));
      var data := Xor(reflected, Down(remainder));
      IndexBack(data);
      remainder := Xor(crcTable[data as nat], Up(remainder));
      byte := byte + 1;
    }
    crc := ReflectRemainder(remainder);
  }

  lemma XorSmall(a: bv16, b: bv16)
    requires a < 256 && b < 256
    ensures Xor(a, b) < 256
  {
  }

  // ---- error detection ----

  /** A difference in the remainder never goes away again. */
  lemma {:induction false} DifferenceStays(a: bv16, b: bv16, msg: seq<bv8>)
    requires Remainder(a, msg) == Remainder(b, msg)
    ensures a == b
    decreases |msg|
  {
    hide BitStep, Xor, Up, Data;
    if msg == [] {
    } else {
      var d := Up(Data(msg[0]));
      DifferenceStays(ByteStep(Xor(a, d)), ByteStep(Xor(b, d)), msg[1..]);
      BitsInjective(Xor(a, d), Xor(b, d), 8);
      XorCancels(a, b, d);
    }
  }

  lemma {:induction false} BitsAdd(r: bv16, m: nat, n: nat)
    ensures Bits(Bits(r, m), n) == Bits(r, m + n)
    decreases m
  {
    hide BitStep;
    if m == 0 {
    } else {
      BitsAdd(BitStep(r), m - 1, n);
    }
  }

  /** Two bytes of the division at once. */
  lemma TwoBytes(r: bv16, d1: bv16, d2: bv16)
    requires d1 < 256 && d2 < 256
    ensures ByteStep(Xor(ByteStep(Xor(r, Up(d1))), Up(d2))) == Bits(Xor(Xor(r, Up(d1)), d2), 16)
  {
    hide BitStep, Xor, Up;
    var u := Xor(r, Up(d1));
    LowByte(d2);
    BitsLinear(Bits(u, 8), Bits(d2, 8), 8);
    BitsAdd(u, 8, 8);
    BitsAdd(d2, 8, 8);
    BitsLinear(u, d2, 16);
  }

  lemma PairApart(x1: bv16, x2: bv16)
    requires x1 < 256 && x2 < 256
    ensures Down(Xor(Up(x1), x2)) == x1 && Xor(Up(x1), x2) & 0xFF == x2
  {
  }

  lemma PairsDiffer(r: bv16, x1: bv16, x2: bv16, y1: bv16, y2: bv16)
    requires x1 < 256 && x2 < 256 && y1 < 256 && y2 < 256
    requires Xor(Xor(r, Up(x1)), x2) == Xor(Xor(r, Up(y1)), y2)
    ensures x1 == y1 && x2 == y2
  {
    hide Xor, Up, Down;
    XorAssoc(r, Up(x1), x2);
    XorAssoc(r, Up(y1), y2);
    XorCancels(Xor(Up(x1), x2), Xor(Up(y1), y2), r);
    PairApart(x1, x2);
    PairApart(y1, y2);
  }

  lemma SmallMask(a: bv32)
    ensures a < 0x100 ==> ((a & 0xFF) as bv16) as bv32 == a
    ensures a < 0x10000 ==> ((a & 0xFFFF) as bv16) as bv32 == a
  {
  }

  lemma DataIs(m: bv8)
    ensures (Data(m) as bv32) == MirroredByte(m as bv32) && (m as bv32) < 0x100
  {
    hide Mirror, MirroredByte, MirroredWord;
    ReflectTwice(m as bv32);
    SmallMask(MirroredByte(m as bv32));
  }

  lemma FinishIs(r: bv16)
    ensures (Finish(r) as bv32) == MirroredWord(r as bv32) && (r as bv32) < 0x10000
  {
    hide Mirror, MirroredByte, MirroredWord;
    ReflectTwice(r as bv32);
    SmallMask(MirroredWord(r as bv32));
  }

  lemma SameByte(x: bv8, y: bv8)
    ensures x as bv32 == y as bv32 ==> x == y
  {
  }

  lemma SameWord(x: bv16, y: bv16)
    ensures x as bv32 == y as bv32 ==> x == y
  {
  }

  lemma DataInjective(x: bv8, y: bv8)
    requires Data(x) == Data(y)
    ensures x == y
  {
    hide Data, Mirror, MirroredByte, MirroredWord;
    DataIs(x);
    DataIs(y);
    ReflectTwice(x as bv32);
    ReflectTwice(y as bv32);
    SameByte(x, y);
  }

  lemma FinishInjective(a: bv16, b: bv16)
    requires Finish(a) == Finish(b)
    ensures a == b
  {
    hide Finish, Mirror, MirroredByte, MirroredWord;
    FinishIs(a);
    FinishIs(b);
    ReflectTwice(a as bv32);
    ReflectTwice(b as bv32);
    SameWord(a, b);
  }

  lemma RemainderPair(r: bv16, x1: bv8, x2: bv8)
    ensures Remainder(r, [x1, x2]) == Bits(Xor(Xor(r, Up(Data(x1))), Data(x2)), 16)
  {
    hide ByteStep, Xor, Up, Data;
    assert [x1, x2][..1] == [x1] && [x1, x2][..0] == [] && [x1, x2][..2] == [x1, x2];
    RemainderSnoc(r, [x1, x2], 0);
    RemainderSnoc(r, [x1, x2], 1);
    TwoBytes(r, Data(x1), Data(x2));
  }

  /** Any damage confined to two neighbouring bytes changes the checksum. */
  lemma DetectsDamage(before: seq<bv8>, x1: bv8, x2: bv8, y1: bv8, y2: bv8, after: seq<bv8>)
    requires Crc(before + [x1, x2] + after) == Crc(before + [y1, y2] + after)
    ensures x1 == y1 && x2 == y2
  {
    hide Finish, Xor, Up, Data, BitStep, Bits, ByteStep;
    var z := INITIAL_REMAINDER;
    FinishInjective(Remainder(z, before + [x1, x2] + after), Remainder(z, before + [y1, y2] + after));
    var r := Remainder(z, before);
    RemainderAppend(z, before + [x1, x2], after);
    RemainderAppend(z, before + [y1, y2], after);
    RemainderAppend(z, before, [x1, x2]);
    RemainderAppend(z, before, [y1, y2]);
    DifferenceStays(Remainder(r, [x1, x2]), Remainder(r, [y1, y2]), after);
    RemainderPair(r, x1, x2);
    RemainderPair(r, y1, y2);
    BitsInjective(Xor(Xor(r, Up(Data(x1))), Data(x2)), Xor(Xor(r, Up(Data(y1))), Data(y2)), 16);
    PairsDiffer(r, Data(x1), Data(x2), Data(y1), Data(y2));
    DataInjective(x1, y1);
    DataInjective(x2, y2);
  }

  // ---- the checksum behind the message ----

  lemma {:induction false} ZeroStays(n: nat)
    ensures Bits(0, n) == 0
    decreases n
  {
    if n == 0 {
    } else {
      ZeroStays(n - 1);
    }
  }

  function LowHalf(c: bv16): bv8 {
    (c & 0xFF) as bv8
  }

  function HighHalf(c: bv16): bv8 {
    (c >> 8) as bv8
  }

  /** The two halves of the reflected remainder, as the division sees them again. */
  lemma HalvesBack(r: bv16)
    ensures Data(LowHalf(Finish(r))) == Down(r) && Data(HighHalf(Finish(r))) == r & 0xFF
  {
    hide Data, Finish, Mirror;
    FinishIs(r);
    var c := Finish(r);
    DataIs(LowHalf(c));
    DataIs(HighHalf(c));
    HalvesOf(r, c);
    SameWord(Data(LowHalf(c)), Down(r));
    SameWord(Data(HighHalf(c)), r & 0xFF);
  }

  lemma HalvesOf(r: bv16, c: bv16)
    requires (c as bv32) == MirroredWord(r as bv32)
    ensures MirroredByte(LowHalf(c) as bv32) == Down(r) as bv32
    ensures MirroredByte(HighHalf(c) as bv32) == (r & 0xFF) as bv32
  {
  }

  lemma Cancels(r: bv16)
    ensures Xor(Xor(r, Up(Down(r))), r & 0xFF) == 0
  {
  }

  /** A message followed by its own checksum, low byte first, has the checksum 0. */
  lemma ChecksumCancels(msg: seq<bv8>)
    ensures Crc(msg + [LowHalf(Crc(msg)), HighHalf(Crc(msg))]) == 0
  {
    hide Data, Xor, Up, Down, Mirror, LowHalf, HighHalf, BitStep;
    var r := Remainder(INITIAL_REMAINDER, msg);
    var x1, x2 := LowHalf(Crc(msg)), HighHalf(Crc(msg));
    RemainderAppend(INITIAL_REMAINDER, msg, [x1, x2]);
    RemainderPair(r, x1, x2);
    HalvesBack(r);
    Cancels(r);
    ZeroStays(16);
    FinishZero();
  }

  lemma FinishZero()
    ensures Finish(0) == 0
  {
    hide Mirror;
    FinishIs(0);
    assert MirroredWord(0) == 0;
    SameWord(Finish(0), 0);
  }

  // ---- the check value ----

  lemma Advance(s: seq<bv8>, k: nat, m: bv8, r: bv16, d: bv16, next: bv16)
    requires k < |s| && s[k] == m && Remainder(INITIAL_REMAINDER, s[..k]) == r
    requires MirroredByte(m as bv32) == d as bv32 && ByteStep(Xor(r, Up(d))) == next
    ensures Remainder(INITIAL_REMAINDER, s[..k + 1]) == next
  {
    hide Data, MirroredByte, ByteStep, Xor, Up;
    RemainderSnoc(INITIAL_REMAINDER, s, k);
    DataIs(m);
    SameWord(Data(m), d);
  }

  /** The checksum of the digits 1 to 9 is the check value of the standard. */
  lemma CheckValue()
    ensures Crc([0x31, 0x32, 0x33, 0x34, 0x35, 0x36, 0x37, 0x38, 0x39]) == 0xBB3D
  {
    hide Remainder, Finish;
    var s: seq<bv8> := [0x31, 0x32, 0x33, 0x34, 0x35, 0x36, 0x37, 0x38, 0x39];
    assert s[..0] == [] && s[..9] == s;
    RemainderNone();
    Advance(s, 0, 0x31, 0x0000, 0x8C, 0x832B);
    Advance(s, 1, 0x32, 0x832B, 0x4C, 0x29A2);
    Advance(s, 2, 0x33, 0x29A2, 0xCC, 0x205D);
    Advance(s, 3, 0x34, 0x205D, 0x2C, 0x5D28);
    Advance(s, 4, 0x35, 0x5D28, 0xAC, 0xAA25);
    Advance(s, 5, 0x36, 0xAA25, 0x6C, 0x2794);
    Advance(s, 6, 0x37, 0x2794, 0xEC, 0x16B9);
    Advance(s, 7, 0x38, 0x16B9, 0x1C, 0xB93C);
    Advance(s, 8, 0x39, 0xB93C, 0x9C, 0xBCDD);
    FinishCheckValue();
  }

  lemma FinishCheckValue()
    ensures Finish(0xBCDD) == 0xBB3D
  {
    hide Finish;
    FinishIs(0xBCDD);
    assert MirroredWord(0xBCDD) == 0xBB3D;
    SameWord(Finish(0xBCDD), 0xBB3D);
  }

  lemma RemainderNone()
    ensures Remainder(INITIAL_REMAINDER, []) == 0
  {
  }
}
