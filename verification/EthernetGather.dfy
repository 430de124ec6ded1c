/** low_level_transmit: the segments of a packet are gathered into 32-bit words for the transmit FIFO. */
module EthernetGather {
  import opened Bytes

  type Word = w: int | 0 <= w < 0x1_0000_0000 witness 0

  /** The value of four bytes in memory, lowest first. */
  function Value(b: seq<Byte>): Word
    requires |b| == 4
  {
    Join(b[0], b[1], b[2], b[3])
  }

  function Join(b0: int, b1: int, b2: int, b3: int): int {
    b0 + 0x100 * b1 + 0x1_0000 * b2 + 0x100_0000 * b3
  }

  /** The four bytes of a word. */
  function Split(w: Word): (b: seq<Byte>)
    ensures |b| == 4
  {
    [w % 0x100, w / 0x100 % 0x100, w / 0x1_0000 % 0x100, w / 0x100_0000]
  }

  lemma SplitValue(b: seq<Byte>)
    requires |b| == 4
    ensures Split(Value(b)) == b
  {
    SplitJoin(b[0], b[1], b[2], b[3]);
  }

  lemma SplitJoin(b0: int, b1: int, b2: int, b3: int)
    requires 0 <= b0 < 256 && 0 <= b1 < 256 && 0 <= b2 < 256 && 0 <= b3 < 256
    ensures var w := Join(b0, b1, b2, b3);
      w % 0x100 == b0 && w / 0x100 % 0x100 == b1 && w / 0x1_0000 % 0x100 == b2 && w / 0x100_0000 == b3
  {
    var w := Join(b0, b1, b2, b3);
    assert w / 0x100 == b1 + 0x100 * b2 + 0x1_0000 * b3;
    assert w / 0x1_0000 == b2 + 0x100 * b3;
  }

  /** The bytes that a sequence of words puts on the wire. */
  function Flat(words: seq<Word>): (b: seq<Byte>)
    ensures |b| == 4 * |words|
  {
    if words == [] then [] else Flat(words[..|words| - 1]) + Split(words[|words| - 1])
  }

  lemma FlatSnoc(words: seq<Word>, b: seq<Byte>)
    requires |b| == 4
    ensures Flat(words + [Value(b)]) == Flat(words) + b
  {
    SplitValue(b);
    var t := words + [Value(b)];
    assert t[..|t| - 1] == words;
  }

  /** In the FIFO the lowest byte of each word goes out first. */
  lemma {:induction false} FlatBytes(words: seq<Word>, i: nat)
    requires i < |words|
    ensures var b, w := Flat(words), words[i];
      && b[4 * i] == w % 0x100 && b[4 * i + 1] == w / 0x100 % 0x100
      && b[4 * i + 2] == w / 0x1_0000 % 0x100 && b[4 * i + 3] == w / 0x100_0000
    decreases |words|
  {
    var n := |words| - 1;
    if i == n {
    } else {
      FlatBytes(words[..n], i);
    }
  }

  /** The payload, filled up with zeros to the next word boundary above its end. */
  function Padded(payload: seq<Byte>): (b: seq<Byte>)
    ensures |b| == 4 * (|payload| / 4 + 1)
  {
    payload + Zeros(4 * (|payload| / 4 + 1) - |payload|)
  }

  /** A packet buffer: its payload, of which `len` bytes count. */
  datatype Pbuf = Pbuf(payload: array<Byte>, len: nat)

  ghost predicate Readable(chain: seq<Pbuf>) {
    forall i :: 0 <= i < |chain| ==> chain[i].len <= chain[i].payload.Length
  }

  /** All bytes of a chain. */
  ghost function Payload(chain: seq<Pbuf>): seq<Byte>
    requires Readable(chain)
    reads set i | 0 <= i < |chain| :: chain[i].payload
  {
    if chain == [] then []
    else
      var q := chain[|chain| - 1];
      Payload(chain[..|chain| - 1]) + q.payload[..q.len]
  }

  datatype Err = ErrOk | ErrIf

  class Mac {
    var fifo: seq<Word>      // the words written to the data register
    var transmitting: bool   // the transmitter has been woken up
    var linkUp: bool

    constructor ()
      ensures fifo == [] && !transmitting
    {
      fifo, transmitting, linkUp := [], false, false;
    }

    /** The bytes seen so far are those in the FIFO and the `iGather` bytes in the gather register,
        whose other bytes are zero. */
    ghost predicate Gathered(start: seq<Word>, gather: seq<Byte>, iGather: nat, seen: seq<Byte>)
      reads this`fifo
    {
      && |gather| == 4 && iGather < 4
      && (forall i :: iGather <= i < 4 ==> gather[i] == 0)
      && start <= fifo
      && Flat(fifo[|start|..]) + gather[..iGather] == seen
    }

    method WriteData(w: Word)
      modifies this`fifo
      ensures fifo == old(fifo) + [w]
    {
      fifo := fifo + [w];
    }

    /** A word of four bytes goes into the FIFO. */
    method WriteBytes(b: seq<Byte>, ghost start: seq<Word>, ghost seen: seq<Byte>)
      requires |b| == 4 && start <= fifo && Flat(fifo[|start|..]) == seen
      modifies this`fifo
      ensures start <= fifo && Flat(fifo[|start|..]) == seen + b
    {
      FlatSnoc(fifo[|start|..], b);
      assert (fifo + [Value(b)])[|start|..] == fifo[|start|..] + [Value(b)];
      WriteData(Value(b));
    }

    /** The first loop: bytes of the segment fill up a partly filled gather register. */
    method FillUp(payload: array<Byte>, len: nat, gather0: seq<Byte>, iGather0: nat, ghost start: seq<Word>,
        ghost seen: seq<Byte>)
      returns (gather: seq<Byte>, iGather: nat, iBuf: nat)
      requires len <= payload.Length && Gathered(start, gather0, iGather0, seen)
      modifies this`fifo
      ensures iBuf <= len && Gathered(start, gather, iGather, seen + payload[..iBuf])
      ensures iGather == 0 || iBuf == len
    {
      hide Flat;
      gather, iGather, iBuf := gather0, iGather0, 0;
      assert gather[..iGather] == gather0[..iGather0] && seen + payload[..0] == seen;
      while iBuf < len && iGather != 0
        invariant iBuf <= len && |gather| == 4 && iGather < 4 && iGather0 + iBuf <= 4
        invariant iGather == (if iGather0 + iBuf == 4 then 0 else iGather0 + iBuf)
        invariant iGather != 0 ==> forall i :: iGather <= i < 4 ==> gather[i] == 0
        invariant gather[..iGather0 + iBuf] == gather0[..iGather0] + payload[..iBuf]
        invariant iBuf == 0 ==> gather == gather0
      {
        ghost var before := gather;
        gather := gather[iGather := payload[iBuf]];
        assert payload[..iBuf + 1] == payload[..iBuf] + [payload[iBuf]];
        assert gather[..iGather + 1] == before[..iGather] + [payload[iBuf]];
        iBuf := iBuf + 1;
        iGather := (iGather + 1) % 4;
      }
      ghost var flat := Flat(fifo[|start|..]);
      Regroup(flat, gather0[..iGather0], payload[..iBuf]);
      if iGather == 0 && iBuf != 0 {
        assert gather[..4] == gather;
        WriteBytes(gather, start, flat);
        gather := Zeros(4);
      }
      assert iGather == 0 ==> gather[..iGather] == [];
    }

    /** The second loop: whole words. */
    method CopyWords(payload: array<Byte>, len: nat, from: nat, ghost start: seq<Word>, ghost seen: seq<Byte>)
      returns (iBuf: nat)
      requires from <= len <= payload.Length && start <= fifo && Flat(fifo[|start|..]) == seen + payload[..from]
      modifies this`fifo
      ensures from <= iBuf <= len < iBuf + 4 && start <= fifo && Flat(fifo[|start|..]) == seen + payload[..iBuf]
    {
      hide Flat;
      iBuf := from;
      while iBuf + 4 <= len
        invariant from <= iBuf <= len && start <= fifo && Flat(fifo[|start|..]) == seen + payload[..iBuf]
      {
        var b := payload[iBuf..iBuf + 4];
        assert payload[..iBuf + 4] == payload[..iBuf] + b;
        Regroup(seen, payload[..iBuf], b);
        WriteBytes(b, start, seen + payload[..iBuf]);
        iBuf := iBuf + 4;
      }
    }

    /** The third loop: what is left of the segment waits in the gather register. */
    method KeepRest(payload: array<Byte>, len: nat, from: nat, ghost start: seq<Word>, ghost seen: seq<Byte>)
      returns (gather: seq<Byte>, iGather: nat)
      requires from <= len < from + 4 && len <= payload.Length
      requires start <= fifo && Flat(fifo[|start|..]) == seen + payload[..from]
      ensures Gathered(start, gather, iGather, seen + payload[..len])
    {
      hide Flat;
      gather, iGather := Zeros(4), 0;
      var iBuf := from;
      while iBuf < len
        invariant from <= iBuf <= len && iGather == iBuf - from && |gather| == 4
        invariant gather[..iGather] == payload[from..iBuf]
        invariant forall i :: iGather <= i < 4 ==> gather[i] == 0
      {
        gather := gather[iGather := payload[iBuf]];
        assert payload[from..iBuf + 1] == payload[from..iBuf] + [payload[iBuf]];
        iBuf := iBuf + 1;
        iGather := (iGather + 1) % 4;
      }
      assert payload[..len] == payload[..from] + payload[from..len];
      Regroup(seen, payload[..from], payload[from..len]);
    }

    /** One segment. */
    method Segment(q: Pbuf, gather0: seq<Byte>, iGather0: nat, ghost start: seq<Word>, ghost seen: seq<Byte>)
      returns (gather: seq<Byte>, iGather: nat)
      requires q.len <= q.payload.Length && Gathered(start, gather0, iGather0, seen)
      modifies this`fifo
      ensures Gathered(start, gather, iGather, seen + q.payload[..q.len])
    {
      hide Flat;
      var iBuf;
      gather, iGather, iBuf := FillUp(q.payload, q.len, gather0, iGather0, start, seen);
      if iGather != 0 {
        return;
      }
      assert Flat(fifo[|start|..]) + gather[..0] == Flat(fifo[|start|..]);
      iBuf := CopyWords(q.payload, q.len, iBuf, start, seen);
      gather, iGather := KeepRest(q.payload, q.len, iBuf, start, seen);
    }

    /** The loop over the chain and the last word: in the FIFO the payload of all segments together
        stands without a gap, then zeros; the number of words is fixed by the length. */
    method Gather(chain: seq<Pbuf>)
      requires Readable(chain)
      modifies this`fifo
      ensures |fifo| == |old(fifo)| + |Payload(chain)| / 4 + 1 && old(fifo) <= fifo
      ensures Flat(fifo[|old(fifo)|..]) == Padded(Payload(chain))
    {
      hide Padded, Split;
      ghost var start := fifo;
      var gather, iGather := Zeros(4), 0;
      assert fifo[|start|..] == [] && Payload(chain[..0]) == [];
      var k := 0;
      while k < |chain|
        invariant 0 <= k <= |chain| && Gathered(start, gather, iGather, Payload(chain[..k]))
      {
        PayloadSnoc(chain, k);
        gather, iGather := Segment(chain[k], gather, iGather, start, Payload(chain[..k]));
        k := k + 1;
      }
      assert chain[..k] == chain;
      LastWord(Flat(fifo[|start|..]), |fifo| - |start|, gather, iGather, Payload(chain));
      WriteBytes(gather, start, Flat(fifo[|start|..]));
    }

    /** low_level_transmit: nothing is sent while the link is down; otherwise the first two bytes of
        the payload get its length without the header, and the packet goes into the FIFO. */
    method Transmit(linkStatus: bool, chain: seq<Pbuf>, totLen: nat) returns (err: Err)
      requires Readable(chain) && chain != [] && chain[0].len >= 2 && totLen == |Payload(chain)|
      modifies this, chain[0].payload
      ensures linkUp == linkStatus
      ensures !linkStatus ==> err == ErrIf && fifo == old(fifo) && Payload(chain) == old(Payload(chain))
      ensures linkStatus ==> err == ErrOk && transmitting
      ensures linkStatus ==>
        && Join(chain[0].payload[0], chain[0].payload[1], 0, 0) == (totLen - 16) % 0x1_0000
        && chain[0].payload[2..] == old(chain[0].payload[2..])
        && old(fifo) <= fifo && Flat(fifo[|old(fifo)|..]) == Padded(Payload(chain))
    {
      linkUp := linkStatus;
      if !linkStatus {
        return ErrIf;
      }
      var header := (totLen - 16) % 0x1_0000;
      chain[0].payload[0], chain[0].payload[1] := header % 256, header / 256;
      Gather(chain);
      transmitting := true;
      err := ErrOk;
    }
  }

  lemma Regroup(a: seq<Byte>, b: seq<Byte>, c: seq<Byte>)
    ensures (a + b) + c == a + (b + c)
  {
  }

  lemma PayloadSnoc(chain: seq<Pbuf>, k: nat)
    requires Readable(chain) && k < |chain|
    ensures Payload(chain[..k + 1]) == Payload(chain[..k]) + chain[k].payload[..chain[k].len]
  {
    assert chain[..k + 1][..k] == chain[..k];
  }

  /** The gather register as the last word fills the payload up with zeros. */
  lemma LastWord(flat: seq<Byte>, n: nat, gather: seq<Byte>, iGather: nat, payload: seq<Byte>)
    requires |flat| == 4 * n && |gather| == 4 && iGather < 4 && flat + gather[..iGather] == payload
    requires forall i :: iGather <= i < 4 ==> gather[i] == 0
    ensures flat + gather == Padded(payload) && |payload| / 4 == n
  {
    assert |payload| == 4 * n + iGather;
    assert gather == gather[..iGather] + Zeros(4 - iGather);
  }
}
