/** One end of the radio link as it runs: two rings, the packet being sent and two sequence numbers,
    all updated in place. */
module SlinkEndpoint {
  import opened Wrappers
  import opened Bytes
  import opened SlinkProtocol
  import opened SlinkPacket
  import opened RingBuffer

  const BUFSIZE: nat := 128

  /** A frame on the air carries the packet, or there is neither. */
  ghost predicate Carries(air: Option<seq<Byte>>, out: Option<Packet>, key: Option<Cipher>)
    requires key.Some? ==> CipherOk(key.value)
  {
    match out
    case None => air == None
    case Some(p) => air.Some? && 1 <= |air.value| <= MAX_PLEN && Decode(air.value, key) == Some(p)
  }

  /** Turns a received packet into its acknowledgement and sends it. */
  method Acknowledge(p: Apkt, key: Option<Cipher>) returns (air: Option<seq<Byte>>)
    requires p.Valid() && (key.Some? ==> CipherOk(key.value))
    modifies p, p.raw
    ensures Carries(air, Some(Packet(old(p.raw[1]), [])), key)
  {
    hide CipherOk, Decode;
    p.raw[0] := 0;
    p.plen := 1;
    p.start := 1;
    assert p.raw[2..2] == [];
    air := p.SendNew(key);
  }

  class Endpoint {
    const key: Option<Cipher>
    const rxbuf: RingBuf
    const txbuf: RingBuf
    const txpkt: Apkt
    var rxseq: Byte
    var txseq: Byte
    ghost var txData: seq<Byte>
    // What was sent when the current packet was sent first.
    ghost var frame: seq<Byte>
    ghost var packets: seq<seq<Byte>>
    ghost var accepted: seq<Byte>
    ghost var taken: seq<Byte>
    ghost var got: seq<Byte>
    ghost var received: nat

    ghost const Repr: set<object> := {this, rxbuf, rxbuf.data, txbuf, txbuf.data, txpkt, txpkt.raw}

    ghost predicate Valid()
      reads this, Repr
    {
      && (key.Some? ==> CipherOk(key.value))
      && rxbuf.Valid() && txbuf.Valid() && rxbuf.size == BUFSIZE == txbuf.size
      && rxbuf != txbuf && rxbuf.data != txbuf.data
      && txpkt.raw != rxbuf.data && txpkt.raw != txbuf.data
      && txpkt.Valid()
      && (txpkt.timeout > 0 ==> ReadyToSend())
    }

    /** The packet is in its final form: sending it again sends the same bytes. */
    ghost predicate ReadyToSend()
      requires (key.Some? ==> CipherOk(key.value)) && txpkt.Valid()
      reads this, txpkt, txpkt.raw
    {
      && 1 <= txpkt.plen <= MAX_PLEN && (key.None? || txpkt.start == 0)
      && (txpkt.start == 1 ==> txpkt.raw[0] <= MAX_PLAIN)
      && txpkt.Window() == frame
      && Decode(frame, key) == Some(Packet(txpkt.cseq, txData))
    }

    /** The state as the protocol sees it. */
    ghost function State(): End
      requires Valid()
      reads this, Repr
    {
      End(MaxPayload(key), txbuf.Contents(), rxbuf.Contents(),
          Sending(txpkt.cseq, txData, txpkt.timeout), txseq, rxseq,
          packets, accepted, taken, got, received)
    }

    constructor (key: Option<Cipher>)
      requires key.Some? ==> CipherOk(key.value)
      ensures Valid() && fresh(Repr) && this.key == key
      ensures State() == End(MaxPayload(key), [], [], Sending(0, [], 0), 1, 0, [], [], [], [], 0)
    {
      this.key := key;
      rxbuf := new RingBuf(BUFSIZE);
      txbuf := new RingBuf(BUFSIZE);
      txpkt := new Apkt();
      rxseq, txseq := 0, 1;
      txData, packets, accepted, taken, got, received := [], [], [], [], [], 0;
      frame := [];
    }

    /** slink_flush: a retransmission repeats the first frame byte for byte. */
    method Flush() returns (air: Option<seq<Byte>>)
      requires Valid()
      modifies this`txseq, this`txData, this`frame, this`packets, txbuf, txpkt, txpkt.raw
      ensures Valid()
      ensures var (e, out) := SlinkProtocol.Flush(old(State())); State() == e && Carries(air, out, key)
      ensures air.Some? ==> air.value == frame
      ensures old(txpkt.timeout) > 0 ==> frame == old(frame)
    {
      hide Decode, CipherOk, RingSeq, RingSize, ReadyToSend, MaxPayload, MAX_PLAIN;
      if txpkt.timeout > 0 {
        air := Repeat();
      } else {
        if txbuf.Elements() == 0 {
          return None;
        }
        Build();
        air := SendFirst();
      }
    }

    /** The packet is on its way: it is sent again when its time is up. */
    method Repeat() returns (air: Option<seq<Byte>>)
      requires Valid() && txpkt.timeout > 0
      modifies txpkt, txpkt.raw
      ensures Valid()
      ensures State() == old(State()).(tx := old(State()).tx.(timeout := txpkt.timeout))
      ensures txpkt.timeout == if old(txpkt.timeout) == 1 then RESEND_AFTER else old(txpkt.timeout) - 1
      ensures if old(txpkt.timeout) != 1 then air == None
        else air == Some(frame) && Carries(air, Some(Packet(txpkt.cseq, txData)), key)
    {
      hide Decode, CipherOk, RingSeq, RingSize, Filled, OnAir;
      txpkt.timeout := txpkt.timeout - 1;
      if txpkt.timeout != 0 {
        return None;
      }
      txpkt.timeout := RESEND_AFTER;
      air := txpkt.Send(key);
    }

    /** The packet that has just been built is sent. */
    method SendFirst() returns (air: Option<seq<Byte>>)
      requires Valid() && txpkt.timeout == 0
      requires txpkt.start == 1 && txpkt.raw[0] <= MaxPayload(key) && txpkt.plen == txpkt.raw[0] + 1
      requires txpkt.cseq == txpkt.raw[1] && txpkt.raw[2..txpkt.raw[0] + 2] == txData
      modifies this`frame, txpkt, txpkt.raw
      ensures Valid()
      ensures State() == old(State()).(tx := old(State()).tx.(timeout := RESEND_AFTER))
      ensures air == Some(frame) && Carries(air, Some(Packet(txpkt.cseq, txData)), key)
    {
      hide Decode, CipherOk, RingSeq, RingSize, Filled, OnAir;
      txpkt.timeout := RESEND_AFTER;
      air := txpkt.SendNew(key);
      frame := txpkt.Window();
    }

    /** Fills txpkt from the transmit ring. */
    method Build()
      requires Valid() && txpkt.timeout == 0 && txbuf.Contents() != []
      modifies this`txseq, this`txData, this`packets, txbuf, txpkt, txpkt.raw
      ensures Valid() && txpkt.timeout == 0
      ensures var k := Min(MaxPayload(key), |old(txbuf.Contents())|);
        && txData == old(txbuf.Contents())[..k] && txbuf.Contents() == old(txbuf.Contents())[k..]
        && packets == old(packets) + [txData]
        && txpkt.cseq == old(txseq) && txseq == Low(old(txseq) + 1)
        && txpkt.start == 1 && txpkt.raw[0] == k && txpkt.plen == k + 1
        && txpkt.raw[1] == old(txseq) && txpkt.raw[2..k + 2] == txData
    {
      hide Decode, CipherOk, RingSeq, RingSize, Filled, OnAir, ReadyToSend, Apkt.Window;
      Number();
      ghost var all := txbuf.Contents();
      var k := TakeUpTo(txbuf, txpkt.raw, if key.Some? then MAX_CRYPT else MAX_PLAIN);
      // Start and length of the payload of an unencrypted packet.
      txpkt.start := 1;
      txpkt.plen := k + 1;
      txData := all[..k];
      packets := packets + [txData];
    }

    /** An empty structure with the next sequence number. */
    method Number()
      requires Valid() && txpkt.timeout == 0
      modifies this`txseq, txpkt, txpkt.raw
      ensures Valid() && txpkt.timeout == 0 && txpkt.start == 0 && txpkt.plen == 0
      ensures txpkt.raw[0] == 0 && txpkt.raw[1] == txpkt.cseq == old(txseq) && txseq == Low(old(txseq) + 1)
    {
      hide Decode, CipherOk, RingSeq, RingSize, ReadyToSend;
      txpkt.Clear();
      txpkt.plen, txpkt.start := 0, 0;
      txpkt.raw[1] := txseq;
      txseq := (txseq + 1) % 256;
      txpkt.cseq := txpkt.raw[1];
    }

    /** slink_put: the byte is accepted if there is room; a full payload is sent at once. */
    method Put(c: Byte) returns (res: int, air: Option<seq<Byte>>)
      requires Valid()
      modifies this`txseq, this`txData, this`frame, this`packets, this`accepted, txbuf, txbuf.data, txpkt, txpkt.raw
      ensures Valid()
      ensures var (e, out) := SlinkProtocol.Put(old(State()), c); State() == e && Carries(air, out, key)
      ensures air.Some? ==> air.value == frame
      ensures old(txpkt.timeout) > 0 ==> frame == old(frame)
      ensures res == if |old(txbuf.Contents())| < CAPACITY then 1 else 0
      ensures accepted == old(accepted) + if res == 1 then [c] else []
    {
      hide Decode, CipherOk, SlinkProtocol.Flush;
      res := txbuf.Put(c);
      if res == 1 {
        accepted := accepted + [c];
      }
      air := None;
      if txbuf.Elements() >= (if key.Some? then MAX_CRYPT else MAX_PLAIN) {
        air := Flush();
      }
    }

    /** slink_get */
    method Get() returns (c: int)
      requires Valid()
      modifies this`got, rxbuf
      ensures Valid()
      ensures State() == SlinkProtocol.Get(old(State()))
      ensures c == if old(rxbuf.Contents()) == [] then -1 else old(rxbuf.Contents())[0]
      ensures old(rxbuf.Contents()) == (if c < 0 then [] else [c]) + rxbuf.Contents()
      ensures got == old(got) + if c < 0 then [] else [c]
    {
      hide CipherOk, RingSeq, RingSize, Decode, Apkt.Window;
      c := rxbuf.Get();
      if c >= 0 {
        got := got + [c];
      }
    }

    /** slink_receive for a frame that arrived intact.  An encrypted frame must not decrypt to a length
        beyond the structure, which frames of a peer with the same key never do. */
    method Receive(frame: seq<Byte>) returns (air: Option<seq<Byte>>)
      requires Valid() && (Filled(frame, key).Some? ==> Decode(frame, key).Some?)
      modifies this`rxseq, this`taken, this`received, rxbuf, rxbuf.data, txpkt`timeout
      ensures Valid()
      ensures match Decode(frame, key)
        case None => State() == old(State()) && air == None
        case Some(p) =>
          var (e, out) := SlinkProtocol.Receive(old(State()), p);
          State() == e && Carries(air, out, key) && Reacted(old(State()), p, State(), out)
    {
      hide CipherOk, RingSeq, Filled, OnAir, Reacted;
      if Decode(frame, key).Some? { ReceiveIs(State(), Decode(frame, key).value); }
      var p := new Apkt();
      var ok := p.Recv(frame, key);
      if !ok {
        return None;
      }
      assert Decode(frame, key) == Some(Packet(p.raw[1], p.raw[2..p.raw[0] + 2]));
      air := Handle(p);
    }

    /** The part of slink_receive that follows slink_recv. */
    method Handle(p: Apkt) returns (air: Option<seq<Byte>>)
      requires Valid() && p.Valid() && p.raw[0] + 2 <= RAW && p !in Repr && p.raw !in Repr
      modifies this`rxseq, this`taken, this`received, rxbuf, rxbuf.data, txpkt`timeout, p, p.raw
      ensures Valid()
      ensures var pkt := Packet(old(p.raw[1]), old(p.raw[2..p.raw[0] + 2]));
        var (e, out) := SlinkProtocol.Receive(old(State()), pkt);
        State() == e && Carries(air, out, key)
    {
      hide CipherOk, RingSeq, Decode, Filled, OnAir, Apkt.Window, RingSize, Fitting;
      var len, seqno := p.raw[0], p.raw[1];
      if len == 0 {
        assert p.raw[2..2] == [];
        GotAck(seqno);
        return None;
      }
      if seqno == rxseq {
      } else if seqno != (rxseq + 1) % 256 {
        return None;
      } else {
        TakeOver(p, len);
      }
      rxseq := seqno;
      air := Acknowledge(p, key);
    }

    method GotAck(seqno: Byte)
      requires Valid()
      modifies txpkt`timeout
      ensures Valid()
      ensures State() == SlinkProtocol.Receive(old(State()), Packet(seqno, [])).0
      ensures txpkt.timeout == if seqno == txpkt.cseq then 0 else old(txpkt.timeout)
    {
      if txpkt.cseq == seqno {
        txpkt.timeout := 0;
      }
    }

    /** Puts the data bytes of a packet into the receive ring; the result of each put is ignored. */
    method TakeOver(p: Apkt, len: nat)
      requires Valid() && p.raw.Length == RAW && len + 2 <= RAW
      requires p.raw != rxbuf.data && p.raw != txbuf.data && p.raw != txpkt.raw
      modifies this`taken, this`received, rxbuf, rxbuf.data
      ensures Valid()
      ensures var in_ := Fitting(old(State()), p.raw[2..len + 2]);
        State() == old(State()).(rxbuf := old(State()).rxbuf + in_, taken := old(State()).taken + in_,
          received := old(State()).received + 1)
    {
      hide CipherOk, RingSeq, RingSize, Decode, Apkt.Window;
      ghost var data, was := p.raw[2..len + 2], rxbuf.Contents();
      PutAll(rxbuf, p.raw, 2, len);
      ghost var in_ := data[..Min(len, CAPACITY - |was|)];
      ItFits(old(State()), data);
      taken := taken + in_;
      received := received + 1;
    }
  }

  lemma ItFits(e: End, data: seq<Byte>)
    requires |e.rxbuf| <= CAPACITY
    ensures Fitting(e, data) == data[..Min(|data|, CAPACITY - |e.rxbuf|)]
  {
  }
}
