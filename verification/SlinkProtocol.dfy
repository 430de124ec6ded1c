/** The radio link as a protocol: two symmetric endpoints, each with a stop-and-wait sender and a
    receiver, over two channels that keep the order but may lose packets. */
module SlinkProtocol {
  import opened Wrappers
  import opened Bytes

  /** What slink_recv hands on: a packet without data is an acknowledgement. */
  datatype Packet = Packet(seqno: Byte, data: seq<Byte>)

  const RESEND_AFTER: nat := 10000

  // BUFSIZE is 128; the ring keeps one slot free.
  const CAPACITY: nat := 127

  /** The packet that is being sent: txpkt with its clear sequence number. */
  datatype Sending = Sending(cseq: Byte, data: seq<Byte>, timeout: nat)

  /** One endpoint.  `packets` is the history of packets built, `accepted` of bytes slink_put took,
      `taken` of bytes put into the receive buffer, `got` of bytes slink_get returned, and
      `received` counts the packets taken over. */
  datatype End = End(
    max: nat,
    txbuf: seq<Byte>,
    rxbuf: seq<Byte>,
    tx: Sending,
    txseq: Byte,
    rxseq: Byte,
    packets: seq<seq<Byte>>,
    accepted: seq<Byte>,
    taken: seq<Byte>,
    got: seq<Byte>,
    received: nat)

  function Low(n: int): Byte {
    n % 256
  }

  // ---- the operations ----

  function Min(a: nat, b: nat): nat {
    if a < b then a else b
  }

  /** slink_flush: resend an unacknowledged packet when its time is up, otherwise build a new one. */
  function Flush(e: End): (End, Option<Packet>) {
    if e.tx.timeout > 0 then
      if e.tx.timeout == 1 then
        (e.(tx := e.tx.(timeout := RESEND_AFTER)), Some(Packet(e.tx.cseq, e.tx.data)))
      else
        (e.(tx := e.tx.(timeout := e.tx.timeout - 1)), None)
    else if e.txbuf == [] then (e, None)
    else
      var k := Min(e.max, |e.txbuf|);
      var data := e.txbuf[..k];
      (e.(tx := Sending(e.txseq, data, RESEND_AFTER),
          txseq := Low(e.txseq + 1),
          txbuf := e.txbuf[k..],
          packets := e.packets + [data]),
       Some(Packet(e.txseq, data)))
  }

  /** slink_put: the byte is accepted if the ring has room; a full payload is sent at once. */
  function Put(e: End, c: Byte): (End, Option<Packet>) {
    var e1 :=
      if |e.txbuf| < CAPACITY then e.(txbuf := e.txbuf + [c], accepted := e.accepted + [c]) else e;
    if |e1.txbuf| >= e.max then Flush(e1) else (e1, None)
  }

  /** The bytes of a packet that fit into the receive buffer; the rest is silently dropped. */
  function Fitting(e: End, data: seq<Byte>): seq<Byte> {
    if |e.rxbuf| + |data| <= CAPACITY then data
    else if |e.rxbuf| >= CAPACITY then []
    else data[..CAPACITY - |e.rxbuf|]
  }

  /** slink_receive, for a packet that slink_recv has delivered. */
  function Receive(e: End, p: Packet): (End, Option<Packet>) {
    if p.data == [] then
      (if e.tx.cseq == p.seqno then e.(tx := e.tx.(timeout := 0)) else e, None)
    else if p.seqno == e.rxseq then
      (e, Some(Packet(p.seqno, [])))
    else if p.seqno != Low(e.rxseq + 1) then
      (e, None)
    else
      var in_ := Fitting(e, p.data);
      (e.(rxbuf := e.rxbuf + in_, taken := e.taken + in_, rxseq := p.seqno, received := e.received + 1),
       Some(Packet(p.seqno, [])))
  }

  /** slink_get */
  function Get(e: End): End {
    if e.rxbuf == [] then e else e.(rxbuf := e.rxbuf[1..], got := e.got + [e.rxbuf[0]])
  }

  // ---- what the operations mean ----

  /** slink_put: the byte is accepted if and only if the ring has room, and goes to the end of what is
      still to be sent; a full payload goes out at once unless a packet is outstanding. */
  lemma PutIs(e: End, c: Byte)
    requires 1 <= e.max <= CAPACITY && |e.txbuf| <= CAPACITY
    ensures var (e', out) := Put(e, c);
      var all := if |e.txbuf| < CAPACITY then e.txbuf + [c] else e.txbuf;
      && e'.accepted == (if |e.txbuf| < CAPACITY then e.accepted + [c] else e.accepted)
      && (if e.tx.timeout == 0 && |all| >= e.max
          then out == Some(Packet(e.txseq, all[..e.max])) && e'.txbuf == all[e.max..]
          else e'.txbuf == all && (e.tx.timeout != 1 || |all| < e.max ==> out == None))
      && e'.rxbuf == e.rxbuf && e'.got == e.got && e'.taken == e.taken
  {
  }

  /** slink_flush: while a packet is outstanding it only counts down, and repeats the packet at the
      end; otherwise it sends as many of the waiting bytes as fit into one packet. */
  lemma FlushIs(e: End)
    requires e.tx.timeout == 0 ==> 1 <= e.max
    ensures var (e', out) := Flush(e);
      if e.tx.timeout > 0 then
        && e' == e.(tx := e'.tx) && e'.tx.data == e.tx.data && e'.tx.cseq == e.tx.cseq
        && (if out == None then e'.tx.timeout == e.tx.timeout - 1 > 0
            else e.tx.timeout == 1 && e'.tx.timeout == RESEND_AFTER && out == Some(Packet(e.tx.cseq, e.tx.data)))
      else if e.txbuf == [] then e' == e && out == None
      else
        && out.Some? && out.value.data + e'.txbuf == e.txbuf && out.value.seqno == e.txseq == e'.tx.cseq
        && (|out.value.data| == e.max || (|out.value.data| < e.max && e'.txbuf == []))
        && e'.tx.timeout == RESEND_AFTER && e'.tx.data == out.value.data
  {
  }

  /** slink_get: the oldest byte leaves the ring and is handed out. */
  lemma GetIs(e: End)
    requires e.rxbuf != []
    ensures e.rxbuf == [e.rxbuf[0]] + Get(e).rxbuf && Get(e).got == e.got + [e.rxbuf[0]]
    ensures Get(e) == e.(rxbuf := Get(e).rxbuf, got := Get(e).got)
  {
  }

  /** slink_receive: an acknowledgement ends the transmission of the packet it is for; a new packet
      fills the ring as far as there is room; a new or repeated packet is acknowledged, any other one
      is ignored. */
  predicate Reacted(e: End, p: Packet, e': End, out: Option<Packet>) {
    var isData := p.data != [];
    var known, isNew := isData && p.seqno == e.rxseq, isData && p.seqno == Low(e.rxseq + 1);
    && |e.rxbuf| <= CAPACITY
    && e'.txbuf == e.txbuf && e'.accepted == e.accepted && e'.got == e.got && e'.tx.data == e.tx.data
    && e'.tx.timeout == (if !isData && p.seqno == e.tx.cseq then 0 else e.tx.timeout)
    && e'.rxbuf == (if isNew then e.rxbuf + p.data[..Min(|p.data|, CAPACITY - |e.rxbuf|)] else e.rxbuf)
    && e'.rxseq == (if isNew then p.seqno else e.rxseq)
    && out == (if known || isNew then Some(Packet(p.seqno, [])) else None)
  }

  lemma ReceiveIs(e: End, p: Packet)
    requires |e.rxbuf| <= CAPACITY
    ensures var (e', out) := Receive(e, p); Reacted(e, p, e', out)
  {
  }

  // ---- the two endpoints ----

  /** `ab` carries packets from `a` to `b`, `ba` those from `b` to `a`. */
  datatype World = World(a: End, b: End, ab: seq<Packet>, ba: seq<Packet>)

  datatype Step = PutByte(c: Byte) | Poll | Deliver | TakeByte | Lose(i: nat)

  function Sent(ch: seq<Packet>, out: Option<Packet>): seq<Packet> {
    match out
    case None => ch
    case Some(p) => ch + [p]
  }

  /** The step can be taken by `a`; a packet that is new to it finds room in its receive buffer. */
  predicate Enabled(w: World, s: Step) {
    match s
    case Deliver =>
      w.ba != [] &&
      var p := w.ba[0];
      p.data != [] && p.seqno == Low(w.a.rxseq + 1) ==> |w.a.rxbuf| + |p.data| <= CAPACITY
    case Lose(i) => i < |w.ab|
    case _ => true
  }

  /** A step of endpoint `a`; Lose drops a packet it has sent. */
  function Next(w: World, s: Step): World
    requires Enabled(w, s)
  {
    match s
    case PutByte(c) =>
      var (a, out) := Put(w.a, c);
      w.(a := a, ab := Sent(w.ab, out))
    case Poll =>
      var (a, out) := Flush(w.a);
      w.(a := a, ab := Sent(w.ab, out))
    case Deliver =>
      var (a, out) := Receive(w.a, w.ba[0]);
      w.(a := a, ba := w.ba[1..], ab := Sent(w.ab, out))
    case TakeByte => w.(a := Get(w.a))
    case Lose(i) => w.(ab := w.ab[..i] + w.ab[i + 1..])
  }

  /** The same world seen from the other side. */
  function Mirror(w: World): World {
    World(w.b, w.a, w.ba, w.ab)
  }
}
