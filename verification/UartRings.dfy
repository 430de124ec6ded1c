/** The interrupt-driven UART as a state machine.  Interrupts run to completion; main code can be
    interrupted between any two of its memory accesses. */
module UartRings {
  import opened Bytes

  const NO_DATA := 0x0100
  const BUFFER_OVERFLOW := 0x0200

  // ---- rings ----

  /** (i + 1) & mask */
  function After(i: nat, size: nat): (k: nat)
    requires i < size
    ensures k < size
  {
    if i + 1 == size then 0 else i + 1
  }

  /** For indices below a size that is a power of two, masking the sum is wrapping at the size. */
  lemma MaskIsAfter(x: bv16)
    ensures x < 256 ==> (x + 1) & 255 == if x + 1 == 256 then 0 else x + 1
    ensures x < 128 ==> (x + 1) & 127 == if x + 1 == 128 then 0 else x + 1
    ensures x < 64 ==> (x + 1) & 63 == if x + 1 == 64 then 0 else x + 1
    ensures x < 32 ==> (x + 1) & 31 == if x + 1 == 32 then 0 else x + 1
    ensures x < 16 ==> (x + 1) & 15 == if x + 1 == 16 then 0 else x + 1
    ensures x < 8 ==> (x + 1) & 7 == if x + 1 == 8 then 0 else x + 1
    ensures x < 4 ==> (x + 1) & 3 == if x + 1 == 4 then 0 else x + 1
    ensures x < 2 ==> (x + 1) & 1 == if x + 1 == 2 then 0 else x + 1
    ensures x < 1 ==> (x + 1) & 0 == if x + 1 == 1 then 0 else x + 1
  {
  }

  /** How many bytes lie behind `tail` up to `head`. */
  function Count(tail: nat, head: nat, size: nat): (n: nat)
    requires tail < size && head < size
    ensures n < size
  {
    if head >= tail then head - tail else head - tail + size
  }

  /** The i-th index behind `tail`. */
  function Place(tail: nat, i: nat, size: nat): (k: nat)
    requires tail < size && i < size
    ensures k < size
  {
    if tail + 1 + i < size then tail + 1 + i else tail + 1 + i - size
  }

  /** The bytes of a ring, oldest first: from behind `tail` up to `head`. */
  function Content(buf: seq<Byte>, tail: nat, head: nat): (s: seq<Byte>)
    requires tail < |buf| && head < |buf|
    ensures |s| == Count(tail, head, |buf|)
    ensures forall i :: 0 <= i < |s| ==> s[i] == buf[Place(tail, i, |buf|)]
  {
    seq(Count(tail, head, |buf|), i requires 0 <= i < Count(tail, head, |buf|) => buf[Place(tail, i, |buf|)])
  }

  lemma Grows(buf: seq<Byte>, tail: nat, head: nat, x: Byte)
    requires tail < |buf| && head < |buf| && After(head, |buf|) != tail
    ensures var h := After(head, |buf|);
      && Content(buf[h := x], tail, h) == Content(buf, tail, head) + [x]
      && Content(buf[h := x], tail, head) == Content(buf, tail, head)
  {
    var h := After(head, |buf|);
    assert Count(tail, h, |buf|) == Count(tail, head, |buf|) + 1;
    assert Place(tail, Count(tail, head, |buf|), |buf|) == h;
  }

  lemma Shrinks(buf: seq<Byte>, tail: nat, head: nat)
    requires tail < |buf| && head < |buf| && head != tail
    ensures var t := After(tail, |buf|);
      Content(buf, tail, head) == [buf[t]] + Content(buf, t, head)
  {
    var t := After(tail, |buf|);
    assert Count(tail, head, |buf|) == Count(t, head, |buf|) + 1;
  }

  // ---- the machine ----

  /** Where main code is: the next memory access it will make. */
  datatype Main =
    | Idle
    | GetHead                          // uart_getc: reads UART_RxHead
    | GetTail(h: nat)                  // reads UART_RxTail and compares
    | GetNext                          // reads UART_RxTail again
    | GetStore(t: nat)                 // writes UART_RxTail
    | GetByte(t: nat)                  // reads the slot
    | GetError(data: Byte)             // reads UART_LastRxError and returns
    | PutHead(data: Byte)              // uart_putc: reads UART_TxHead
    | PutWait(data: Byte, h: nat)      // reads UART_TxTail and compares
    | PutByte(data: Byte, h: nat)      // writes the slot
    | PutStore(data: Byte, h: nat)     // writes UART_TxHead
    | PutRead                          // reads UART0_CONTROL
    | PutWrite                         // writes it back with UDRIE set

  datatype Uart = Uart(
    rxBuf: seq<Byte>, rxHead: nat, rxTail: nat, rxError: Byte,
    txBuf: seq<Byte>, txHead: nat, txTail: nat,
    udrie: bool,              // the UDRE interrupt is enabled
    main: Main,
    result: nat,              // what uart_getc returned last
    accepted: seq<Byte>,      // bytes the receive interrupt has stored
    returned: seq<Byte>,      // bytes uart_getc has returned
    put: seq<Byte>,           // bytes uart_putc has stored
    sent: seq<Byte>)          // bytes written to the data register

  datatype Step = Getc | Putc(data: Byte) | Run | RxIrq(data: Byte, status: Byte) | TxIrq

  predicate Shape(u: Uart) {
    && u.rxHead < |u.rxBuf| && u.rxTail < |u.rxBuf| && u.txHead < |u.txBuf| && u.txTail < |u.txBuf|
    && match u.main
       case GetTail(h) => h < |u.rxBuf|
       case GetStore(t) => t < |u.rxBuf|
       case GetByte(t) => t < |u.rxBuf|
       case PutWait(_, h) => h < |u.txBuf|
       case PutByte(_, h) => h < |u.txBuf|
       case PutStore(_, h) => h < |u.txBuf|
       case _ => true
  }

  predicate Enabled(u: Uart, st: Step) {
    match st
    case Getc => u.main == Idle
    case Putc(_) => u.main == Idle
    case Run => u.main != Idle
    case RxIrq(_, _) => true
    case TxIrq => u.udrie
  }

  /** The next access of main code. */
  function RunMain(u: Uart): (u': Uart)
    requires Shape(u) && u.main != Idle
    ensures Shape(u')
  {
    match u.main
    case GetHead => u.(main := GetTail(u.rxHead))
    case GetTail(h) => if h == u.rxTail then u.(main := Idle, result := NO_DATA) else u.(main := GetNext)
    case GetNext => u.(main := GetStore(After(u.rxTail, |u.rxBuf|)))
    case GetStore(t) => u.(rxTail := t, main := GetByte(t))
    case GetByte(t) => u.(main := GetError(u.rxBuf[t]))
    case GetError(data) => u.(main := Idle, result := u.rxError * 256 + data, returned := u.returned + [data])
    case PutHead(data) => u.(main := PutWait(data, After(u.txHead, |u.txBuf|)))
    case PutWait(data, h) => if h == u.txTail then u else u.(main := PutByte(data, h))
    case PutByte(data, h) => u.(txBuf := u.txBuf[h := data], main := PutStore(data, h))
    case PutStore(data, h) => u.(txHead := h, main := PutRead, put := u.put + [data])
    case PutRead => u.(main := PutWrite)
    case PutWrite => u.(udrie := true, main := Idle)
  }

  /** The receive interrupt. */
  function Receive(u: Uart, data: Byte, status: Byte): (u': Uart)
    requires Shape(u)
    ensures Shape(u')
  {
    var h := After(u.rxHead, |u.rxBuf|);
    if h == u.rxTail then u.(rxError := BUFFER_OVERFLOW / 256)
    else u.(rxHead := h, rxBuf := u.rxBuf[h := data], rxError := status, accepted := u.accepted + [data])
  }

  /** The data register empty interrupt. */
  function Transmit(u: Uart): (u': Uart)
    requires Shape(u)
    ensures Shape(u')
  {
    if u.txHead != u.txTail then
      var t := After(u.txTail, |u.txBuf|);
      u.(txTail := t, sent := u.sent + [u.txBuf[t]])
    else u.(udrie := false)
  }

  function Next(u: Uart, st: Step): (u': Uart)
    requires Shape(u) && Enabled(u, st)
    ensures Shape(u')
  {
    match st
    case Getc => u.(main := GetHead)
    case Putc(data) => u.(main := PutHead(data))
    case Run => RunMain(u)
    case RxIrq(data, status) => Receive(u, data, status)
    case TxIrq => Transmit(u)
  }

  predicate EnabledRun(u: Uart, steps: seq<Step>)
    requires Shape(u)
    decreases |steps|
  {
    steps == [] || (Enabled(u, steps[0]) && EnabledRun(Next(u, steps[0]), steps[1..]))
  }

  function AfterRun(u: Uart, steps: seq<Step>): (u': Uart)
    requires Shape(u) && EnabledRun(u, steps)
    ensures Shape(u')
    decreases |steps|
  {
    if steps == [] then u else AfterRun(Next(u, steps[0]), steps[1..])
  }

  /** After uart_init. */
  predicate Initial(u: Uart) {
    && Shape(u) && u.main == Idle && !u.udrie
    && u.rxHead == u.rxTail == u.txHead == u.txTail == 0
    && u.accepted == u.returned == u.put == u.sent == []
  }

  // ---- the invariant ----

  /** The byte uart_getc has taken out of the ring but not returned yet: although the tail has moved
      past it, its slot is not reused. */
  function InFlight(u: Uart): seq<Byte>
    requires Shape(u)
  {
    match u.main
    case GetByte(t) => [u.rxBuf[t]]
    case GetError(data) => [data]
    case _ => []
  }

  predicate ReceiveOk(u: Uart)
    requires Shape(u)
  {
    && u.accepted == u.returned + InFlight(u) + Content(u.rxBuf, u.rxTail, u.rxHead)
    && match u.main
       case GetTail(h) => Count(u.rxTail, h, |u.rxBuf|) <= Count(u.rxTail, u.rxHead, |u.rxBuf|)
       case GetNext => u.rxHead != u.rxTail
       case GetStore(t) => u.rxHead != u.rxTail && t == After(u.rxTail, |u.rxBuf|)
       case GetByte(t) => t == u.rxTail
       case _ => true
  }

  predicate TransmitOk(u: Uart)
    requires Shape(u)
  {
    && u.put == u.sent + Content(u.txBuf, u.txTail, u.txHead)
    && (u.txHead != u.txTail ==> u.udrie || u.main == PutRead || u.main == PutWrite)
    && match u.main
       case PutWait(_, h) => h == After(u.txHead, |u.txBuf|)
       case PutByte(_, h) => h == After(u.txHead, |u.txBuf|) && h != u.txTail
       case PutStore(data, h) => h == After(u.txHead, |u.txBuf|) && h != u.txTail && u.txBuf[h] == data
       case _ => true
  }

  predicate Inv(u: Uart) {
    Shape(u) && ReceiveOk(u) && TransmitOk(u)
  }

  /** The interrupt never writes to the slot main code is about to read. */
  lemma ReceiveKeeps(u: Uart, data: Byte, status: Byte)
    requires Inv(u)
    ensures Inv(Receive(u, data, status))
  {
    hide Content, TransmitOk;
    if After(u.rxHead, |u.rxBuf|) != u.rxTail {
      Grows(u.rxBuf, u.rxTail, u.rxHead, data);
      Regroup(u.returned + InFlight(u), Content(u.rxBuf, u.rxTail, u.rxHead), [data]);
      assert InFlight(Receive(u, data, status)) == InFlight(u);
    }
    SameTransmit(u, Receive(u, data, status));
  }

  lemma Regroup(a: seq<Byte>, b: seq<Byte>, c: seq<Byte>)
    ensures a + b + c == a + (b + c)
  {
  }

  lemma SameTransmit(u: Uart, v: Uart)
    requires Shape(u) && Shape(v) && TransmitOk(u) && v.main == u.main && v.udrie == u.udrie
    requires v.txBuf == u.txBuf && v.txHead == u.txHead && v.txTail == u.txTail && v.put == u.put && v.sent == u.sent
    ensures TransmitOk(v)
  {
  }

  lemma TransmitKeeps(u: Uart)
    requires Inv(u)
    ensures Inv(Transmit(u))
  {
    hide Content;
    if u.txHead != u.txTail {
      Shrinks(u.txBuf, u.txTail, u.txHead);
      var t := After(u.txTail, |u.txBuf|);
      Regroup(u.sent, [u.txBuf[t]], Content(u.txBuf, t, u.txHead));
    }
  }

  lemma RunKeepsReceive(u: Uart)
    requires Inv(u) && u.main != Idle
    ensures ReceiveOk(RunMain(u))
  {
    hide Content, TransmitOk;
    match u.main
    case GetStore(t) =>
      Shrinks(u.rxBuf, u.rxTail, u.rxHead);
      Regroup(u.returned, [u.rxBuf[t]], Content(u.rxBuf, t, u.rxHead));
      assert u.returned + [] == u.returned;
    case GetError(data) =>
      assert u.returned + [data] + [] == u.returned + [data];
    case _ =>
  }

  lemma RunKeepsTransmit(u: Uart)
    requires Inv(u) && u.main != Idle
    ensures TransmitOk(RunMain(u))
  {
    hide Content, ReceiveOk;
    match u.main
    case PutByte(data, h) => Grows(u.txBuf, u.txTail, u.txHead, data);
    case PutStore(data, h) =>
      Grows(u.txBuf, u.txTail, u.txHead, data);
      assert u.txBuf[h := data] == u.txBuf;
      Regroup(u.sent, Content(u.txBuf, u.txTail, u.txHead), [data]);
    case _ =>
  }

  lemma StepKeeps(u: Uart, st: Step)
    requires Inv(u) && Enabled(u, st)
    ensures Inv(Next(u, st))
  {
    match st
    case Getc =>
    case Putc(_) =>
    case Run => RunKeepsReceive(u); RunKeepsTransmit(u); hide ReceiveOk, TransmitOk, RunMain;
    case RxIrq(data, status) => ReceiveKeeps(u, data, status);
    case TxIrq => TransmitKeeps(u);
  }

  lemma {:induction false} RunsKeep(u: Uart, steps: seq<Step>)
    requires Inv(u) && EnabledRun(u, steps)
    ensures Inv(AfterRun(u, steps))
    decreases |steps|
  {
    hide ReceiveOk, TransmitOk, Next;
    if steps == [] {
    } else {
      StepKeeps(u, steps[0]);
      RunsKeep(Next(u, steps[0]), steps[1..]);
    }
  }

  lemma InitialIsGood(u: Uart)
    requires Initial(u)
    ensures Inv(u)
  {
  }

  // ---- what the interrupts achieve ----

  /** With room for it the byte joins the ring as the newest one, and its status is kept; otherwise it
      is lost, and the overflow is flagged. */
  ghost predicate Stored(u: Uart, data: Byte, status: Byte, v: Uart)
    requires Shape(u) && Shape(v)
  {
    var before, now := Content(u.rxBuf, u.rxTail, u.rxHead), Content(v.rxBuf, v.rxTail, v.rxHead);
    && v.returned == u.returned && |v.rxBuf| == |u.rxBuf|
    && (if |before| < |u.rxBuf| - 1
        then now == before + [data] && v.accepted == u.accepted + [data] && v.rxError == status
        else now == before && v.accepted == u.accepted && v.rxError == BUFFER_OVERFLOW / 256)
  }

  lemma ReceiveIs(u: Uart, data: Byte, status: Byte)
    requires Shape(u)
    ensures Stored(u, data, status, Receive(u, data, status))
  {
    hide Content;
    if After(u.rxHead, |u.rxBuf|) != u.rxTail { Grows(u.rxBuf, u.rxTail, u.rxHead, data); }
  }

  /** The oldest byte of a ring that is not empty leaves it for the data register, and the interrupt
      stays enabled; on an empty ring the interrupt disables itself. */
  ghost predicate Passed(u: Uart, v: Uart)
    requires Shape(u) && Shape(v)
  {
    var before, now := Content(u.txBuf, u.txTail, u.txHead), Content(v.txBuf, v.txTail, v.txHead);
    if before != [] then before == [before[0]] + now && v.sent == u.sent + [before[0]] && v.udrie == u.udrie
    else now == [] && v.sent == u.sent && !v.udrie
  }

  lemma TransmitIs(u: Uart)
    requires Shape(u)
    ensures Passed(u, Transmit(u))
  {
    hide Content;
    if u.txHead != u.txTail { Shrinks(u.txBuf, u.txTail, u.txHead); }
  }

  /** The bytes that arrive while the ring has room for them. */
  function Arriving(u: Uart, steps: seq<Step>): seq<Byte>
    requires Shape(u) && EnabledRun(u, steps)
    decreases |steps|
  {
    if steps == [] then []
    else
      (if steps[0].RxIrq? && Count(u.rxTail, u.rxHead, |u.rxBuf|) < |u.rxBuf| - 1 then [steps[0].data] else [])
      + Arriving(Next(u, steps[0]), steps[1..])
  }

  /** Over every run the bytes accepted are exactly those that arrived while the ring had room. */
  lemma {:induction false} AcceptedIsArriving(u: Uart, steps: seq<Step>)
    requires Shape(u) && EnabledRun(u, steps)
    ensures AfterRun(u, steps).accepted == u.accepted + Arriving(u, steps)
    decreases |steps|
  {
    hide Next, Enabled;
    if steps == [] {
      assert u.accepted + [] == u.accepted;
    } else {
      StepAccepts(u, steps[0]);
      AcceptedIsArriving(Next(u, steps[0]), steps[1..]);
      var arrives := steps[0].RxIrq? && Count(u.rxTail, u.rxHead, |u.rxBuf|) < |u.rxBuf| - 1;
      Regroup(u.accepted, if arrives then [steps[0].data] else [], Arriving(Next(u, steps[0]), steps[1..]));
    }
  }

  lemma StepAccepts(u: Uart, st: Step)
    requires Shape(u) && Enabled(u, st)
    ensures Next(u, st).accepted == u.accepted +
      if st.RxIrq? && Count(u.rxTail, u.rxHead, |u.rxBuf|) < |u.rxBuf| - 1 then [st.data] else []
  {
    if st.RxIrq? { ReceiveIs(u, st.data, st.status); }
  }

  lemma StreamsOf(v: Uart)
    requires Inv(v)
    ensures v.returned <= v.accepted && v.sent <= v.put
    ensures v.accepted == v.returned + (InFlight(v) + Content(v.rxBuf, v.rxTail, v.rxHead))
    ensures v.put == v.sent + Content(v.txBuf, v.txTail, v.txHead)
    ensures v.txHead != v.txTail && v.main != PutRead && v.main != PutWrite ==> v.udrie
  {
    hide Content;
  }

  /** Over every run from the start: what is accepted are the bytes that arrive while there is room, and
      nothing accepted is lost, doubled or reordered on its way through the ring, nor is anything to be
      sent, wherever main code is; and a transmit ring that is not empty will be served, except while
      uart_putc is about to enable the interrupt. */
  lemma StreamsAreFaithful(u: Uart, steps: seq<Step>)
    requires Initial(u) && EnabledRun(u, steps)
    ensures var v := AfterRun(u, steps);
      && v.returned <= v.accepted == Arriving(u, steps) && v.sent <= v.put
      && v.accepted == v.returned + (InFlight(v) + Content(v.rxBuf, v.rxTail, v.rxHead))
      && v.put == v.sent + Content(v.txBuf, v.txTail, v.txHead)
      && (v.txHead != v.txTail && v.main != PutRead && v.main != PutWrite ==> v.udrie)
  {
    hide AfterRun, EnabledRun, Content, Arriving, InFlight, Inv;
    InitialIsGood(u);
    RunsKeep(u, steps);
    StreamsOf(AfterRun(u, steps));
    AcceptedIsArriving(u, steps);
    assert [] + Arriving(u, steps) == Arriving(u, steps);
  }

  // ---- what the calls decide ----

  predicate Interrupts(steps: seq<Step>) {
    forall i :: 0 <= i < |steps| ==> steps[i].RxIrq? || steps[i].TxIrq?
  }

  lemma {:induction false} InterruptsKeepMain(u: Uart, steps: seq<Step>)
    requires Shape(u) && EnabledRun(u, steps) && Interrupts(steps)
    ensures var v := AfterRun(u, steps); v.main == u.main && v.rxTail == u.rxTail
    decreases |steps|
  {
    if steps == [] {
    } else {
      InterruptsKeepMain(Next(u, steps[0]), steps[1..]);
    }
  }

  /** uart_getc reports that there is no data if and only if the ring was empty when it looked,
      whatever interrupts come in between its two reads. */
  lemma NoDataIff(u: Uart, steps: seq<Step>)
    requires Inv(u) && u.main == GetHead && EnabledRun(Next(u, Run), steps) && Interrupts(steps)
    ensures var v := AfterRun(Next(u, Run), steps);
      && v.main != Idle
      && (Next(v, Run).main == Idle <==> Content(u.rxBuf, u.rxTail, u.rxHead) == [])
  {
    InterruptsKeepMain(Next(u, Run), steps);
  }

  /** A call of uart_putc that waits for room is served: the interrupt is enabled, and it makes
      room.  (A ring of a single slot never has room.) */
  lemma WaitIsServed(u: Uart)
    requires Inv(u) && u.main.PutWait? && u.main.h == u.txTail && |u.txBuf| > 1
    ensures Enabled(u, TxIrq) && Next(u, TxIrq).main == u.main && u.main.h != Next(u, TxIrq).txTail
  {
  }
}
