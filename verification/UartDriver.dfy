/** uart.c itself: the two interrupts, and uart_getc and uart_putc interrupted at every access. */
module UartDriver {
  import opened Bytes
  import opened UartRings

  /** An interrupt request: a received byte with its status, or a free data register. */
  datatype Irq = Rx(data: Byte, status: Byte) | Tx

  /** One step of the machine. */
  ghost predicate Steps(u: Uart, st: Step, v: Uart) {
    Shape(u) && Enabled(u, st) && v == Next(u, st)
  }

  class Driver {
    const rxBuf: array<Byte>
    const txBuf: array<Byte>
    var rxHead: nat
    var rxTail: nat
    var rxError: Byte
    var txHead: nat
    var txTail: nat
    var udrie: bool
    // The requests that are pending at each point at which main code can be interrupted.
    var requests: seq<seq<Irq>>
    ghost var main: Main
    ghost var result: nat
    ghost var accepted: seq<Byte>
    ghost var returned: seq<Byte>
    ghost var put: seq<Byte>
    ghost var sent: seq<Byte>

    ghost function Now(): Uart
      reads this, rxBuf, txBuf
    {
      Uart(rxBuf[..], rxHead, rxTail, rxError, txBuf[..], txHead, txTail, udrie, main, result,
           accepted, returned, put, sent)
    }

    ghost predicate Valid()
      reads this, rxBuf, txBuf
    {
      rxBuf != txBuf && txBuf.Length > 1 && Inv(Now())
    }

    /** uart_init, with buffers of the configured sizes. */
    constructor (rxSize: nat, txSize: nat, interrupts: seq<seq<Irq>>)
      requires rxSize > 0 && txSize > 1
      ensures Valid() && Initial(Now()) && fresh(rxBuf) && fresh(txBuf)
      ensures rxBuf.Length == rxSize && txBuf.Length == txSize
    {
      rxBuf := new Byte[rxSize];
      txBuf := new Byte[txSize];
      rxHead, rxTail, txHead, txTail := 0, 0, 0, 0;
      rxError, udrie, requests := 0, false, interrupts;
      main, result := Idle, 0;
      accepted, returned, put, sent := [], [], [], [];
      new;
      InitialIsGood(Now());
    }

    /** The receive complete interrupt. */
    method ReceiveInterrupt(data: Byte, status: Byte)
      requires Valid()
      modifies this`rxHead, this`rxError, this`accepted, rxBuf
      ensures Valid() && Steps(old(Now()), RxIrq(data, status), Now())
      ensures Stored(old(Now()), data, status, Now()) && old(accepted) <= accepted
    {
      hide Content, ReceiveOk, TransmitOk, Stored;
      ReceiveKeeps(Now(), data, status);
      ReceiveIs(Now(), data, status);
      var lastRxError := status;
      var tmphead := After(rxHead, rxBuf.Length);
      if tmphead == rxTail {
        lastRxError := BUFFER_OVERFLOW / 256;
      } else {
        rxHead := tmphead;
        rxBuf[tmphead] := data;
        accepted := accepted + [data];
      }
      rxError := lastRxError;
    }

    /** The data register empty interrupt; returns what it writes to the data register. */
    method TransmitInterrupt() returns (data: int)
      requires Valid() && udrie
      modifies this`txTail, this`udrie, this`sent
      ensures Valid() && Steps(old(Now()), TxIrq, Now())
      ensures Passed(old(Now()), Now()) && sent == old(sent) + if data >= 0 then [data] else []
      ensures old(main.PutWait? && main.h == txTail) ==> main.h != txTail
    {
      hide Content, ReceiveOk, TransmitOk, Passed;
      TransmitKeeps(Now());
      TransmitIs(Now());
      if main.PutWait? && main.h == txTail { WaitIsServed(Now()); }
      data := -1;
      if txHead != txTail {
        var tmptail := After(txTail, txBuf.Length);
        txTail := tmptail;
        data := txBuf[tmptail];
        sent := sent + [data];
      } else {
        udrie := false;
      }
    }

    /** A point at which main code can be interrupted. */
    method Interruptible()
      requires Valid()
      modifies this`rxHead, this`rxError, this`accepted, this`txTail, this`udrie, this`sent, this`requests, rxBuf
      ensures Valid() && old(accepted) <= accepted && old(sent) <= sent
    {
      hide Inv, Next, Steps;
      if requests == [] { return; }
      var batch := requests[0];
      requests := requests[1..];
      var i := 0;
      while i < |batch|
        invariant 0 <= i <= |batch|
        invariant Valid() && old(accepted) <= accepted && old(sent) <= sent
      {
        match batch[i] {
          case Rx(data, status) => ReceiveInterrupt(data, status);
          case Tx => if udrie { var _ := TransmitInterrupt(); }
        }
        i := i + 1;
      }
    }

    // ---- uart_getc, access by access ----

    method ReadRxHead() returns (head: nat)
      requires Valid() && main == GetHead
      modifies this`main
      ensures Valid() && Steps(old(Now()), Run, Now()) && main == GetTail(head) && head == rxHead
    {
      hide ReceiveOk, TransmitOk, Content;
      StepKeeps(Now(), Run);
      head := rxHead;
      main := GetTail(head);
    }

    method ReadRxTail(head: nat) returns (empty: bool)
      requires Valid() && main == GetTail(head)
      modifies this`main, this`result
      ensures Valid() && Steps(old(Now()), Run, Now()) && empty == (head == rxTail)
      ensures if empty then main == Idle else main == GetNext
    {
      hide ReceiveOk, TransmitOk, Content;
      StepKeeps(Now(), Run);
      empty := head == rxTail;
      if empty {
        main, result := Idle, NO_DATA;
      } else {
        main := GetNext;
      }
    }

    method ReadRxTailAgain() returns (tmptail: nat)
      requires Valid() && main == GetNext
      modifies this`main
      ensures Valid() && Steps(old(Now()), Run, Now()) && main == GetStore(tmptail)
    {
      hide ReceiveOk, TransmitOk, Content;
      StepKeeps(Now(), Run);
      tmptail := After(rxTail, rxBuf.Length);
      main := GetStore(tmptail);
    }

    method WriteRxTail(tmptail: nat)
      requires Valid() && main == GetStore(tmptail)
      modifies this`main, this`rxTail
      ensures Valid() && Steps(old(Now()), Run, Now()) && main == GetByte(tmptail)
    {
      hide ReceiveOk, TransmitOk, Content;
      StepKeeps(Now(), Run);
      rxTail := tmptail;
      main := GetByte(tmptail);
    }

    method ReadRxSlot(tmptail: nat) returns (data: Byte)
      requires Valid() && main == GetByte(tmptail)
      modifies this`main
      ensures Valid() && Steps(old(Now()), Run, Now()) && main == GetError(data)
      ensures |returned| < |accepted| && data == accepted[|returned|]
    {
      hide ReceiveOk, TransmitOk, Content;
      StepKeeps(Now(), Run);
      data := rxBuf[tmptail];
      main := GetError(data);
      FirstInFlight(Now());
    }

    method ReadRxError(data: Byte) returns (r: nat)
      requires Valid() && main == GetError(data)
      modifies this`main, this`result, this`returned
      ensures Valid() && Steps(old(Now()), Run, Now()) && main == Idle
      ensures r == rxError * 256 + data && returned == old(returned) + [data]
    {
      hide ReceiveOk, TransmitOk, Content;
      StepKeeps(Now(), Run);
      r := rxError * 256 + data;
      main, result, returned := Idle, r, returned + [data];
    }

    /** The tail moves on before the slot is read; the byte is nevertheless the oldest one. */
    method TakeByte() returns (data: Byte)
      requires Valid() && main == GetNext
      modifies this, rxBuf
      ensures Valid() && main == GetError(data) && put == old(put) && returned == old(returned)
      ensures old(accepted) <= accepted && old(sent) <= sent
      ensures |returned| < |accepted| && data == accepted[|returned|]
    {
      hide Inv, Next, Steps;
      Interruptible();
      var tmptail := ReadRxTailAgain();
      Interruptible();
      WriteRxTail(tmptail);
      Interruptible();
      data := ReadRxSlot(tmptail);
    }

    /** uart_getc: the oldest received byte together with the last error, or NO_DATA exactly if
        nothing is waiting at the time of the call. */
    method Getc() returns (r: nat, ghost got: bool)
      requires Valid() && main == Idle
      modifies this, rxBuf
      ensures Valid() && main == Idle && put == old(put) && old(accepted) <= accepted && old(sent) <= sent
      ensures |old(returned)| <= |old(accepted)| && (got <==> |old(returned)| < |old(accepted)|)
      ensures if got then r % 256 == old(accepted)[|old(returned)|] && returned == old(returned) + [r % 256]
              else r == NO_DATA && returned == old(returned)
      ensures got ==> r / 256 == rxError
    {
      hide Inv, Next, Steps;
      var empty := Look();
      got := !empty;
      if empty {
        return NO_DATA, got;
      }
      var data := TakeByte();
      Interruptible();
      r := ReadRxError(data);
      Bits(rxError, data);
    }

    /** Is anything waiting?  What counts is the moment of the first read. */
    method Look() returns (empty: bool)
      requires Valid() && main == Idle
      modifies this, rxBuf
      ensures Valid() && main == (if empty then Idle else GetNext) && put == old(put) && returned == old(returned)
      ensures old(accepted) <= accepted && old(sent) <= sent
      ensures |old(returned)| <= |old(accepted)| && (empty <==> |old(returned)| == |old(accepted)|)
    {
      hide Inv, Next, Steps;
      CallKeeps(Now(), Step.Getc);
      main := GetHead;
      var head := ReadRxHead();
      Interruptible();
      empty := ReadRxTail(head);
    }

    // ---- uart_putc, access by access ----

    method ReadTxHead(data: Byte) returns (tmphead: nat)
      requires Valid() && main == PutHead(data)
      modifies this`main
      ensures Valid() && Steps(old(Now()), Run, Now()) && main == PutWait(data, tmphead)
    {
      hide ReceiveOk, TransmitOk, Content;
      StepKeeps(Now(), Run);
      tmphead := After(txHead, txBuf.Length);
      main := PutWait(data, tmphead);
    }

    /** Polls of the tail between two interrupts read the same value, so one turn stands for all of
        them up to the next transmit interrupt; that one is enabled and makes room. */
    method AwaitRoom(data: Byte, tmphead: nat)
      requires Valid() && main == PutWait(data, tmphead)
      modifies this, rxBuf
      ensures Valid() && main == PutByte(data, tmphead) && put == old(put) && returned == old(returned)
      ensures old(accepted) <= accepted && old(sent) <= sent
    {
      hide Inv, Next, Steps;
      Interruptible();
      if tmphead == txTail {
        WaitIsServed(Now());
        var _ := TransmitInterrupt();
      }
      FoundRoom(data, tmphead);
    }

    method FoundRoom(data: Byte, tmphead: nat)
      requires Valid() && main == PutWait(data, tmphead) && tmphead != txTail
      modifies this`main
      ensures Valid() && Steps(old(Now()), Run, Now()) && main == PutByte(data, tmphead)
    {
      hide ReceiveOk, TransmitOk, Content;
      StepKeeps(Now(), Run);
      main := PutByte(data, tmphead);
    }

    method WriteTxSlot(data: Byte, tmphead: nat)
      requires Valid() && main == PutByte(data, tmphead)
      modifies this`main, txBuf
      ensures Valid() && Steps(old(Now()), Run, Now()) && main == PutStore(data, tmphead)
    {
      hide ReceiveOk, TransmitOk, Content;
      StepKeeps(Now(), Run);
      txBuf[tmphead] := data;
      main := PutStore(data, tmphead);
    }

    method WriteTxHead(data: Byte, tmphead: nat)
      requires Valid() && main == PutStore(data, tmphead)
      modifies this`main, this`txHead, this`put
      ensures Valid() && Steps(old(Now()), Run, Now()) && main == PutRead && put == old(put) + [data]
    {
      hide ReceiveOk, TransmitOk, Content;
      StepKeeps(Now(), Run);
      txHead := tmphead;
      main, put := PutRead, put + [data];
    }

    method ReadControl()
      requires Valid() && main == PutRead
      modifies this`main
      ensures Valid() && Steps(old(Now()), Run, Now()) && main == PutWrite
    {
      hide ReceiveOk, TransmitOk, Content;
      StepKeeps(Now(), Run);
      main := PutWrite;
    }

    method WriteControl()
      requires Valid() && main == PutWrite
      modifies this`main, this`udrie
      ensures Valid() && Steps(old(Now()), Run, Now()) && main == Idle
    {
      hide ReceiveOk, TransmitOk, Content;
      StepKeeps(Now(), Run);
      udrie := true;
      main := Idle;
    }

    /** uart_putc: waits for room, stores the byte and has it transmitted. */
    method Putc(data: Byte)
      requires Valid() && main == Idle
      modifies this, rxBuf, txBuf
      ensures Valid() && main == Idle && put == old(put) + [data] && returned == old(returned)
      ensures old(accepted) <= accepted && old(sent) <= sent
      ensures put != sent ==> udrie
    {
      hide Inv, Next, Steps;
      CallKeeps(Now(), Step.Putc(data));
      main := PutHead(data);
      var tmphead := ReadTxHead(data);
      AwaitRoom(data, tmphead);
      Store(data, tmphead);
      EnableInterrupt();
    }

    /** The byte goes into its slot before the head makes it visible. */
    method Store(data: Byte, tmphead: nat)
      requires Valid() && main == PutByte(data, tmphead)
      modifies this, rxBuf, txBuf
      ensures Valid() && main == PutRead && put == old(put) + [data] && returned == old(returned)
      ensures old(accepted) <= accepted && old(sent) <= sent
    {
      hide Inv, Next, Steps;
      Interruptible();
      WriteTxSlot(data, tmphead);
      Interruptible();
      WriteTxHead(data, tmphead);
    }

    /** The control register is read, changed and written back. */
    method EnableInterrupt()
      requires Valid() && main == PutRead
      modifies this, rxBuf
      ensures Valid() && main == Idle && put == old(put) && returned == old(returned)
      ensures old(accepted) <= accepted && old(sent) <= sent
      ensures put != sent ==> udrie
    {
      hide Inv, Next, Steps;
      Interruptible();
      ReadControl();
      Interruptible();
      WriteControl();
      PutIsServed(Now());
    }
  }

  /** At a call nothing is in flight, so what is accepted but not returned is in the ring. */
  lemma CallKeeps(u: Uart, st: Step)
    requires Inv(u) && u.main == Idle && (st.Getc? || st.Putc?)
    ensures Inv(Next(u, st)) && Next(u, st) == u.(main := if st.Getc? then GetHead else PutHead(st.data))
    ensures |u.returned| <= |u.accepted| && (|u.returned| < |u.accepted| <==> u.rxHead != u.rxTail)
  {
    StepKeeps(u, st);
    assert u.returned + [] == u.returned;
  }

  /** The byte in flight is the oldest one that has not been returned. */
  lemma FirstInFlight(u: Uart)
    requires Inv(u) && u.main.GetError?
    ensures |u.returned| < |u.accepted| && u.main.data == u.accepted[|u.returned|]
  {
  }

  lemma PutIsServed(u: Uart)
    requires Inv(u) && u.main == Idle
    ensures u.put != u.sent ==> u.udrie
  {
    if u.txHead == u.txTail { assert u.sent + [] == u.sent; }
  }

  lemma Bits(error: Byte, data: Byte)
    ensures (error * 256 + data) % 256 == data && (error * 256 + data) / 256 == error
  {
  }
}
