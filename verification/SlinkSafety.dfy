/** Stop-and-wait delivery: the eight-bit sequence numbers always agree with unbounded packet
    counters, and the receiver's bytes are a prefix of the accepted ones. */
module SlinkSafety {
  import opened Wrappers
  import opened Bytes
  import opened SlinkProtocol

  function Concat(ps: seq<seq<Byte>>): seq<Byte> {
    if ps == [] then [] else Concat(ps[..|ps| - 1]) + ps[|ps| - 1]
  }

  lemma ConcatSnoc(ps: seq<seq<Byte>>, p: seq<Byte>)
    ensures Concat(ps + [p]) == Concat(ps) + p
  {
    assert (ps + [p])[..|ps|] == ps;
  }

  lemma {:induction false} ConcatPrefix(ps: seq<seq<Byte>>, k: nat)
    requires k <= |ps|
    ensures Concat(ps[..k]) <= Concat(ps)
  {
    if k == |ps| {
      assert ps[..k] == ps;
    } else {
      assert ps[..|ps| - 1][..k] == ps[..k];
      ConcatPrefix(ps[..|ps| - 1], k);
    }
  }

  /** Data packet number `n` of a sender; numbers start at 1. */
  function Nth(s: End, n: nat): Packet
    requires 1 <= n <= |s.packets|
  {
    Packet(Low(n), s.packets[n - 1])
  }

  predicate IsData(p: Packet) {
    p.data != []
  }

  /** Data packets on the way are copies of packet `r` followed by copies of packet `r + 1`. */
  predicate DataInOrder(ch: seq<Packet>, s: End, r: nat) {
    && (forall p :: p in ch && IsData(p) ==>
         || (1 <= r <= |s.packets| && p == Nth(s, r))
         || (r + 1 <= |s.packets| && p == Nth(s, r + 1)))
    && (forall i, j :: 0 <= i < j < |ch| && IsData(ch[i]) && IsData(ch[j]) && ch[i].seqno == Low(r + 1) ==>
         ch[j].seqno == Low(r + 1))
  }

  /** Acknowledgements on the way are for packet `n - 1` and then for packet `n`. */
  predicate AcksInOrder(ch: seq<Packet>, n: nat) {
    && (forall p :: p in ch && !IsData(p) ==> p.seqno == Low(n - 1) || p.seqno == Low(n))
    && (forall i, j :: 0 <= i < j < |ch| && !IsData(ch[i]) && !IsData(ch[j]) && ch[i].seqno == Low(n) ==>
         ch[j].seqno == Low(n))
  }

  predicate AllAcksFor(ch: seq<Packet>, n: int) {
    forall p :: p in ch && !IsData(p) ==> p.seqno == Low(n)
  }

  /** The sender's half of the state. */
  predicate SenderOk(s: End) {
    var n := |s.packets|;
    && 1 <= s.max
    && s.txseq == Low(n + 1)
    && s.accepted == Concat(s.packets) + s.txbuf
    && (forall i :: 0 <= i < n ==> s.packets[i] != [] && |s.packets[i]| <= s.max)
    && s.tx.cseq == Low(n)
    && (n == 0 ==> s.tx.timeout == 0)
    && (n > 0 ==> s.tx.data == s.packets[n - 1])
  }

  /** The receiver's half: what it has taken are the first `received` packets. */
  predicate ReceiverOk(d: End, s: End) {
    && d.rxseq == Low(d.received)
    && d.received <= |s.packets|
    && d.taken == Concat(s.packets[..d.received])
    && d.taken == d.got + d.rxbuf
  }

  /** One direction of the link: sender `s`, receiver `d`, data and acknowledgement channels. */
  predicate Direction(s: End, d: End, fwd: seq<Packet>, back: seq<Packet>) {
    var n, r := |s.packets|, d.received;
    && SenderOk(s) && ReceiverOk(d, s)
    && r <= n <= r + 1
    && (s.tx.timeout == 0 ==> r == n && AllAcksFor(back, n))
    && (r < n ==> AllAcksFor(back, r))
    && DataInOrder(fwd, s, r)
    && AcksInOrder(back, n)
  }

  predicate Inv(w: World) {
    Direction(w.a, w.b, w.ab, w.ba) && Direction(w.b, w.a, w.ba, w.ab)
  }

  /** A receiver's bytes are a prefix of those the other side accepted: no gap, no duplicate. */
  lemma DeliveredIsPrefix(w: World)
    requires Inv(w)
    ensures w.b.got <= w.b.taken <= w.a.accepted && w.a.got <= w.a.taken <= w.b.accepted
  {
    ConcatPrefix(w.a.packets, w.b.received);
    ConcatPrefix(w.b.packets, w.a.received);
  }

  /** The tests on eight-bit numbers decide what the unbounded counters would: a data packet on its
      way is new if and only if it is packet `received + 1`, and an acknowledgement that matches the
      clear sequence number is for the packet being sent. */
  lemma SequenceTestsAgree(w: World, p: Packet)
    requires Inv(w)
    ensures p in w.ab && IsData(p) && p.seqno == w.b.rxseq ==>
      1 <= w.b.received && p == Nth(w.a, w.b.received)
    ensures p in w.ab && IsData(p) && p.seqno == Low(w.b.rxseq + 1) ==>
      w.b.received < |w.a.packets| && p == Nth(w.a, w.b.received + 1)
    ensures p in w.ab && IsData(p) ==> p.seqno == w.b.rxseq || p.seqno == Low(w.b.rxseq + 1)
    ensures p in w.ba && !IsData(p) && p.seqno == w.a.tx.cseq ==> w.b.received == |w.a.packets|
  {
    LowNext(w.b.received);
    LowNext(|w.a.packets| - 1);
  }

  lemma LowNext(n: int)
    ensures Low(Low(n) + 1) == Low(n + 1) && Low(n) != Low(n + 1)
  {
  }

  // ---- channels ----

  lemma PopKeeps(ch: seq<Packet>, s: End, r: nat, n: nat)
    requires ch != []
    ensures DataInOrder(ch, s, r) ==> DataInOrder(ch[1..], s, r)
    ensures AcksInOrder(ch, n) ==> AcksInOrder(ch[1..], n)
    ensures forall k :: AllAcksFor(ch, k) ==> AllAcksFor(ch[1..], k)
  {
    assert forall p :: p in ch[1..] ==> p in ch;
  }

  lemma LoseKeeps(ch: seq<Packet>, i: nat, s: End, r: nat, n: nat)
    requires i < |ch|
    ensures var ch' := ch[..i] + ch[i + 1..];
      && (DataInOrder(ch, s, r) ==> DataInOrder(ch', s, r))
      && (AcksInOrder(ch, n) ==> AcksInOrder(ch', n))
      && (forall k :: AllAcksFor(ch, k) ==> AllAcksFor(ch', k))
  {
    var ch' := ch[..i] + ch[i + 1..];
    assert forall p :: p in ch' ==> p in ch;
    assert forall j :: 0 <= j < |ch'| ==> ch'[j] == ch[if j < i then j else j + 1];
  }

  lemma PushAck(ch: seq<Packet>, p: Packet, s: End, r: nat, n: nat)
    requires !IsData(p) && p.seqno == Low(n)
    ensures DataInOrder(ch, s, r) ==> DataInOrder(ch + [p], s, r)
    ensures AcksInOrder(ch, n) ==> AcksInOrder(ch + [p], n)
    ensures AllAcksFor(ch, n) ==> AllAcksFor(ch + [p], n)
  {
  }

  lemma PushData(ch: seq<Packet>, p: Packet, s: End, r: nat, n: nat)
    requires IsData(p)
    ensures AcksInOrder(ch, n) ==> AcksInOrder(ch + [p], n)
    ensures forall k :: AllAcksFor(ch, k) ==> AllAcksFor(ch + [p], k)
    ensures DataInOrder(ch, s, r) && r + 1 <= |s.packets| && p == Nth(s, r + 1) ==>
      DataInOrder(ch + [p], s, r)
    ensures DataInOrder(ch, s, r) && 1 <= r == |s.packets| && p == Nth(s, r) ==>
      DataInOrder(ch + [p], s, r)
  {
    LowNext(r);
  }

  // ---- steps ----

  predicate SameReceiver(d: End, d': End) {
    && d'.rxbuf == d.rxbuf && d'.rxseq == d.rxseq && d'.taken == d.taken && d'.got == d.got
    && d'.received == d.received
  }

  predicate SameSender(s: End, s': End) {
    && s'.max == s.max && s'.txbuf == s.txbuf && s'.tx == s.tx && s'.txseq == s.txseq
    && s'.packets == s.packets && s'.accepted == s.accepted
  }

  lemma FrameKeeps(s: End, d: End, fwd: seq<Packet>, back: seq<Packet>, s': End, d': End)
    requires Direction(s, d, fwd, back) && SameSender(s, s') && SameReceiver(d, d')
    ensures Direction(s', d', fwd, back)
  {
    assert forall n :: 1 <= n <= |s.packets| ==> Nth(s', n) == Nth(s, n);
  }

  lemma TimeoutKeeps(s: End, d: End, fwd: seq<Packet>, back: seq<Packet>, t: nat)
    requires Direction(s, d, fwd, back) && s.tx.timeout > 0
    requires t == 0 ==> d.received == |s.packets| && AllAcksFor(back, |s.packets|)
    ensures Direction(s.(tx := s.tx.(timeout := t)), d, fwd, back)
  {
    var s' := s.(tx := s.tx.(timeout := t));
    assert forall n :: 1 <= n <= |s.packets| ==> Nth(s', n) == Nth(s, n);
  }

  /** A fresh packet. */
  lemma BuildKeeps(s: End, d: End, fwd: seq<Packet>, back: seq<Packet>)
    requires Direction(s, d, fwd, back) && s.tx.timeout == 0 && s.txbuf != []
    ensures var (s', out) := Flush(s);
      out.Some? && IsData(out.value) && Direction(s', d, fwd + [out.value], back)
  {
    hide DataInOrder, AcksInOrder, AllAcksFor, SenderOk;
    var (s', out) := Flush(s);
    var n, r := |s.packets|, d.received;
    BuildSender(s);
    assert s'.packets[..r] == s.packets[..r];
    LowNext(n);
    FreshStart(s, s', fwd, r);
    PushData(fwd, out.value, s', r, n + 1);
    AcksBehind(back, n);
  }

  /** What building a packet makes of the sender. */
  lemma BuildSender(s: End)
    requires SenderOk(s) && s.tx.timeout == 0 && s.txbuf != []
    ensures var (s', out) := Flush(s);
      && SenderOk(s') && SameReceiver(s, s') && s.packets <= s'.packets && |s'.packets| == |s.packets| + 1
      && s'.tx.timeout > 0
      && out.Some? && IsData(out.value) && out.value == Nth(s', |s'.packets|)
  {
    hide Concat;
    var (s', out) := Flush(s);
    var n := |s.packets|;
    var k := Min(s.max, |s.txbuf|);
    var data := s.txbuf[..k];
    ConcatSnoc(s.packets, data);
    assert Concat(s.packets) + s.txbuf == Concat(s.packets) + data + s.txbuf[k..];
    LowNext(n + 1);
  }

  /** With everything received, only copies of the last packet are on the way. */
  lemma FreshStart(s: End, s': End, fwd: seq<Packet>, r: nat)
    requires DataInOrder(fwd, s, r) && r == |s.packets| && s.packets <= s'.packets
    ensures DataInOrder(fwd, s', r)
  {
    LowNext(r);
    assert forall p :: p in fwd && IsData(p) ==> 1 <= r && p == Nth(s, r) && p == Nth(s', r);
  }

  lemma AcksBehind(back: seq<Packet>, n: nat)
    requires AllAcksFor(back, n)
    ensures AcksInOrder(back, n + 1)
  {
    LowNext(n);
  }

  lemma FlushSender(s: End, d: End, fwd: seq<Packet>, back: seq<Packet>)
    requires Direction(s, d, fwd, back)
    ensures var (s', out) := Flush(s);
      Direction(s', d, Sent(fwd, out), back) && SameReceiver(s, s') && (out.Some? ==> IsData(out.value))
  {
    if s.tx.timeout > 1 {
      TimeoutKeeps(s, d, fwd, back, s.tx.timeout - 1);
    } else if s.tx.timeout == 1 {
      TimeoutKeeps(s, d, fwd, back, RESEND_AFTER);
      var n := |s.packets|;
      PushData(fwd, Nth(s, n), s, d.received, n);
      FrameKeeps(s, d, fwd, back, s, d);
      var (s', out) := Flush(s);
      assert DataInOrder(fwd + [out.value], s', d.received) by {
        assert forall n :: 1 <= n <= |s.packets| ==> Nth(s', n) == Nth(s, n);
      }
    } else if s.txbuf != [] {
      BuildKeeps(s, d, fwd, back);
    }
  }

  lemma PutSender(s: End, d: End, fwd: seq<Packet>, back: seq<Packet>, c: Byte)
    requires Direction(s, d, fwd, back)
    ensures var (s', out) := Put(s, c);
      Direction(s', d, Sent(fwd, out), back) && SameReceiver(s, s') && (out.Some? ==> IsData(out.value))
  {
    var s1 :=
      if |s.txbuf| < CAPACITY then s.(txbuf := s.txbuf + [c], accepted := s.accepted + [c]) else s;
    assert Concat(s.packets) + (s.txbuf + [c]) == Concat(s.packets) + s.txbuf + [c];
    assert Direction(s1, d, fwd, back) by {
      assert forall n :: 1 <= n <= |s.packets| ==> Nth(s1, n) == Nth(s, n);
    }
    FlushSender(s1, d, fwd, back);
  }

  /** The receiver side of a step that sends data: its own acknowledgements are not affected. */
  lemma PushOnBack(s: End, d: End, fwd: seq<Packet>, back: seq<Packet>, out: Option<Packet>)
    requires Direction(s, d, fwd, back) && (out.Some? ==> IsData(out.value))
    ensures Direction(s, d, fwd, Sent(back, out))
  {
    if out.Some? { PushData(back, out.value, d, 0, |s.packets|); }
  }

  lemma DeliverAck(s: End, d: End, fwd: seq<Packet>, back: seq<Packet>)
    requires Direction(s, d, fwd, back) && back != [] && !IsData(back[0])
    ensures var (s', out) := Receive(s, back[0]);
      Direction(s', d, fwd, back[1..]) && out == None && SameReceiver(s, s')
  {
    var n := |s.packets|;
    LowNext(n - 1);
    PopKeeps(back, s, d.received, n);
    assert Direction(s, d, fwd, back[1..]);
    if back[0].seqno == Low(n) && s.tx.timeout > 0 {
      assert back[0] in back;
      assert AllAcksFor(back[1..], n);
      TimeoutKeeps(s, d, fwd, back[1..], 0);
    }
  }

  lemma DeliverData(s: End, d: End, fwd: seq<Packet>, back: seq<Packet>)
    requires Direction(s, d, fwd, back) && fwd != [] && IsData(fwd[0])
    requires fwd[0].seqno == Low(d.rxseq + 1) ==> |d.rxbuf| + |fwd[0].data| <= CAPACITY
    ensures var (d', out) := Receive(d, fwd[0]);
      && Direction(s, d', fwd[1..], Sent(back, out)) && SameSender(d, d')
      && (out.Some? ==> !IsData(out.value))
  {
    var n, r := |s.packets|, d.received;
    var p := fwd[0];
    assert p in fwd;
    LowNext(r);
    PopKeeps(fwd, s, r, n);
    if p.seqno == d.rxseq {
      PushAck(back, Packet(p.seqno, []), d, 0, r);
      if r < n { AcksUpTo(back + [Packet(p.seqno, [])], r, n); }
    } else {
      assert r + 1 <= n && p == Nth(s, r + 1);
      TakeOver(s, d, fwd, back);
    }
  }

  lemma AcksUpTo(back: seq<Packet>, r: nat, n: nat)
    requires r < n <= r + 1 && AllAcksFor(back, r)
    ensures AcksInOrder(back, n)
  {
    AcksBehind(back, r);
  }

  /** The packet is new: its data are taken over and it is acknowledged. */
  lemma TakeOver(s: End, d: End, fwd: seq<Packet>, back: seq<Packet>)
    requires Direction(s, d, fwd, back) && fwd != [] && IsData(fwd[0])
    requires d.received + 1 == |s.packets| && fwd[0] == Nth(s, d.received + 1)
    requires |d.rxbuf| + |fwd[0].data| <= CAPACITY
    ensures var (d', out) := Receive(d, fwd[0]);
      Direction(s, d', fwd[1..], Sent(back, out)) && SameSender(d, d') && out == Some(Packet(fwd[0].seqno, []))
  {
    hide DataInOrder, AcksInOrder, AllAcksFor, Concat;
    var n, r := |s.packets|, d.received;
    var p := fwd[0];
    LowNext(r);
    LowNext(n);
    var (d', out) := Receive(d, p);
    assert s.packets[..n] == s.packets[..r] + [s.packets[r]];
    ConcatSnoc(s.packets[..r], s.packets[r]);
    OnlyNewest(s, fwd);
    AcksBehind(back, r);
    PushAck(back, out.value, d, 0, n);
  }

  /** Once the newest packet has arrived, only copies of it can follow. */
  lemma OnlyNewest(s: End, fwd: seq<Packet>)
    requires |s.packets| > 0 && fwd != [] && IsData(fwd[0]) && fwd[0] == Nth(s, |s.packets|)
    requires DataInOrder(fwd, s, |s.packets| - 1)
    ensures DataInOrder(fwd[1..], s, |s.packets|)
  {
    var n, rest := |s.packets|, fwd[1..];
    LowNext(n - 1);
    LowNext(n);
    forall q | q in rest && IsData(q) ensures q == Nth(s, n) {
      var j :| 0 <= j < |rest| && rest[j] == q;
      assert fwd[j + 1] == q && q in fwd;
    }
    assert forall i :: 0 <= i < |rest| ==> rest[i] in rest;
  }

  lemma LoseDirection(s: End, d: End, fwd: seq<Packet>, back: seq<Packet>, i: nat)
    requires Direction(s, d, fwd, back)
    ensures i < |fwd| ==> Direction(s, d, fwd[..i] + fwd[i + 1..], back)
    ensures i < |back| ==> Direction(s, d, fwd, back[..i] + back[i + 1..])
  {
    if i < |fwd| { LoseKeeps(fwd, i, s, d.received, |s.packets|); }
    if i < |back| { LoseKeeps(back, i, s, d.received, |s.packets|); }
  }

  lemma PopOther(s: End, d: End, fwd: seq<Packet>, back: seq<Packet>)
    requires Direction(s, d, fwd, back)
    ensures fwd != [] && !IsData(fwd[0]) ==> Direction(s, d, fwd[1..], back)
    ensures back != [] && IsData(back[0]) ==> Direction(s, d, fwd, back[1..])
  {
    if fwd != [] { PopKeeps(fwd, s, d.received, |s.packets|); }
    if back != [] { PopKeeps(back, s, d.received, |s.packets|); }
  }

  lemma PushAckOnFwd(s: End, d: End, fwd: seq<Packet>, back: seq<Packet>, out: Option<Packet>)
    requires Direction(s, d, fwd, back) && (out.Some? ==> !IsData(out.value))
    ensures Direction(s, d, Sent(fwd, out), back)
  {
  }

  lemma DeliverKeeps(w: World)
    requires Inv(w) && Enabled(w, Deliver)
    ensures Inv(Next(w, Deliver))
  {
    hide Direction, Receive;
    var p := w.ba[0];
    var (a, out) := Receive(w.a, p);
    PopOther(w.b, w.a, w.ba, w.ab);
    PopOther(w.a, w.b, w.ab, w.ba);
    if !IsData(p) {
      DeliverAck(w.a, w.b, w.ab, w.ba);
      FrameKeeps(w.b, w.a, w.ba[1..], w.ab, w.b, a);
    } else {
      DeliverData(w.b, w.a, w.ba, w.ab);
      FrameKeeps(w.a, w.b, w.ab, w.ba[1..], a, w.b);
      PushAckOnFwd(a, w.b, w.ab, w.ba[1..], out);
    }
  }

  /** Every step of either endpoint keeps the invariant. */
  lemma StepKeeps(w: World, s: Step)
    requires Inv(w) && Enabled(w, s)
    ensures Inv(Next(w, s))
  {
    hide Direction, Put, Flush, Receive;
    match s
    case PutByte(c) =>
      PutSender(w.a, w.b, w.ab, w.ba, c);
      var (a, out) := Put(w.a, c);
      FrameKeeps(w.b, w.a, w.ba, w.ab, w.b, a);
      PushOnBack(w.b, a, w.ba, w.ab, out);
    case Poll =>
      FlushSender(w.a, w.b, w.ab, w.ba);
      var (a, out) := Flush(w.a);
      FrameKeeps(w.b, w.a, w.ba, w.ab, w.b, a);
      PushOnBack(w.b, a, w.ba, w.ab, out);
    case Deliver => DeliverKeeps(w);
    case TakeByte =>
      GetKeeps(w.b, w.a, w.ba, w.ab);
      FrameKeeps(w.a, w.b, w.ab, w.ba, Get(w.a), w.b);
    case Lose(i) =>
      LoseDirection(w.a, w.b, w.ab, w.ba, i);
      LoseDirection(w.b, w.a, w.ba, w.ab, i);
  }

  lemma GetKeeps(s: End, d: End, fwd: seq<Packet>, back: seq<Packet>)
    requires Direction(s, d, fwd, back)
    ensures Direction(s, Get(d), fwd, back)
  {
    if d.rxbuf != [] {
      assert d.got + d.rxbuf == d.got + [d.rxbuf[0]] + d.rxbuf[1..];
    }
  }

  // ---- runs ----

  /** A step of endpoint a (`true`) or of endpoint b. */
  datatype Move = Move(ofA: bool, step: Step)

  function View(w: World, m: Move): World {
    if m.ofA then w else Mirror(w)
  }

  function After(w: World, m: Move): World
    requires Enabled(View(w, m), m.step)
  {
    View(Next(View(w, m), m.step), m)
  }

  predicate EnabledRun(w: World, ms: seq<Move>)
    decreases |ms|
  {
    ms == [] || (Enabled(View(w, ms[0]), ms[0].step) && EnabledRun(After(w, ms[0]), ms[1..]))
  }

  function AfterRun(w: World, ms: seq<Move>): World
    requires EnabledRun(w, ms)
    decreases |ms|
  {
    if ms == [] then w else AfterRun(After(w, ms[0]), ms[1..])
  }

  /** slink_init */
  function Fresh(max: nat): End {
    End(max, [], [], Sending(0, [], 0), 1, 0, [], [], [], [], 0)
  }

  lemma FreshIsGood(maxA: nat, maxB: nat)
    requires 1 <= maxA && 1 <= maxB
    ensures Inv(World(Fresh(maxA), Fresh(maxB), [], []))
  {
    hide DataInOrder, AcksInOrder, AllAcksFor;
    NothingSent(Fresh(maxA));
    NothingSent(Fresh(maxB));
  }

  lemma NothingSent(s: End)
    ensures DataInOrder([], s, 0) && AcksInOrder([], 0) && AllAcksFor([], 0)
  {
  }

  lemma {:induction false} RunKeeps(w: World, ms: seq<Move>)
    requires Inv(w) && EnabledRun(w, ms)
    ensures Inv(AfterRun(w, ms))
    decreases |ms|
  {
    hide Direction, Next, Enabled;
    if ms == [] {
    } else {
      StepKeeps(View(w, ms[0]), ms[0].step);
      RunKeeps(After(w, ms[0]), ms[1..]);
    }
  }

  /** Stop-and-wait delivery: after any interleaving of puts, polls, deliveries, gets and losses the
      bytes each side has handed out are a prefix of the bytes the other side accepted. */
  lemma LinkDeliversPrefix(maxA: nat, maxB: nat, ms: seq<Move>)
    requires 1 <= maxA && 1 <= maxB && EnabledRun(World(Fresh(maxA), Fresh(maxB), [], []), ms)
    ensures var w := AfterRun(World(Fresh(maxA), Fresh(maxB), [], []), ms);
      w.b.got <= w.b.taken <= w.a.accepted && w.a.got <= w.a.taken <= w.b.accepted
  {
    hide Direction, EnabledRun, AfterRun;
    FreshIsGood(maxA, maxB);
    var w0 := World(Fresh(maxA), Fresh(maxB), [], []);
    RunKeeps(w0, ms);
    DeliveredIsPrefix(AfterRun(w0, ms));
  }

  /** Room in the receive buffer is necessary too: a new packet is taken over whole if and only if
      it fits; otherwise it is acknowledged all the same, and its tail is lost for good. */
  lemma RoomIff(e: End, p: Packet)
    requires IsData(p) && p.seqno == Low(e.rxseq + 1) && |e.rxbuf| <= CAPACITY
    ensures var (e', out) := Receive(e, p);
      && (e'.taken == e.taken + p.data <==> |e.rxbuf| + |p.data| <= CAPACITY)
      && out == Some(Packet(p.seqno, [])) && e'.rxseq == p.seqno
  {
    LowNext(e.rxseq);
    var in_ := Fitting(e, p.data);
    if e.taken + in_ == e.taken + p.data {
      assert |e.taken + in_| == |e.taken| + |in_|;
    }
  }
}
