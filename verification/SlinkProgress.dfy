/** The link never gets stuck: if both sides keep polling, delivering and reading, and nothing more is
    lost, every byte that slink_put has accepted is handed out on the other side. */
module SlinkProgress {
  import opened Wrappers
  import opened Bytes
  import opened SlinkProtocol
  import opened SlinkSafety

  // ---- what single steps achieve ----

  /** An acknowledgement ends the transmission if and only if it is for the packet being sent. */
  lemma AckClears(w: World)
    requires Inv(w) && Enabled(w, Deliver) && !IsData(w.ba[0])
    ensures var w' := Next(w, Deliver);
      && w'.a == w.a.(tx := w.a.tx.(timeout := if w.ba[0].seqno == Low(|w.a.packets|) then 0 else w.a.tx.timeout))
      && w'.b == w.b && w'.ab == w.ab && w'.ba == w.ba[1..]
  {
    hide DataInOrder, AcksInOrder, AllAcksFor;
  }

  /** A data packet is acknowledged, whether it is new or has been received before. */
  lemma DataIsAcknowledged(w: World)
    requires Inv(w) && Enabled(w, Deliver) && IsData(w.ba[0])
    ensures var w' := Next(w, Deliver);
      && w'.ab == w.ab + [Packet(w.ba[0].seqno, [])] && w'.ba == w.ba[1..] && w'.b == w.b
      && w'.a.tx == w.a.tx && w'.a.txbuf == w.a.txbuf && w'.a.max == w.a.max && w'.a.accepted == w.a.accepted
  {
    SequenceTestsAgree(Mirror(w), w.ba[0]);
  }

  // ---- runs without losses ----

  predicate Honest(ms: seq<Move>) {
    forall i :: 0 <= i < |ms| ==> ms[i].step == Poll || ms[i].step == Deliver || ms[i].step == TakeByte
  }

  /** Polls, deliveries and gets lead from one world to the other. */
  ghost predicate Leads(w: World, ms: seq<Move>, v: World) {
    Honest(ms) && EnabledRun(w, ms) && AfterRun(w, ms) == v
  }

  lemma LeadsNone(w: World)
    ensures Leads(w, [], w)
  {
  }

  lemma LeadsOne(w: World, m: Move)
    requires (m.step == Poll || m.step == Deliver || m.step == TakeByte) && Enabled(View(w, m), m.step)
    ensures Leads(w, [m], After(w, m))
  {
    hide Enabled, Next;
    assert [m][1..] == [];
    LeadsNone(After(w, m));
  }

  lemma {:induction false} LeadsOn(w: World, a: seq<Move>, v: World, b: seq<Move>, u: World)
    requires Leads(w, a, v) && Leads(v, b, u)
    ensures Leads(w, a + b, u)
    decreases |a|
  {
    hide Enabled, Next;
    if a == [] {
      assert a + b == b;
    } else {
      assert (a + b)[0] == a[0] && (a + b)[1..] == a[1..] + b;
      assert Honest(a[1..]);
      LeadsOn(After(w, a[0]), a[1..], v, b, u);
    }
  }

  lemma LeadsKeeps(w: World, ms: seq<Move>, v: World)
    requires Inv(w) && Leads(w, ms, v)
    ensures Inv(v)
  {
    RunKeeps(w, ms);
  }

  function Flip(ms: seq<Move>): (f: seq<Move>)
    ensures |f| == |ms| && forall i :: 0 <= i < |f| ==> f[i] == Move(!ms[i].ofA, ms[i].step)
  {
    seq(|ms|, i requires 0 <= i < |ms| => Move(!ms[i].ofA, ms[i].step))
  }

  /** The link is the same seen from either side. */
  lemma {:induction false} LeadsMirrored(w: World, ms: seq<Move>, v: World)
    requires Leads(w, ms, v)
    ensures Leads(Mirror(w), Flip(ms), Mirror(v))
    decreases |ms|
  {
    hide Enabled, Next;
    if ms == [] {
      assert Flip(ms) == [];
    } else {
      assert Honest(ms[1..]);
      LeadsMirrored(After(w, ms[0]), ms[1..], v);
      assert Flip(ms)[1..] == Flip(ms[1..]);
      MirrorTwice(w);
      MirrorTwice(Next(View(w, ms[0]), ms[0].step));
      assert After(Mirror(w), Flip(ms)[0]) == Mirror(After(w, ms[0]));
    }
  }

  lemma MirrorTwice(w: World)
    ensures Mirror(Mirror(w)) == w
  {
  }

  // ---- reading and draining ----

  /** Endpoint a reads its receive ring empty. */
  lemma {:induction false} ReadAll(w: World) returns (ms: seq<Move>, v: World)
    ensures Leads(w, ms, v) && v == w.(a := w.a.(rxbuf := [], got := w.a.got + w.a.rxbuf))
    decreases |w.a.rxbuf|
  {
    if w.a.rxbuf == [] {
      ms, v := [], w;
      assert w.a.got + w.a.rxbuf == w.a.got;
    } else {
      var m := Move(true, TakeByte);
      LeadsOne(w, m);
      GetIs(w.a);
      var rest;
      rest, v := ReadAll(After(w, m));
      assert w.a.got + [w.a.rxbuf[0]] + w.a.rxbuf[1..] == w.a.got + w.a.rxbuf;
      LeadsOn(w, [m], After(w, m), rest, v);
      ms := [m] + rest;
    }
  }

  /** How many deliveries a channel can still cause: data packets are answered, acknowledgements are not. */
  function Load(ch: seq<Packet>): nat {
    if ch == [] then 0 else (if IsData(ch[0]) then 2 else 1) + Load(ch[1..])
  }

  lemma {:induction false} LoadSnoc(ch: seq<Packet>, p: Packet)
    ensures Load(ch + [p]) == Load(ch) + if IsData(p) then 2 else 1
    decreases |ch|
  {
    if ch == [] {
      assert [] + [p] == [p] && [p][1..] == [];
    } else {
      assert (ch + [p])[1..] == ch[1..] + [p];
      LoadSnoc(ch[1..], p);
    }
  }

  /** Neither side has accepted anything more or taken a byte from its transmit ring, and who had
      nothing outstanding still has not. */
  predicate SameTask(w: World, v: World) {
    && v.a.max == w.a.max && v.a.accepted == w.a.accepted && v.a.txbuf == w.a.txbuf
    && v.b.max == w.b.max && v.b.accepted == w.b.accepted && v.b.txbuf == w.b.txbuf
    && (w.a.tx.timeout == 0 ==> v.a.tx.timeout == 0)
    && (w.b.tx.timeout == 0 ==> v.b.tx.timeout == 0)
  }

  predicate Sizes(w: World) {
    w.a.max <= CAPACITY && w.b.max <= CAPACITY
  }

  /** With its receive ring empty endpoint a can take any packet. */
  lemma CanDeliver(w: World)
    requires Inv(w) && Sizes(w) && w.ba != [] && w.a.rxbuf == []
    ensures Enabled(w, Deliver)
  {
    var p := w.ba[0];
    assert p in w.ba;
    if IsData(p) && p.seqno == Low(w.a.rxseq + 1) { SequenceTestsAgree(Mirror(w), p); }
  }

  /** The first packet on the way to endpoint a is delivered. */
  lemma DrainOne(w: World) returns (ms: seq<Move>, v: World)
    requires Inv(w) && Sizes(w) && w.ba != []
    ensures Leads(w, ms, v) && Inv(v) && SameTask(w, v)
    ensures Load(v.ab) + Load(v.ba) < Load(w.ab) + Load(w.ba)
  {
    hide Direction, Next, Enabled, Load;
    var read, u := ReadAll(w);
    LeadsKeeps(w, read, u);
    CanDeliver(u);
    var m := Move(true, Deliver);
    LeadsOne(u, m);
    v := After(u, m);
    StepKeeps(u, Deliver);
    ms := read + [m];
    LeadsOn(w, read, u, [m], v);
    LoadHead(w.ba);
    if IsData(w.ba[0]) {
      DataIsAcknowledged(u);
      LoadSnoc(w.ab, Packet(w.ba[0].seqno, []));
    } else {
      AckClears(u);
    }
  }

  lemma LoadHead(ch: seq<Packet>)
    requires ch != []
    ensures Load(ch) == Load(ch[1..]) + if IsData(ch[0]) then 2 else 1
  {
  }

  /** Everything on the way is delivered. */
  lemma {:induction false} Drain(w: World) returns (ms: seq<Move>, v: World)
    requires Inv(w) && Sizes(w)
    ensures Leads(w, ms, v) && Inv(v) && SameTask(w, v) && v.ab == [] && v.ba == []
    decreases Load(w.ab) + Load(w.ba)
  {
    hide Inv, Leads;
    if w.ab == [] && w.ba == [] {
      LeadsNone(w);
      ms, v := [], w;
    } else {
      var first, u;
      if w.ba != [] {
        first, u := DrainOne(w);
      } else {
        InvMirrored(w);
        var back, z := DrainOne(Mirror(w));
        LeadsMirrored(Mirror(w), back, z);
        MirrorTwice(w);
        InvMirrored(z);
        first, u := Flip(back), Mirror(z);
      }
      var rest;
      rest, v := Drain(u);
      LeadsOn(w, first, u, rest, v);
      ms := first + rest;
    }
  }

  lemma InvMirrored(w: World)
    requires Inv(w)
    ensures Inv(Mirror(w))
  {
  }

  // ---- sending ----

  /** Endpoint a polls as often as the timeout says; then it repeats the outstanding packet. */
  lemma {:induction false} PollUntilResent(w: World) returns (ms: seq<Move>, v: World)
    requires w.a.tx.timeout > 0
    ensures Leads(w, ms, v) && |ms| == w.a.tx.timeout
    ensures forall i :: 0 <= i < |ms| ==> ms[i] == Move(true, Poll)
    ensures v == w.(a := w.a.(tx := w.a.tx.(timeout := RESEND_AFTER)), ab := w.ab + [Packet(w.a.tx.cseq, w.a.tx.data)])
    decreases w.a.tx.timeout
  {
    var m := Move(true, Poll);
    LeadsOne(w, m);
    if w.a.tx.timeout == 1 {
      ms, v := [m], After(w, m);
    } else {
      var rest;
      rest, v := PollUntilResent(After(w, m));
      LeadsOn(w, [m], After(w, m), rest, v);
      ms := [m] + rest;
    }
  }

  /** The packet being sent is the only one on the way. */
  predicate InTheAir(w: World) {
    && |w.a.packets| > 0 && w.a.tx.timeout > 0
    && w.ab == [Nth(w.a, |w.a.packets|)] && w.ba == []
  }

  /** It is taken over, or known already; either way it is acknowledged, and the next one can go. */
  lemma SendAndAck(w: World) returns (ms: seq<Move>, v: World)
    requires Inv(w) && Sizes(w) && InTheAir(w)
    ensures Leads(w, ms, v) && Inv(v) && SameTask(w, v) && v.ab == [] && v.ba == [] && v.a.tx.timeout == 0
  {
    hide Direction, Leads, Enabled, Next;
    var p := Nth(w.a, |w.a.packets|);
    IsDataPacket(w);
    InvMirrored(w);
    var read, u := ReadAll(Mirror(w));
    LeadsMirrored(Mirror(w), read, u);
    LeadsKeeps(Mirror(w), read, u);
    MirrorTwice(w);
    CanDeliver(u);
    DataIsAcknowledged(u);
    var m1, m2 := Move(false, Deliver), Move(true, Deliver);
    MirrorTwice(u);
    LeadsOne(Mirror(u), m1);
    StepKeeps(u, Deliver);
    var x := Mirror(Next(u, Deliver));
    InvMirrored(Next(u, Deliver));
    assert x.ba == [Packet(p.seqno, [])] && x.ab == [];
    AckIsDeliverable(x);
    AckClears(x);
    LeadsOne(x, m2);
    v := Next(x, Deliver);
    StepKeeps(x, Deliver);
    LeadsOn(w, Flip(read), Mirror(u), [m1], x);
    LeadsOn(w, Flip(read) + [m1], x, [m2], v);
    ms := Flip(read) + [m1] + [m2];
  }

  lemma IsDataPacket(w: World)
    requires Inv(w) && |w.a.packets| > 0
    ensures IsData(Nth(w.a, |w.a.packets|))
  {
  }

  lemma AckIsDeliverable(w: World)
    requires w.ba != [] && !IsData(w.ba[0])
    ensures Enabled(w, Deliver)
  {
  }

  /** With nothing on the way endpoint a sends whatever it still has, packet by packet. */
  lemma {:induction false} SendRest(w: World) returns (ms: seq<Move>, v: World)
    requires Inv(w) && Sizes(w) && w.ab == [] && w.ba == []
    ensures Leads(w, ms, v) && Inv(v) && Sizes(v) && v.ab == [] && v.ba == []
    ensures v.a.accepted == w.a.accepted && v.b.accepted == w.b.accepted && v.b.txbuf == w.b.txbuf
    ensures w.b.tx.timeout == 0 ==> v.b.tx.timeout == 0
    ensures v.a.tx.timeout == 0 && v.a.txbuf == []
    decreases |w.a.txbuf|, w.a.tx.timeout
  {
    hide Inv, Leads, Enabled, Next, InTheAir;
    if w.a.tx.timeout == 0 && w.a.txbuf == [] {
      LeadsNone(w);
      ms, v := [], w;
    } else {
      var first, u;
      if w.a.tx.timeout > 0 {
        first, u := PollUntilResent(w);
        LeadsKeeps(w, first, u);
        ResentInTheAir(w, u);
      } else {
        var m := Move(true, Poll);
        LeadsOne(w, m) by { PollIsEnabled(w); }
        StepKeeps(w, Poll) by { PollIsEnabled(w); }
        BuiltInTheAir(w);
        first, u := [m], Next(w, Poll);
      }
      var second, x := SendAndAck(u);
      LeadsOn(w, first, u, second, x);
      var rest;
      rest, v := SendRest(x);
      LeadsOn(w, first + second, x, rest, v);
      ms := first + second + rest;
    }
  }

  lemma PollIsEnabled(w: World)
    ensures Enabled(w, Poll)
  {
  }

  lemma ResentInTheAir(w: World, u: World)
    requires Inv(w) && w.a.tx.timeout > 0 && w.ab == [] && w.ba == []
    requires u == w.(a := w.a.(tx := w.a.tx.(timeout := RESEND_AFTER)), ab := w.ab + [Packet(w.a.tx.cseq, w.a.tx.data)])
    ensures InTheAir(u)
  {
  }

  lemma BuiltInTheAir(w: World)
    requires Inv(w) && w.a.tx.timeout == 0 && w.a.txbuf != [] && w.ab == [] && w.ba == []
    ensures Enabled(w, Poll) && var u := Next(w, Poll);
      && InTheAir(u) && |u.a.txbuf| < |w.a.txbuf|
      && u.a.max == w.a.max && u.a.accepted == w.a.accepted && u.b == w.b
  {
    BuildSender(w.a);
  }

  // ---- the theorem ----

  /** Endpoint a has sent everything and been acknowledged. */
  lemma NothingLeft(w: World)
    requires Inv(w) && w.a.tx.timeout == 0 && w.a.txbuf == []
    ensures w.b.taken == w.a.accepted
    ensures w.b.rxbuf == [] ==> w.b.got == w.a.accepted
  {
    assert w.a.packets[..|w.a.packets|] == w.a.packets;
  }

  lemma EverythingRead(w: World)
    requires Inv(w) && w.a.tx.timeout == 0 && w.a.txbuf == [] && w.b.tx.timeout == 0 && w.b.txbuf == []
    requires w.a.rxbuf == [] && w.b.rxbuf == []
    ensures w.b.got == w.a.accepted && w.a.got == w.b.accepted
  {
    hide Direction;
    InvMirrored(w);
    NothingLeft(w);
    NothingLeft(Mirror(w));
  }

  /** From every state the two endpoints can be in, whatever has been lost before: there is a run of
      polls, deliveries and gets after which each side has handed out all the other has accepted. */
  lemma EverythingArrives(w: World) returns (ms: seq<Move>)
    requires Inv(w) && Sizes(w)
    ensures Honest(ms) && EnabledRun(w, ms)
    ensures var v := AfterRun(w, ms);
      v.b.got == v.a.accepted == w.a.accepted && v.a.got == v.b.accepted == w.b.accepted
  {
    hide Inv, Enabled, Next;
    var r1, w1 := Drain(w);
    var r2, w2 := SendRest(w1);
    LeadsOn(w, r1, w1, r2, w2);
    InvMirrored(w2);
    var back, z := SendRest(Mirror(w2));
    MirrorTwice(w2);
    LeadsMirrored(Mirror(w2), back, z);
    var w3 := Mirror(z);
    InvMirrored(z);
    LeadsOn(w, r1 + r2, w2, Flip(back), w3);
    var r4, w4 := ReadAll(w3);
    LeadsOn(w, r1 + r2 + Flip(back), w3, r4, w4);
    var read, y := ReadAll(Mirror(w4));
    MirrorTwice(w4);
    LeadsMirrored(Mirror(w4), read, y);
    LeadsOn(w, r1 + r2 + Flip(back) + r4, w4, Flip(read), Mirror(y));
    ms := r1 + r2 + Flip(back) + r4 + Flip(read);
    LeadsKeeps(w, ms, Mirror(y));
    EverythingRead(Mirror(y));
  }
}
