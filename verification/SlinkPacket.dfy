/** Packets on the air: the packed structure, optional encryption in place, and what the other side
    reads back. */
module SlinkPacket {
  import opened Wrappers
  import opened Bytes
  import opened SlinkProtocol

  // struct apkt starts with len, seq and 64 data bytes; encryption works on these 66 bytes.
  const RAW: nat := 66
  const BLOCK: nat := 16
  const MAX_PLEN: nat := 63

  // CC1101_MAX_PAYLOAD without and with RADIO_CRYPT.
  const MAX_PLAIN: nat := 60
  const MAX_CRYPT: nat := 46

  /** AES with the shared key, as a pair of functions on 16-byte blocks. */
  datatype Cipher = Cipher(enc: seq<Byte> -> seq<Byte>, dec: seq<Byte> -> seq<Byte>)

  ghost predicate CipherOk(c: Cipher) {
    forall b: seq<Byte> :: |b| == BLOCK ==>
      |c.enc(b)| == BLOCK && |c.dec(b)| == BLOCK && c.dec(c.enc(b)) == b
  }

  ghost predicate KeepsSize(f: seq<Byte> -> seq<Byte>) {
    forall b: seq<Byte> :: |b| == BLOCK ==> |f(b)| == BLOCK
  }

  /** Each 16-byte block replaced by its image. */
  ghost function Blockwise(f: seq<Byte> -> seq<Byte>, s: seq<Byte>): (r: seq<Byte>)
    requires KeepsSize(f) && |s| % BLOCK == 0
    ensures |r| == |s|
  {
    if s == [] then [] else f(s[..BLOCK]) + Blockwise(f, s[BLOCK..])
  }

  lemma {:induction false} BlockwiseSnoc(f: seq<Byte> -> seq<Byte>, s: seq<Byte>, b: seq<Byte>)
    requires KeepsSize(f) && |s| % BLOCK == 0 && |b| == BLOCK
    ensures Blockwise(f, s + b) == Blockwise(f, s) + f(b)
  {
    if s == [] {
      assert s + b == b && b[..BLOCK] == b && b[BLOCK..] == [];
    } else {
      assert (s + b)[..BLOCK] == s[..BLOCK] && (s + b)[BLOCK..] == s[BLOCK..] + b;
      BlockwiseSnoc(f, s[BLOCK..], b);
    }
  }

  lemma CipherFits(c: Cipher)
    requires CipherOk(c)
    ensures KeepsSize(c.enc) && KeepsSize(c.dec)
  {
  }

  lemma BlockInverse(c: Cipher, b: seq<Byte>)
    requires CipherOk(c) && |b| == BLOCK
    ensures |c.enc(b)| == BLOCK && c.dec(c.enc(b)) == b
  {
  }

  lemma {:induction false} BlockwiseInverse(c: Cipher, s: seq<Byte>)
    requires CipherOk(c) && |s| % BLOCK == 0
    ensures KeepsSize(c.enc) && KeepsSize(c.dec)
    ensures Blockwise(c.dec, Blockwise(c.enc, s)) == s
  {
    CipherFits(c);
    hide CipherOk, KeepsSize;
    if s == [] {
    } else {
      var b, rest := s[..BLOCK], s[BLOCK..];
      BlockInverse(c, b);
      BlockwiseInverse(c, rest);
      var e, es := c.enc(b), Blockwise(c.enc, rest);
      assert (e + es)[..BLOCK] == e && (e + es)[BLOCK..] == es;
      assert b + rest == s;
    }
  }

  /** Smallest multiple of 16 that is at least `n`: where a loop in steps of 16 ends. */
  function RoundUp(n: nat): (k: nat)
    ensures k % BLOCK == 0 && n <= k < n + BLOCK
  {
    (n + 15) / 16 * 16
  }

  /** The first `n` bytes replaced blockwise. */
  ghost function Crypted(f: seq<Byte> -> seq<Byte>, raw: seq<Byte>, n: nat): (r: seq<Byte>)
    requires KeepsSize(f) && n % BLOCK == 0 && n <= |raw|
    ensures |r| == |raw|
  {
    Blockwise(f, raw[..n]) + raw[n..]
  }

  lemma CryptedStep(f: seq<Byte> -> seq<Byte>, raw: seq<Byte>, n: nat)
    requires KeepsSize(f) && n % BLOCK == 0 && n + BLOCK <= |raw|
    ensures Crypted(f, raw, n)[n..n + BLOCK] == raw[n..n + BLOCK]
    ensures Crypted(f, raw, n + BLOCK) ==
      Crypted(f, raw, n)[..n] + f(raw[n..n + BLOCK]) + Crypted(f, raw, n)[n + BLOCK..]
  {
    assert raw[..n + BLOCK] == raw[..n] + raw[n..n + BLOCK];
    BlockwiseSnoc(f, raw[..n], raw[n..n + BLOCK]);
  }

  lemma NothingCrypted(f: seq<Byte> -> seq<Byte>, raw: seq<Byte>)
    requires KeepsSize(f)
    ensures Crypted(f, raw, 0) == raw
  {
    assert raw[..0] == [] && raw[0..] == raw;
  }

  // ---- what is sent and what is read back ----

  /** The bytes sent for a packet whose structure is `raw`: the sequence number and the data, or
      encrypted blocks that cover the length, the sequence number and the data. */
  ghost function OnAir(raw: seq<Byte>, key: Option<Cipher>): seq<Byte>
    requires |raw| == RAW && raw[0] <= MAX_PLAIN && (key.Some? ==> CipherOk(key.value))
  {
    match key
    case None => raw[1..raw[0] + 2]
    case Some(c) =>
      var n := RoundUp(raw[0] + 2);
      BlockwiseInverse(c, raw[..n]);
      Blockwise(c.enc, raw[..n])
  }

  lemma CryptedWindow(raw: seq<Byte>, c: Cipher)
    requires |raw| == RAW && raw[0] <= MAX_PLAIN && CipherOk(c)
    ensures var n := RoundUp(raw[0] + 2);
      && n <= RAW && KeepsSize(c.enc)
      && Crypted(c.enc, raw, n)[0..0 + n] == OnAir(raw, Some(c))
  {
    CipherFits(c);
    hide CipherOk, KeepsSize, Blockwise;
    var n := RoundUp(raw[0] + 2);
    assert Crypted(c.enc, raw, n)[..n] == Blockwise(c.enc, raw[..n]);
  }

  /** The structure slink_recv fills from a frame; None for a length it rejects. */
  ghost function Filled(frame: seq<Byte>, key: Option<Cipher>): (r: Option<seq<Byte>>)
    requires key.Some? ==> CipherOk(key.value)
    ensures r.Some? ==> |r.value| == RAW
  {
    if |frame| == 0 || |frame| > MAX_PLEN then None
    else
      match key
      case None => Some([|frame| - 1] + frame + Zeros(RAW - 1 - |frame|))
      case Some(c) => Some(Crypted(c.dec, frame + Zeros(RAW - |frame|), RoundUp(|frame|)))
  }

  /** A frame is rejected for its length alone. */
  lemma RejectedIff(frame: seq<Byte>, key: Option<Cipher>)
    requires key.Some? ==> CipherOk(key.value)
    ensures Filled(frame, key) == None <==> |frame| == 0 || |frame| > 63
  {
  }

  /** The packet the link layer sees: sequence number and the first `len` data bytes. */
  ghost function Decode(frame: seq<Byte>, key: Option<Cipher>): Option<Packet>
    requires key.Some? ==> CipherOk(key.value)
  {
    match Filled(frame, key)
    case None => None
    case Some(raw) =>
      if raw[0] + 2 <= RAW then Some(Packet(raw[1], raw[2..raw[0] + 2])) else None
  }

  function MaxPayload(key: Option<Cipher>): nat {
    if key.Some? then MAX_CRYPT else MAX_PLAIN
  }

  /** Packet round trip: a packet within the payload limit takes at most 63 bytes on the air, and the
      other side reads the same length, sequence number and data, plain or encrypted. */
  lemma RoundTrip(raw: seq<Byte>, key: Option<Cipher>)
    requires |raw| == RAW && raw[0] <= MaxPayload(key) && (key.Some? ==> CipherOk(key.value))
    ensures 1 <= |OnAir(raw, key)| <= MAX_PLEN
    ensures Filled(OnAir(raw, key), key).Some?
    ensures var raw' := Filled(OnAir(raw, key), key).value;
      raw'[..raw[0] + 2] == raw[..raw[0] + 2]
    ensures Decode(OnAir(raw, key), key) == Some(Packet(raw[1], raw[2..raw[0] + 2]))
  {
    hide CipherOk, Blockwise, Crypted;
    match key
    case None => PlainTrip(raw);
    case Some(c) => CryptTrip(raw, c);
    SamePrefix(raw, Filled(OnAir(raw, key), key).value);
  }

  /** What is on the air: the sequence number and the data; or, encrypted, whole blocks of the length,
      the sequence number, the data and what the structure holds behind them. */
  lemma WireFormat(raw: seq<Byte>, key: Option<Cipher>)
    requires |raw| == RAW && raw[0] <= MaxPayload(key) && (key.Some? ==> CipherOk(key.value))
    ensures key.None? ==> OnAir(raw, key) == [raw[1]] + raw[2..raw[0] + 2]
    ensures key.Some? ==>
      var frame := OnAir(raw, key);
      && |frame| % BLOCK == 0 && raw[0] + 2 <= |frame| < raw[0] + 2 + BLOCK
      && KeepsSize(key.value.dec) && Blockwise(key.value.dec, frame) == raw[..|frame|]
  {
    match key
    case None =>
    case Some(c) => BlockwiseInverse(c, raw[..RoundUp(raw[0] + 2)]);
  }

  lemma PlainTrip(raw: seq<Byte>)
    requires |raw| == RAW && raw[0] <= MAX_PLAIN
    ensures var frame := OnAir(raw, None);
      && 1 <= |frame| <= MAX_PLEN && Filled(frame, None).Some?
      && Filled(frame, None).value[..raw[0] + 2] == raw[..raw[0] + 2]
  {
  }

  lemma CryptTrip(raw: seq<Byte>, c: Cipher)
    requires |raw| == RAW && raw[0] <= MAX_CRYPT && CipherOk(c)
    ensures var frame := OnAir(raw, Some(c));
      && 1 <= |frame| <= MAX_PLEN && Filled(frame, Some(c)).Some?
      && Filled(frame, Some(c)).value[..raw[0] + 2] == raw[..raw[0] + 2]
  {
    hide CipherOk, Blockwise;
    var k := raw[0] + 2;
    var n := RoundUp(k);
    BlockwiseInverse(c, raw[..n]);
    var frame := OnAir(raw, Some(c));
    assert |frame| == n <= 48 && RoundUp(n) == n;
    var padded := frame + Zeros(RAW - n);
    assert padded[..n] == frame;
    var raw' := Filled(frame, Some(c)).value;
    assert raw'[..n] == raw[..n];
    assert raw'[..k] == raw'[..n][..k] && raw[..k] == raw[..n][..k];
  }

  lemma SamePrefix(raw: seq<Byte>, raw': seq<Byte>)
    requires |raw| == RAW == |raw'| && raw[0] <= MAX_PLAIN
    requires raw'[..raw[0] + 2] == raw[..raw[0] + 2]
    ensures raw'[0] == raw[0] && raw'[1] == raw[1] && raw'[2..raw[0] + 2] == raw[2..raw[0] + 2]
  {
    var k := raw[0] + 2;
    assert raw'[..k][0] == raw[..k][0] && raw'[..k][1] == raw[..k][1];
    assert raw'[2..k] == raw'[..k][2..] && raw[2..k] == raw[..k][2..];
  }

  /** struct apkt. */
  class Apkt {
    const raw: array<Byte>
    var plen: nat
    var timeout: nat
    var start: nat
    var cseq: Byte

    ghost predicate Valid()
      reads this
    {
      raw.Length == RAW && start <= 1 && start + plen <= RAW
    }

    /** The bytes slink_send takes from the structure as it is. */
    ghost function Window(): seq<Byte>
      requires Valid()
      reads this, raw
    {
      raw[..][start..start + plen]
    }

    constructor ()
      ensures Valid() && fresh(raw) && plen == 0 && timeout == 0 && start == 0 && cseq == 0
      ensures raw[..] == Zeros(RAW)
    {
      raw := new Byte[RAW](_ => 0);
      plen, timeout, start, cseq := 0, 0, 0, 0;
      new;
      assert raw[..] == Zeros(RAW);
    }

    /** One block, in place. */
    method CryptOne(f: seq<Byte> -> seq<Byte>, i: nat)
      requires raw.Length == RAW && i + BLOCK <= RAW && KeepsSize(f)
      modifies raw
      ensures raw[..] == old(raw[..i]) + f(old(raw[i..i + BLOCK])) + old(raw[i + BLOCK..])
    {
      ghost var before := raw[..];
      var out := f(raw[i..i + BLOCK]);
      var j := 0;
      while j < BLOCK
        invariant 0 <= j <= BLOCK
        invariant forall k :: 0 <= k < RAW ==> raw[k] == if i <= k < i + j then out[k - i] else before[k]
      {
        raw[i + j] := out[j];
        j := j + 1;
      }
    }

    /** Runs the block cipher over the first `n` bytes in steps of 16; returns where it stopped. */
    method CryptBlocks(f: seq<Byte> -> seq<Byte>, n: nat) returns (done: nat)
      requires raw.Length == RAW && n <= MAX_PLEN && KeepsSize(f)
      modifies raw
      ensures done == RoundUp(n) <= RAW && raw[..] == Crypted(f, old(raw[..]), done)
    {
      hide KeepsSize, Crypted;
      ghost var was := raw[..];
      done := 0;
      NothingCrypted(f, was);
      while done < n
        invariant done % BLOCK == 0 && done <= RoundUp(n) <= 64
        invariant raw[..] == Crypted(f, was, done)
        decreases n - done
      {
        CryptedStep(f, was, done);
        ghost var before := raw[..];
        assert raw[done..done + BLOCK] == before[done..done + BLOCK];
        assert raw[..done] == before[..done] && raw[done + BLOCK..] == before[done + BLOCK..];
        CryptOne(f, done);
        done := done + BLOCK;
      }
    }

    /** The payload, clocked out byte by byte. */
    method ClockOut() returns (out: seq<Byte>)
      requires Valid()
      ensures out == Window()
    {
      out := [];
      var i := 0;
      while i < plen
        invariant 0 <= i <= plen && out == raw[..][start..start + i]
      {
        out := out + [raw[start + i]];
        i := i + 1;
      }
    }

    /** slink_send: encrypts on the first transmission only, so a repeated transmission sends the
        same bytes.  A packet that is too long is not sent. */
    method Send(key: Option<Cipher>) returns (frame: Option<seq<Byte>>)
      requires Valid() && (key.Some? ==> CipherOk(key.value)) && (start == 1 ==> raw[0] <= MAX_PLAIN)
      modifies this`plen, this`start, raw
      ensures Valid()
      ensures old(plen) > MAX_PLEN ==>
        && frame == None && plen == old(plen) && start == old(start) && raw[..] == old(raw[..])
      ensures old(plen) <= MAX_PLEN ==> frame == Some(Window())
      ensures old(plen) <= MAX_PLEN && (key.None? || old(start) == 0) ==>
        plen == old(plen) && start == old(start) && raw[..] == old(raw[..])
      ensures old(plen) <= MAX_PLEN && key.Some? && old(start) == 1 ==>
        start == 0 && plen == RoundUp(old(raw[0]) + 2) && Window() == OnAir(old(raw[..]), key)
    {
      hide OnAir;
      if plen > MAX_PLEN {
        return None;
      }
      if key.Some? && start != 0 {
        EncryptInPlace(key.value);
      }
      var out := ClockOut();
      frame := Some(out);
    }

    /** slink_send for a packet that has not been sent yet: the frame carries the packet, and the
        structure is left as it will be sent again. */
    method SendNew(key: Option<Cipher>) returns (frame: Option<seq<Byte>>)
      requires Valid() && (key.Some? ==> CipherOk(key.value))
      requires start == 1 && raw[0] <= MaxPayload(key) && plen == raw[0] + 1
      modifies this`plen, this`start, raw
      ensures Valid() && frame == Some(Window())
      ensures 1 <= plen <= MAX_PLEN && (key.None? || start == 0) && (start == 1 ==> raw[0] <= MAX_PLAIN)
      ensures Decode(Window(), key) == Some(Packet(old(raw[1]), old(raw[2..raw[0] + 2])))
    {
      hide CipherOk, Decode;
      ghost var was := raw[..];
      RoundTrip(was, key);
      assert was[2..was[0] + 2] == raw[2..raw[0] + 2];
      frame := Send(key);
      assert Window() == OnAir(was, key);
    }

    method EncryptInPlace(c: Cipher)
      requires raw.Length == RAW && CipherOk(c) && raw[0] <= MAX_PLAIN
      modifies this`plen, this`start, raw
      ensures Valid() && start == 0 && plen == RoundUp(old(raw[0]) + 2)
      ensures Window() == OnAir(old(raw[..]), Some(c))
    {
      hide Blockwise, CipherOk, KeepsSize, OnAir;
      CipherFits(c);
      var l := raw[0] + 2;
      ghost var was := raw[..];
      CryptedWindow(was, c);
      plen := CryptBlocks(c.enc, l);
      start := 0;
    }

    /** slink_recv for a frame that has arrived intact; false for a length it rejects. */
    method Recv(frame: seq<Byte>, key: Option<Cipher>) returns (ok: bool)
      requires raw.Length == RAW && (key.Some? ==> CipherOk(key.value))
      modifies this, raw
      ensures ok <==> Filled(frame, key).Some?
      ensures ok ==> Valid() && start == 1 && plen == |frame| && raw[..] == Filled(frame, key).value
    {
      hide CipherOk, KeepsSize, Blockwise, Crypted;
      Clear();
      plen, timeout, start, cseq := 0, 0, 0, 0;
      if |frame| == 0 || |frame| > MAX_PLEN {
        return false;
      }
      plen := |frame|;
      start := 1;
      raw[0] := plen - 1;
      if key.Some? {
        start := 0;
      }
      ReadPayload(frame);
      if key.Some? {
        CipherFits(key.value);
        assert raw[..] == frame + Zeros(RAW - |frame|);
        var _ := CryptBlocks(key.value.dec, plen);
        start := 1;
      } else {
        assert raw[..] == [|frame| - 1] + frame + Zeros(RAW - 1 - |frame|);
      }
      ok := true;
    }

    method Clear()
      requires raw.Length == RAW
      modifies raw
      ensures forall j :: 0 <= j < RAW ==> raw[j] == 0
    {
      var i := 0;
      while i < RAW
        invariant 0 <= i <= RAW && forall j :: 0 <= j < i ==> raw[j] == 0
      {
        raw[i] := 0;
        i := i + 1;
      }
    }

    /** Reads the payload from the receive FIFO. */
    method ReadPayload(frame: seq<Byte>)
      requires Valid() && plen == |frame|
      modifies raw
      ensures forall j :: 0 <= j < RAW ==>
        raw[j] == if start <= j < start + plen then frame[j - start] else old(raw[j])
    {
      var i := 0;
      while i < plen
        invariant 0 <= i <= plen
        invariant forall j :: 0 <= j < RAW ==>
          raw[j] == if start <= j < start + i then frame[j - start] else old(raw[j])
      {
        raw[start + i] := frame[i];
        i := i + 1;
      }
    }
  }
}
