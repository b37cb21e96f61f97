/** RTP packets of pep/ipmx_pep.py (section 20 of VSF TR-10-13) and a receiver behind a lossy link. */
module Rtp {
  import opened Outcome
  import opened Octets
  import opened Pep
  import opened Keystream
  import opened Usb

  const W24: nat := 0x100_0000
  const W32: nat := 0x1_0000_0000

  // ---------------------------------------------------------------------------
  // Extension headers
  // ---------------------------------------------------------------------------

  function IdOctet(extId: nat, length: nat): Byte
    requires length < 16
  {
    (extId % 16) * 16 + length
  }

  function FullPreamble(extId: nat): (s: Bytes)
    ensures |s| == 8
  {
    Big(0xBEDE, 2) + Big(4, 2) + [IdOctet(extId, 14), 0] + Big(0, 2)
  }

  /** Table 3 of TR-10-13; `struct.pack` refuses a key version beyond 32 bits. */
  function BuildFull(extId: nat, ctr: nat, version: nat): Result<Bytes> {
    if version >= W32 then Raised
    else Ok(FullPreamble(extId) + Big(version, 4)
            + Big(ctr / 0x1_0000_0000 % 0x1_0000_0000, 4) + Big(ctr % 0x1_0000_0000, 4))
  }

  function ParseFull(data: Bytes): Result<(nat, nat, nat)> {
    if |data| < 20 then Raised
    else Ok((FromBig(data[8..12]), FromBig(data[12..16]), FromBig(data[16..20])))
  }

  function RecoverFull(high: nat, low: nat): nat {
    high * 0x1_0000_0000 + low
  }

  /** Table 4 of TR-10-13. */
  function BuildShort(extId: nat, ctr: nat): Bytes {
    Big(0xBEDE, 2) + Big(1, 2) + [IdOctet(extId, 2)] + Big(ctr % 0x100_0000, 3)
  }

  /** The three counter octets of a Short header. */
  function ShortField(data: Bytes): nat
    requires |data| >= 8
  {
    FromBig(data[5..8])
  }

  function RecoverShort(prev: nat, field: nat): nat {
    var upper := prev / 0x100_0000;
    var new24 := field % 0x100_0000;
    if prev % 0x100_0000 < new24 then upper * 0x100_0000 + new24 else (upper + 1) * 0x100_0000 + new24
  }

  lemma SliceParts(head: Bytes, a: Bytes, b: Bytes, c: Bytes)
    requires |head| == 8 && |a| == 4 && |b| == 4 && |c| == 4
    ensures var data := head + a + b + c;
            |data| == 20 && data[8..12] == a && data[12..16] == b && data[16..20] == c
  {
  }

  lemma ParseFourParts(head: Bytes, a: Bytes, b: Bytes, c: Bytes)
    requires |head| == 8 && |a| == 4 && |b| == 4 && |c| == 4
    ensures ParseFull(head + a + b + c) == Ok((FromBig(a), FromBig(b), FromBig(c)))
  {
    SliceParts(head, a, b, c);
  }

  lemma FullRoundTrip(extId: nat, ctr: U64, version: nat)
    requires version < W32
    ensures BuildFull(extId, ctr, version).Ok?
    ensures var data := BuildFull(extId, ctr, version).value;
            var fields := ParseFull(data);
            |data| == 20 && fields.Ok? && fields.value.0 == version && RecoverFull(fields.value.1, fields.value.2) == ctr
  {
    Powers();
    var high, low := ctr / 0x1_0000_0000 % 0x1_0000_0000, ctr % 0x1_0000_0000;
    ParseFourParts(FullPreamble(extId), Big(version, 4), Big(high, 4), Big(low, 4));
    FromBigOfBig(version, 4);
    FromBigOfBig(high, 4);
    FromBigOfBig(low, 4);
  }

  lemma ShortRoundTrip(extId: nat, ctr: nat)
    ensures |BuildShort(extId, ctr)| == 8 && ShortField(BuildShort(extId, ctr)) == ctr % W24
  {
    Powers();
    assert BuildShort(extId, ctr)[5..8] == Big(ctr % 0x100_0000, 3);
    FromBigOfBig(ctr % 0x100_0000, 3);
  }

  /** The one value in (prev, prev + 2^24] that agrees with the field modulo 2^24. */
  lemma RecoverShortUnique(prev: nat, field: nat, c: nat)
    ensures c == RecoverShort(prev, field) <==> prev < c <= prev + W24 && c % W24 == field % W24
  {
    var r := RecoverShort(prev, field);
    assert prev < r <= prev + 0x100_0000 && r % 0x100_0000 == field % 0x100_0000;
  }

  // ---------------------------------------------------------------------------
  // Payloads
  // ---------------------------------------------------------------------------

  function EncryptRtp(c: Crypto, payload: Bytes, iv: nat, ctr: nat, mode: PepMode, aad: Bytes): (Bytes, nat) {
    var body := if HasCmac(mode) then payload + Cmac64(c, payload, aad) else payload;
    PepEncryptSlices(c.aes, c.key, iv, ctr, body, SPEC)
  }

  function DecryptRtp(c: Crypto, enc: Bytes, iv: nat, ctr: nat, mode: PepMode, aad: Bytes): (Bytes, bool, nat) {
    var (plain, next) := PepEncryptSlices(c.aes, c.key, iv, ctr, enc, SPEC);
    if HasCmac(mode) then
      var cut := if |plain| < TAG then 0 else |plain| - TAG;
      (plain[..cut], Cmac64Verify(c, plain[..cut], plain[cut..], aad), next)
    else (plain, true, next)
  }

  lemma RtpRoundTrip(c: Crypto, payload: Bytes, iv: nat, ctr: nat, mode: PepMode, aad: Bytes)
    ensures var (enc, next) := EncryptRtp(c, payload, iv, ctr, mode, aad);
            DecryptRtp(c, enc, iv, ctr, mode, aad) == (payload, true, next)
  {
    hide PepEncrypt, Cmac64, Slices;
    var body := if HasCmac(mode) then payload + Cmac64(c, payload, aad) else payload;
    DecryptEncrypt(c.aes, c.key, iv, ctr, body, SPEC);
    if HasCmac(mode) {
      assert body[..|body| - TAG] == payload && body[|body| - TAG..] == Cmac64(c, payload, aad);
    }
  }

  // ---------------------------------------------------------------------------
  // A sender, a lossy link and a receiver
  // ---------------------------------------------------------------------------

  function AadFull(version: nat, high: nat, low: nat, isKv: bool): Bytes {
    Big(0, 4) + Big(if isKv then version else 0, 4) + Big(high, 4) + Big(low, 4)
  }

  function AadShort(field: nat): Bytes {
    Zeros(8) + Zeros(5) + Big(field % 0x100_0000, 3)
  }

  /** What both ends agreed on. */
  datatype Session = Session(crypto: Crypto, iv: U64, mode: PepMode, isKv: bool, extId: nat)

  /** What the sender is asked to send: under which header, with which key version, what payload. */
  datatype Frame = Frame(short: bool, version: nat, plain: Bytes)

  datatype Packet = Packet(short: bool, ext: Bytes, body: Bytes)

  datatype Reception = Reception(ctr: nat, plain: Bytes, macOk: bool)

  /** The AAD of a packet, read from its own header. */
  function PacketAad(s: Session, short: bool, ext: Bytes): Result<Bytes> {
    if !HasAad(s.mode) then Ok([])
    else if short then if |ext| < 8 then Raised else Ok(AadShort(ShortField(ext)))
    else
      var (version, high, low) :- ParseFull(ext);
      Ok(AadFull(version, high, low, s.isKv))
  }

  function BuildExtension(s: Session, f: Frame, ctr: nat): Result<Bytes> {
    if f.short then Ok(BuildShort(s.extId, ctr)) else BuildFull(s.extId, ctr, f.version)
  }

  /** A packet and the counter for the next one. */
  function Send(s: Session, f: Frame, ctr: nat): Result<(Packet, nat)> {
    var ext :- BuildExtension(s, f, ctr);
    var aad :- PacketAad(s, f.short, ext);
    var (body, next) := EncryptRtp(s.crypto, f.plain, s.iv, ctr, s.mode, aad);
    Ok((Packet(f.short, ext, body), next))
  }

  /** The counter recovered from a packet, given that of the packet received before it. */
  function RecoverCtr(prev: Option<nat>, short: bool, ext: Bytes): Result<nat> {
    if !short then
      var (version, high, low) :- ParseFull(ext);
      Ok(RecoverFull(high, low))
    else if prev.None? || |ext| < 8 then Raised
    else Ok(RecoverShort(prev.value, ShortField(ext)))
  }

  function Accept(s: Session, prev: Option<nat>, p: Packet): Result<Reception> {
    var ctr :- RecoverCtr(prev, p.short, p.ext);
    var aad :- PacketAad(s, p.short, p.ext);
    var (plain, ok, _) := DecryptRtp(s.crypto, p.body, s.iv, ctr, s.mode, aad);
    Ok(Reception(ctr, plain, ok))
  }

  /** Everything sent from counter `ctr`, in order, each packet with its counter. */
  function Transmit(s: Session, frames: seq<Frame>, ctr: nat): (r: Result<seq<(nat, Packet)>>)
    ensures r.Ok? ==> |r.value| == |frames|
    decreases frames
  {
    if frames == [] then Ok([])
    else
      var (p, next) :- Send(s, frames[0], ctr);
      var rest :- Transmit(s, frames[1..], next);
      Ok([(ctr, p)] + rest)
  }

  type Acceptor = (Option<nat>, Packet) -> Result<Reception>

  function Receiver(s: Session): Acceptor {
    (prev: Option<nat>, p: Packet) => Accept(s, prev, p)
  }

  /** The outcome of packet `j` of those received, each recovered from the one before. */
  function Receive(accept: Acceptor, packets: seq<Packet>, j: nat): Result<Reception>
    requires j < |packets|
  {
    if j == 0 then accept(None, packets[0])
    else
      var before :- Receive(accept, packets, j - 1);
      accept(Some(before.ctr), packets[j])
  }

  /** A Full header always gives the counter; a Short one exactly for a gap of 1 to 2^24. */
  lemma RecoverCtrExactly(s: Session, f: Frame, ctr: U64, prev: Option<nat>)
    requires BuildExtension(s, f, ctr).Ok?
    ensures RecoverCtr(prev, f.short, BuildExtension(s, f, ctr).value) == Ok(ctr) <==>
              !f.short || (prev.Some? && prev.value < ctr <= prev.value + W24)
  {
    hide BuildShort, ParseFull, RecoverFull, RecoverShort, ShortField, FullPreamble;
    if f.short {
      ShortRoundTrip(s.extId, ctr);
      if prev.Some? {
        RecoverShortUnique(prev.value, ctr % W24, ctr);
      }
    } else {
      FullRoundTrip(s.extId, ctr, f.version);
    }
  }

  lemma AcceptExactly(s: Session, f: Frame, ctr: U64, prev: Option<nat>)
    requires Send(s, f, ctr).Ok?
    ensures var p := Send(s, f, ctr).value.0;
            Accept(s, prev, p) == Ok(Reception(ctr, f.plain, true)) <==>
              !f.short || (prev.Some? && prev.value < ctr <= prev.value + W24)
  {
    RecoverCtrExactly(s, f, ctr, prev);
    var p := Send(s, f, ctr).value.0;
    var aad := PacketAad(s, p.short, p.ext).value;
    RtpRoundTrip(s.crypto, f.plain, s.iv, ctr, s.mode, aad);
  }

  lemma {:induction false} TransmitAt(s: Session, frames: seq<Frame>, ctr: nat, k: nat)
    requires Transmit(s, frames, ctr).Ok? && k < |frames|
    ensures var sent := Transmit(s, frames, ctr).value;
            && |sent| == |frames|
            && Send(s, frames[k], sent[k].0).Ok? && sent[k].1 == Send(s, frames[k], sent[k].0).value.0
    decreases frames
  {
    var (p, next) := Send(s, frames[0], ctr).value;
    var rest := Transmit(s, frames[1..], next).value;
    if |frames| > 1 {
      TransmitAt(s, frames[1..], next, if k > 0 then k - 1 else 0);
    }
  }

  /** The packets that arrive: a subsequence of those sent. */
  ghost predicate Arrives(picks: seq<nat>, n: nat) {
    && (forall j | 0 <= j < |picks| :: picks[j] < n)
    && forall i, j | 0 <= i < j < |picks| :: picks[i] < picks[j]
  }

  function Pick(sent: seq<(nat, Packet)>, picks: seq<nat>): (ps: seq<Packet>)
    requires forall j | 0 <= j < |picks| :: picks[j] < |sent|
    ensures |ps| == |picks|
  {
    seq(|picks|, j requires 0 <= j < |picks| => sent[picks[j]].1)
  }

  /** The gap before packet `j` of those received is one that a Short header can bridge. */
  predicate Bridged(frames: seq<Frame>, sent: seq<(nat, Packet)>, picks: seq<nat>, j: nat)
    requires |sent| == |frames| && j < |picks| && forall i | 0 <= i < |picks| :: picks[i] < |frames|
  {
    !frames[picks[j]].short || (j > 0 && sent[picks[j - 1]].0 < sent[picks[j]].0 <= sent[picks[j - 1]].0 + W24)
  }

  ghost predicate Recovered(s: Session, frames: seq<Frame>, sent: seq<(nat, Packet)>, picks: seq<nat>, j: nat)
    requires |sent| == |frames| && j < |picks| && forall i | 0 <= i < |picks| :: picks[i] < |frames|
  {
    Receive(Receiver(s), Pick(sent, picks), j) == Ok(Reception(sent[picks[j]].0, frames[picks[j]].plain, true))
  }

  /** Packet `k` of `sent` carries frame `k` under a 64-bit counter. */
  ghost predicate SentAt(s: Session, frames: seq<Frame>, sent: seq<(nat, Packet)>, k: nat)
    requires |sent| == |frames| && k < |frames|
  {
    && sent[k].0 < M
    && Send(s, frames[k], sent[k].0).Ok?
    && sent[k].1 == Send(s, frames[k], sent[k].0).value.0
  }

  /** What precedes packet `j` of those received, if the receiver has kept up. */
  function Before(sent: seq<(nat, Packet)>, picks: seq<nat>, j: nat): Option<nat>
    requires j < |picks| && forall i | 0 <= i < |picks| :: picks[i] < |sent|
  {
    if j == 0 then None else Some(sent[picks[j - 1]].0)
  }

  lemma StepExactly(s: Session, frames: seq<Frame>, sent: seq<(nat, Packet)>, picks: seq<nat>, j: nat)
    requires |sent| == |frames| && Arrives(picks, |frames|) && j < |picks| && SentAt(s, frames, sent, picks[j])
    ensures var out := Receiver(s)(Before(sent, picks, j), Pick(sent, picks)[j]);
            out == Ok(Reception(sent[picks[j]].0, frames[picks[j]].plain, true)) <==> Bridged(frames, sent, picks, j)
  {
    AcceptExactly(s, frames[picks[j]], sent[picks[j]].0, Before(sent, picks, j));
  }

  /** Packet `i` gives `outs[i]`, if the one before gave `outs[i - 1]`. */
  ghost predicate AcceptedAt(accept: Acceptor, packets: seq<Packet>, outs: seq<Reception>, i: nat)
    requires |outs| == |packets| && i < |packets|
  {
    accept(if i == 0 then None else Some(outs[i - 1].ctr), packets[i]) == Ok(outs[i])
  }

  /** The receiver keeps up as long as each step does. */
  lemma {:induction false} KeepsUp(accept: Acceptor, packets: seq<Packet>, outs: seq<Reception>, j: nat)
    requires |outs| == |packets| && j < |packets|
    requires forall i | 0 <= i <= j :: AcceptedAt(accept, packets, outs, i)
    ensures Receive(accept, packets, j) == Ok(outs[j])
  {
    assert AcceptedAt(accept, packets, outs, j);
    if j > 0 {
      KeepsUp(accept, packets, outs, j - 1);
    }
  }

  function Expected(frames: seq<Frame>, sent: seq<(nat, Packet)>, picks: seq<nat>): (outs: seq<Reception>)
    requires |sent| == |frames| && forall i | 0 <= i < |picks| :: picks[i] < |frames|
    ensures |outs| == |picks|
  {
    seq(|picks|, j requires 0 <= j < |picks| => Reception(sent[picks[j]].0, frames[picks[j]].plain, true))
  }

  lemma TracksWhileBridged(s: Session, frames: seq<Frame>, sent: seq<(nat, Packet)>, picks: seq<nat>, j: nat)
    requires |sent| == |frames| && Arrives(picks, |frames|) && j < |picks|
    requires forall k | 0 <= k < |frames| :: SentAt(s, frames, sent, k)
    requires forall i | 0 <= i <= j :: Bridged(frames, sent, picks, i)
    ensures Recovered(s, frames, sent, picks, j)
  {
    hide Bridged, SentAt, Receiver, Receive;
    var packets, outs := Pick(sent, picks), Expected(frames, sent, picks);
    forall i | 0 <= i <= j
      ensures AcceptedAt(Receiver(s), packets, outs, i)
    {
      StepExactly(s, frames, sent, picks, i);
    }
    KeepsUp(Receiver(s), packets, outs, j);
  }

  lemma BridgedIfRecovered(s: Session, frames: seq<Frame>, sent: seq<(nat, Packet)>, picks: seq<nat>, j: nat)
    requires |sent| == |frames| && Arrives(picks, |frames|) && j < |picks|
    requires SentAt(s, frames, sent, picks[j])
    requires Recovered(s, frames, sent, picks, j) && (j > 0 ==> Recovered(s, frames, sent, picks, j - 1))
    ensures Bridged(frames, sent, picks, j)
  {
    StepExactly(s, frames, sent, picks, j);
  }

  /**
   A receiver behind a lossy link: everything that arrives is recovered with the sender's
   counter, its payload and a good tag, exactly when a Full header comes first and every Short
   header follows a gap of 1 to 2^24.
   */
  lemma ReceiverTracksExactly(s: Session, frames: seq<Frame>, start: nat, picks: seq<nat>)
    requires Transmit(s, frames, start).Ok? && Arrives(picks, |frames|)
    requires forall k | 0 <= k < |frames| :: Transmit(s, frames, start).value[k].0 < M
    ensures var sent := Transmit(s, frames, start).value;
            (forall j | 0 <= j < |picks| :: Recovered(s, frames, sent, picks, j)) <==>
            (forall j | 0 <= j < |picks| :: Bridged(frames, sent, picks, j))
  {
    var sent := Transmit(s, frames, start).value;
    forall k | 0 <= k < |frames|
      ensures SentAt(s, frames, sent, k)
    {
      TransmitAt(s, frames, start, k);
    }
    if forall j | 0 <= j < |picks| :: Bridged(frames, sent, picks, j) {
      forall j | 0 <= j < |picks|
        ensures Recovered(s, frames, sent, picks, j)
      {
        TracksWhileBridged(s, frames, sent, picks, j);
      }
    }
    if forall j | 0 <= j < |picks| :: Recovered(s, frames, sent, picks, j) {
      forall j | 0 <= j < |picks|
        ensures Bridged(frames, sent, picks, j)
      {
        assert j > 0 ==> Recovered(s, frames, sent, picks, j - 1);
        BridgedIfRecovered(s, frames, sent, picks, j);
      }
    }
  }

  // ---------------------------------------------------------------------------
  // The keystream of RTP runs
  // ---------------------------------------------------------------------------

  /** One RTP stream: a session on substream `id`, and what it sends from `start`. */
  datatype Stream = Stream(session: Session, id: int, frames: seq<Frame>, start: nat)
  {
    function Sent(): Result<seq<(nat, Packet)>> {
      Transmit(session, frames, start)
    }

    /** The lengths that the stream encrypts, one per packet. */
    function Segments(): Substream
      requires Sent().Ok?
    {
      Substream(id, start, Lengths(Sent().value))
    }
  }

  function Lengths(sent: seq<(nat, Packet)>): (r: seq<nat>)
    ensures |r| == |sent|
  {
    if sent == [] then [] else [|sent[0].1.body|] + Lengths(sent[1..])
  }

  lemma SendAdvances(s: Session, f: Frame, ctr: nat)
    requires Send(s, f, ctr).Ok?
    ensures var (p, next) := Send(s, f, ctr).value;
            next == ctr + Slices(|p.body|)
  {
    hide PepEncrypt, Cmac64, BuildExtension, PacketAad, Slices;
  }

  /** The counters of a run of packets are those of chained segments, one per packet. */
  lemma {:induction false} RtpRunIsSegments(s: Session, id: int, frames: seq<Frame>, start: nat, k: nat)
    requires Transmit(s, frames, start).Ok? && k < |frames|
    ensures var sent := Transmit(s, frames, start).value;
            sent[k].0 == CtrAt(Substream(id, start, Lengths(sent)), k)
    decreases frames
  {
    hide Send, Slices;
    SendAdvances(s, frames[0], start);
    var (p, next) := Send(s, frames[0], start).value;
    var sent, rest := Transmit(s, frames, start).value, Transmit(s, frames[1..], next).value;
    assert sent == [(start, p)] + rest && sent[1..] == rest;
    var lengths := Lengths(sent);
    if k == 0 {
      assert lengths[..0] == [];
    } else {
      RtpRunIsSegments(s, id, frames[1..], next, k - 1);
      assert lengths[..k][1..] == Lengths(rest)[..k - 1] && lengths[..k][0] == |p.body|;
    }
  }

  /** Counter block `i` of packet `k`. */
  function PacketBlock(t: Stream, k: nat, i: nat): Bytes
    requires t.Sent().Ok? && k < |t.frames|
  {
    CounterBlock(BuildIvCtr(t.session.iv, t.Sent().value[k].0, SPEC), i)
  }

  predicate OnSubstream(t: Stream, base: U64) {
    t.session.iv == ComputeIvPrime(base, t.id, SPEC)
  }

  /** Packet `k` is enciphered with counter block `i`, and the counter has not overflowed. */
  ghost predicate UsesBlock(t: Stream, k: nat, i: nat) {
    t.Sent().Ok? && WithinCounter(t.Segments()) && Uses(t.Segments(), k, i)
  }

  /** RTP streams on different substreams never use one counter block twice. */
  lemma RtpNeverReuses(base: U64, t: Stream, k: nat, i: nat, t': Stream, k': nat, i': nat)
    requires OnSubstream(t, base) && OnSubstream(t', base) && UsesBlock(t, k, i) && UsesBlock(t', k', i')
    requires t == t' || Low64(t.id) != Low64(t'.id)
    requires (t, k, i) != (t', k', i')
    ensures PacketBlock(t, k, i) != PacketBlock(t', k', i')
  {
    RtpRunIsSegments(t.session, t.id, t.frames, t.start, k);
    RtpRunIsSegments(t'.session, t'.id, t'.frames, t'.start, k');
    NoBlockReused(base, t.Segments(), k, i, t'.Segments(), k', i', SPEC);
  }

  // ---------------------------------------------------------------------------
  // Headers and verdicts, octet by octet
  // ---------------------------------------------------------------------------

  lemma HighOctets(x: nat, j: nat)
    ensures OctetAt(x / 0x1_0000_0000, j) == OctetAt(x, j + 4)
  {
    assert OctetAt(x, j + 4) == OctetAt(x / 256, j + 3);
    assert OctetAt(x / 256, j + 3) == OctetAt(x / 256 / 256, j + 2);
    assert OctetAt(x / 256 / 256, j + 2) == OctetAt(x / 256 / 256 / 256, j + 1);
    assert x / 256 / 256 / 256 / 256 == x / 0x1_0000_0000;
  }

  lemma FourOctets(x: nat)
    ensures forall k | 0 <= k < 4 :: Big(x, 4)[k] == OctetAt(x, 3 - k)
    ensures Big(x % 0x1_0000_0000, 4) == Big(x, 4)
  {
    hide OctetAt;
    Powers();
    BigOfLow(x, 4);
    forall k | 0 <= k < 4
      ensures Big(x, 4)[k] == OctetAt(x, 3 - k)
    {
      BigAt(x, 4, k);
    }
  }

  lemma CounterOctets(ctr: nat, k: nat)
    requires k < 8
    ensures (Big(ctr / 0x1_0000_0000 % 0x1_0000_0000, 4) + Big(ctr % 0x1_0000_0000, 4))[k] == OctetAt(ctr, 7 - k)
  {
    hide OctetAt, Big;
    FourOctets(ctr / 0x1_0000_0000);
    FourOctets(ctr);
    if k < 4 {
      HighOctets(ctr, 3 - k);
    }
  }

  lemma FourFields(p: Bytes, v: Bytes, h: Bytes, l: Bytes)
    requires |p| == 8 && |v| == 4 && |h| == 4 && |l| == 4
    ensures var data := p + v + h + l;
            && |data| == 20 && data[..8] == p
            && (forall k | 8 <= k < 12 :: data[k] == v[k - 8])
            && forall k | 12 <= k < 20 :: data[k] == (h + l)[k - 12]
  {
  }

  /** The octets of a Full header; a key version beyond 32 bits is refused. */
  lemma FullOctets(extId: nat, ctr: nat, version: nat)
    ensures BuildFull(extId, ctr, version).Ok? <==> version < 0x1_0000_0000
    ensures version < 0x1_0000_0000 ==>
              var data := BuildFull(extId, ctr, version).value;
              && |data| == 20 && data[..8] == [0xBE, 0xDE, 0, 4, extId % 16 * 16 + 14, 0, 0, 0]
              && (forall k | 8 <= k < 12 :: data[k] == OctetAt(version, 11 - k))
              && forall k | 12 <= k < 20 :: data[k] == OctetAt(ctr, 19 - k)
  {
    hide OctetAt, Big, FullPreamble;
    if version < 0x1_0000_0000 {
      var data := BuildFull(extId, ctr, version).value;
      PreambleOctets(extId);
      FourFields(FullPreamble(extId), Big(version, 4),
                 Big(ctr / 0x1_0000_0000 % 0x1_0000_0000, 4), Big(ctr % 0x1_0000_0000, 4));
      FourOctets(version);
      forall k | 12 <= k < 20
        ensures data[k] == OctetAt(ctr, 19 - k)
      {
        CounterOctets(ctr, k - 12);
      }
    }
  }

  lemma PreambleOctets(extId: nat)
    ensures FullPreamble(extId) == [0xBE, 0xDE, 0, 4, extId % 16 * 16 + 14, 0, 0, 0]
  {
    BigTwo(0xBEDE);
    BigTwo(4);
    BigTwo(0);
  }

  lemma BigTwo(x: nat)
    ensures Big(x, 2) == [x / 256 % 256, x % 256]
  {
    assert Big(x, 1) == [x % 256] && Big(x / 256, 1) == [x / 256 % 256] by {
      assert Big(x, 0) == [] && Big(x / 256, 0) == [];
    }
  }

  /** The octets of a Short header. */
  lemma ShortOctets(extId: nat, ctr: nat)
    ensures var data := BuildShort(extId, ctr);
            && |data| == 8 && data[..5] == [0xBE, 0xDE, 0, 1, extId % 16 * 16 + 2]
            && forall k | 5 <= k < 8 :: data[k] == OctetAt(ctr, 7 - k)
  {
    hide OctetAt;
    Powers();
    BigTwo(0xBEDE);
    BigTwo(1);
    BigOfLow(ctr, 3);
    forall k | 0 <= k < 3
      ensures Big(ctr, 3)[k] == OctetAt(ctr, 2 - k)
    {
      BigAt(ctr, 3, k);
    }
  }

  lemma ZerosAre(n: nat)
    ensures forall k | 0 <= k < n :: Zeros(n)[k] == 0
    ensures Big(0, n) == Zeros(n)
  {
    if n > 0 {
      ZerosAre(n - 1);
    }
  }

  /** The additional data of a packet, in octets of its own header: sixteen of them, or none outside the AAD mode. */
  lemma AadOctets(s: Session, short: bool, ext: Bytes)
    ensures s.mode.mac != CmacAad ==> PacketAad(s, short, ext) == Ok([])
    ensures s.mode.mac == CmacAad ==> (PacketAad(s, short, ext).Ok? <==> |ext| >= if short then 8 else 20)
    ensures s.mode.mac == CmacAad && |ext| >= (if short then 8 else 20) ==>
              PacketAad(s, short, ext).value ==
                if short then [0, 0, 0, 0, 0, 0, 0, 0, 0, 0, 0, 0, 0] + ext[5..8]
                else [0, 0, 0, 0] + (if s.isKv then ext[8..12] else [0, 0, 0, 0]) + ext[12..20]
  {
    hide Big, FromBig;
    Powers();
    ZerosAre(4);
    if |ext| >= 8 {
      BigOfFromBig(ext[5..8]);
    }
    if |ext| >= 20 {
      BigOfFromBig(ext[8..12]);
      BigOfFromBig(ext[12..16]);
      BigOfFromBig(ext[16..20]);
      assert ext[12..16] + ext[16..20] == ext[12..20];
    }
    assert Zeros(8) + Zeros(5) == [0, 0, 0, 0, 0, 0, 0, 0, 0, 0, 0, 0, 0] && Zeros(4) == [0, 0, 0, 0];
  }

  /** Decryption of any payload, tag and verdict; a body shorter than a tag never passes. */
  lemma RtpVerdict(c: Crypto, enc: Bytes, iv: nat, ctr: nat, mode: PepMode, aad: Bytes)
    ensures var plain := PepEncrypt(c.aes, c.key, iv, ctr, enc, SPEC);
            var (payload, ok, _) := DecryptRtp(c, enc, iv, ctr, mode, aad);
            if mode.mac == Cmac || mode.mac == CmacAad then
              && payload == plain[..if |enc| < 8 then 0 else |enc| - 8]
              && (ok <==> |enc| >= 8 && plain[|enc| - 8..] == c.mac(c.key, aad + plain[..|enc| - 8])[..8])
            else payload == plain && ok
  {
    hide PepEncrypt;
  }

  /** The body that is sent: it decrypts to the payload, and its code over the additional data and payload. */
  lemma RtpTagSent(c: Crypto, payload: Bytes, iv: nat, ctr: nat, mode: PepMode, aad: Bytes)
    ensures var enc := EncryptRtp(c, payload, iv, ctr, mode, aad).0;
            var tag := if mode.mac == Cmac || mode.mac == CmacAad then c.mac(c.key, aad + payload)[..8] else [];
            |enc| == |payload| + |tag| && PepEncrypt(c.aes, c.key, iv, ctr, enc, SPEC) == payload + tag
  {
    hide PepEncrypt;
    var tag := if mode.mac == Cmac || mode.mac == CmacAad then c.mac(c.key, aad + payload)[..8] else [];
    assert payload + [] == payload;
    DecryptEncrypt(c.aes, c.key, iv, ctr, payload + tag, SPEC);
  }

  /** Only the untouched tag passes. */
  lemma RtpTagTampered(c: Crypto, payload: Bytes, enc: Bytes, iv: nat, ctr: nat, mode: PepMode, aad: Bytes)
    requires mode.mac == Cmac || mode.mac == CmacAad
    requires |enc| == |payload| + 8 && enc[..|payload|] == EncryptRtp(c, payload, iv, ctr, mode, aad).0[..|payload|]
    ensures DecryptRtp(c, enc, iv, ctr, mode, aad).1 <==> enc == EncryptRtp(c, payload, iv, ctr, mode, aad).0
  {
    hide PepEncrypt, EncryptRtp, DecryptRtp;
    var n, sent := |payload|, EncryptRtp(c, payload, iv, ctr, mode, aad).0;
    RtpTagSent(c, payload, iv, ctr, mode, aad);
    RtpVerdict(c, enc, iv, ctr, mode, aad);
    EncryptedTails(c.aes, c.key, iv, ctr, enc, sent, SPEC, n);
    var q := PepEncrypt(c.aes, c.key, iv, ctr, sent, SPEC);
    assert q[..n] == payload && q[n..] == c.mac(c.key, aad + payload)[..8];
    assert enc == enc[..n] + enc[n..] && sent == sent[..n] + sent[n..];
  }
}
