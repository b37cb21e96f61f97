/** Authentication tags and USB messages of pep/ipmx_pep.py (section 12 of VSF TR-10-14). */
module Usb {
  import opened Outcome
  import opened Octets
  import opened Pep
  import opened Keystream

  /** The authentication part of a mode name; GMAC modes are left to the SRT library. */
  datatype MacKind = Plain | Cmac | CmacAad | Gmac

  datatype PepMode = PepMode(ecdh: bool, bits256: bool, mac: MacKind)

  predicate HasCmac(mode: PepMode) {
    mode.mac == Cmac || mode.mac == CmacAad
  }

  predicate HasAad(mode: PepMode) {
    mode.mac == CmacAad
  }

  /** AES-CMAC: any function from a key and a message to 16 octets. */
  type Mac = f: (Bytes, Bytes) -> Bytes | forall k: Bytes, m: Bytes :: |f(k, m)| == 16
    witness (k: Bytes, m: Bytes) => seq(16, _ => 0)

  datatype Crypto = Crypto(aes: Cipher, mac: Mac, key: Bytes)

  const TAG := 8
  const USB_HEADER := 16

  function Zeros(n: nat): Bytes {
    seq(n, _ => 0)
  }

  function Cmac64(c: Crypto, data: Bytes, aad: Bytes): (tag: Bytes)
    ensures |tag| == TAG
  {
    c.mac(c.key, aad + data)[..TAG]
  }

  predicate Cmac64Verify(c: Crypto, data: Bytes, expected: Bytes, aad: Bytes) {
    Cmac64(c, data, aad) == expected
  }

  function UsbCtrAdvance(length: nat): nat {
    if length <= USB_HEADER then 0 else (length - USB_HEADER + BLOCK - 1) / BLOCK
  }

  function UsbTag(c: Crypto, header: Bytes, data: Bytes, mode: PepMode): (tag: Bytes)
    ensures |tag| == TAG
  {
    if !HasCmac(mode) then Zeros(TAG)
    else if !HasAad(mode) then Cmac64(c, header + data, [])
    else Cmac64(c, data, header)
  }

  function EncryptUsb(c: Crypto, raw: Bytes, iv: nat, mode: PepMode, ivMode: IvMode): Result<Bytes> {
    if |raw| < USB_HEADER + TAG then Raised
    else
      var header, data := raw[..USB_HEADER], raw[USB_HEADER..|raw| - TAG];
      var ctr := FromBig(header[..8]);
      Ok(header + PepEncrypt(c.aes, c.key, iv, ctr, data + UsbTag(c, header, data, mode), ivMode))
  }

  function DecryptUsb(c: Crypto, enc: Bytes, iv: nat, mode: PepMode, ivMode: IvMode): Result<(Bytes, bool)> {
    if |enc| < USB_HEADER + TAG then Raised
    else
      var header := enc[..USB_HEADER];
      var ctr := FromBig(header[..8]);
      var plain := PepDecrypt(c.aes, c.key, iv, ctr, enc[USB_HEADER..], ivMode);
      assert |plain| == |enc| - USB_HEADER;
      var data, tag := plain[..|plain| - TAG], plain[|plain| - TAG..];
      var ok := HasCmac(mode) ==>
                  if HasAad(mode) then Cmac64Verify(c, data, tag, header) else Cmac64Verify(c, header + data, tag, []);
      Ok((header + data + Zeros(TAG), ok))
  }

  /** The tag authenticates header and data alike, whether the header is named as AAD or not. */
  lemma AadMakesNoDifference(c: Crypto, raw: Bytes, iv: nat, mode: PepMode, ivMode: IvMode)
    requires mode.mac == Cmac
    ensures EncryptUsb(c, raw, iv, mode, ivMode) == EncryptUsb(c, raw, iv, mode.(mac := CmacAad), ivMode)
    ensures DecryptUsb(c, raw, iv, mode, ivMode) == DecryptUsb(c, raw, iv, mode.(mac := CmacAad), ivMode)
  {
    assert forall h: Bytes, d: Bytes :: [] + (h + d) == h + d;
  }

  /** Every message of at least 24 octets decrypts to itself with a zeroed tag; shorter ones are refused. */
  lemma UsbRoundTrip(c: Crypto, raw: Bytes, iv: nat, mode: PepMode, ivMode: IvMode)
    ensures EncryptUsb(c, raw, iv, mode, ivMode).Ok? <==> |raw| >= USB_HEADER + TAG
    ensures |raw| >= USB_HEADER + TAG ==>
              var enc := EncryptUsb(c, raw, iv, mode, ivMode).value;
              && |enc| == |raw| && enc[..USB_HEADER] == raw[..USB_HEADER]
              && DecryptUsb(c, enc, iv, mode, ivMode) == Ok((raw[..|raw| - TAG] + Zeros(TAG), true))
  {
    if |raw| >= USB_HEADER + TAG {
      var header, data := raw[..USB_HEADER], raw[USB_HEADER..|raw| - TAG];
      var ctr := FromBig(header[..8]);
      var body := data + UsbTag(c, header, data, mode);
      var enc := EncryptUsb(c, raw, iv, mode, ivMode).value;
      DecryptEncrypt(c.aes, c.key, iv, ctr, body, ivMode);
      assert enc[..USB_HEADER] == header && enc[USB_HEADER..] == PepEncrypt(c.aes, c.key, iv, ctr, body, ivMode);
      assert body[..|body| - TAG] == data && body[|body| - TAG..] == UsbTag(c, header, data, mode);
      assert raw[..|raw| - TAG] == header + data;
    }
  }

  lemma HeaderCounter(ctr: U64, rest: Bytes)
    requires |rest| >= USB_HEADER
    ensures FromBig((Big(ctr, 8) + rest)[..USB_HEADER][..8]) == ctr
  {
    Powers();
    FromBigOfBig(ctr, 8);
    assert (Big(ctr, 8) + rest)[..USB_HEADER][..8] == Big(ctr, 8);
  }

  /** The keystream starts at the counter in the first eight octets of the header. */
  lemma UsbCounterField(c: Crypto, ctr: U64, rest: Bytes, iv: nat, mode: PepMode, ivMode: IvMode)
    requires |rest| >= USB_HEADER
    ensures var raw := Big(ctr, 8) + rest;
            var data := rest[8..|rest| - TAG];
            && EncryptUsb(c, raw, iv, mode, ivMode).Ok?
            && EncryptUsb(c, raw, iv, mode, ivMode).value[USB_HEADER..]
               == PepEncrypt(c.aes, c.key, iv, ctr, data + UsbTag(c, raw[..USB_HEADER], data, mode), ivMode)
  {
    hide Big, FromBig, PepEncrypt, UsbTag;
    var raw := Big(ctr, 8) + rest;
    HeaderCounter(ctr, rest);
    assert raw[USB_HEADER..|raw| - TAG] == rest[8..|rest| - TAG];
  }

  /** A message is one segment of `pep_encrypt_slices`, and its advance leads to the returned counter. */
  lemma UsbAdvanceIsSlices(c: Crypto, raw: Bytes, iv: nat, mode: PepMode, ivMode: IvMode)
    requires |raw| >= USB_HEADER + TAG
    ensures var (header, data, ctr) := (raw[..USB_HEADER], raw[USB_HEADER..|raw| - TAG], FromBig(raw[..8]));
            && EncryptUsb(c, raw, iv, mode, ivMode).Ok?
            && PepEncryptSlices(c.aes, c.key, iv, ctr, data + UsbTag(c, header, data, mode), ivMode)
               == (EncryptUsb(c, raw, iv, mode, ivMode).value[USB_HEADER..], ctr + UsbCtrAdvance(|raw|))
  {
    assert raw[..USB_HEADER][..8] == raw[..8];
  }

  /** The counters of a run of messages, each advanced by `usb_ctr_advance` of the one before. */
  function UsbCtrs(start: nat, lengths: seq<nat>): (ctrs: seq<nat>)
    ensures |ctrs| == |lengths|
    decreases lengths
  {
    if lengths == [] then [] else [start] + UsbCtrs(start + UsbCtrAdvance(lengths[0]), lengths[1..])
  }

  function Encrypted(lengths: seq<nat>): seq<nat>
    requires forall i | 0 <= i < |lengths| :: lengths[i] >= USB_HEADER
  {
    seq(|lengths|, i requires 0 <= i < |lengths| => (lengths[i] - USB_HEADER) as nat)
  }

  /** A run of USB messages is a run of segments, so `NoBlockReused` holds of it. */
  lemma {:induction false} UsbRunIsSegments(id: int, start: nat, lengths: seq<nat>, k: nat)
    requires (forall i | 0 <= i < |lengths| :: lengths[i] >= USB_HEADER) && k < |lengths|
    ensures UsbCtrs(start, lengths)[k] == CtrAt(Substream(id, start, Encrypted(lengths)), k)
    decreases lengths
  {
    var segments := Encrypted(lengths);
    if k == 0 {
      assert segments[..0] == [];
    } else {
      assert Encrypted(lengths[1..]) == segments[1..];
      UsbRunIsSegments(id, start + UsbCtrAdvance(lengths[0]), lengths[1..], k - 1);
      assert segments[..k] == [segments[0]] + segments[1..][..k - 1];
      assert segments[..k][1..] == segments[1..][..k - 1];
    }
  }

  /** The messages of one substream: where its counter starts, and their lengths. */
  datatype Messages = Messages(id: int, start: nat, lengths: seq<nat>)
  {
    predicate Whole() {
      forall i | 0 <= i < |lengths| :: lengths[i] >= USB_HEADER
    }

    function Segments(): Substream
      requires Whole()
    {
      Substream(id, start, Encrypted(lengths))
    }
  }

  /** Counter block `i` of message `k`. */
  function MessageBlock(base: U64, m: Messages, k: nat, i: nat, ivMode: IvMode): Bytes
    requires k < |m.lengths|
  {
    CounterBlock(BuildIvCtr(ComputeIvPrime(base, m.id, ivMode), UsbCtrs(m.start, m.lengths)[k], ivMode), i)
  }

  ghost predicate UsesBlock(m: Messages, k: nat, i: nat) {
    m.Whole() && WithinCounter(m.Segments()) && Uses(m.Segments(), k, i)
  }

  /** Message runs on different substreams never use one counter block twice. */
  lemma UsbNeverReuses(base: U64, m: Messages, k: nat, i: nat, m': Messages, k': nat, i': nat, ivMode: IvMode)
    requires UsesBlock(m, k, i) && UsesBlock(m', k', i')
    requires m == m' || Low64(m.id) != Low64(m'.id)
    requires (m, k, i) != (m', k', i')
    ensures MessageBlock(base, m, k, i, ivMode) != MessageBlock(base, m', k', i', ivMode)
  {
    hide CounterBlock, BuildIvCtr, ComputeIvPrime, CtrAt, UsbCtrs, Low64;
    UsbRunIsSegments(m.id, m.start, m.lengths, k);
    UsbRunIsSegments(m'.id, m'.start, m'.lengths, k');
    NoBlockReused(base, m.Segments(), k, i, m'.Segments(), k', i', ivMode);
  }

  // ---------------------------------------------------------------------------
  // The verdict on any message
  // ---------------------------------------------------------------------------

  /**
   Decryption of any message: it is refused below 24 octets; otherwise the header and the data come
   out with a zeroed tag, and the verdict is whether the last eight decrypted octets are the first
   eight of the code over header and data, or true in a mode without one.
   */
  lemma UsbVerdict(c: Crypto, enc: Bytes, iv: nat, mode: PepMode, ivMode: IvMode)
    ensures DecryptUsb(c, enc, iv, mode, ivMode).Ok? <==> |enc| >= 24
    ensures |enc| >= 24 ==>
              var (header, plain) := (enc[..16], PepEncrypt(c.aes, c.key, iv, FromBig(enc[..8]), enc[16..], ivMode));
              var data := plain[..|enc| - 24];
              var (message, ok) := DecryptUsb(c, enc, iv, mode, ivMode).value;
              && message == header + data + [0, 0, 0, 0, 0, 0, 0, 0]
              && (if mode.mac == Cmac || mode.mac == CmacAad then ok <==> plain[|enc| - 24..] == c.mac(c.key, header + data)[..8]
                  else ok)
  {
    hide PepEncrypt, FromBig;
    if |enc| >= 24 {
      assert enc[..16][..8] == enc[..8];
      var plain := PepEncrypt(c.aes, c.key, iv, FromBig(enc[..8]), enc[16..], ivMode);
      assert [] + (enc[..16] + plain[..|enc| - 24]) == enc[..16] + plain[..|enc| - 24];
      assert Zeros(8) == [0, 0, 0, 0, 0, 0, 0, 0];
    }
  }

  /** The tag that is sent: it decrypts to the code over header and data, or to zeros in a mode without one. */
  lemma UsbTagSent(c: Crypto, raw: Bytes, iv: nat, mode: PepMode, ivMode: IvMode)
    requires |raw| >= 24
    ensures EncryptUsb(c, raw, iv, mode, ivMode).Ok?
    ensures var enc := EncryptUsb(c, raw, iv, mode, ivMode).value;
            && |enc| == |raw| && enc[..16] == raw[..16]
            && PepEncrypt(c.aes, c.key, iv, FromBig(raw[..8]), enc[16..], ivMode)
               == raw[16..|raw| - 8] + if mode.mac == Cmac || mode.mac == CmacAad then c.mac(c.key, raw[..|raw| - 8])[..8]
                                       else [0, 0, 0, 0, 0, 0, 0, 0]
  {
    hide PepEncrypt, FromBig;
    var header, data := raw[..16], raw[16..|raw| - 8];
    assert header[..8] == raw[..8] && header + data == raw[..|raw| - 8];
    assert [] + (header + data) == header + data;
    var body := data + UsbTag(c, header, data, mode);
    DecryptEncrypt(c.aes, c.key, iv, FromBig(raw[..8]), body, ivMode);
    assert EncryptUsb(c, raw, iv, mode, ivMode).value[16..] == PepEncrypt(c.aes, c.key, iv, FromBig(raw[..8]), body, ivMode);
    assert Zeros(8) == [0, 0, 0, 0, 0, 0, 0, 0];
  }

  /** Whatever is done to the last eight octets of an encrypted message shows: only the untouched ones pass. */
  lemma UsbTagTampered(c: Crypto, raw: Bytes, enc: Bytes, iv: nat, mode: PepMode, ivMode: IvMode)
    requires |raw| >= 24 && (mode.mac == Cmac || mode.mac == CmacAad) && |enc| == |raw|
    requires enc[..|raw| - 8] == EncryptUsb(c, raw, iv, mode, ivMode).value[..|raw| - 8]
    ensures DecryptUsb(c, enc, iv, mode, ivMode).value.1 <==> enc == EncryptUsb(c, raw, iv, mode, ivMode).value
  {
    hide PepEncrypt, FromBig, EncryptUsb, DecryptUsb;
    UsbTagSent(c, raw, iv, mode, ivMode);
    var n, sent := |raw|, EncryptUsb(c, raw, iv, mode, ivMode).value;
    UsbVerdict(c, enc, iv, mode, ivMode);
    SamePrefix(enc, sent, n - 8);
    assert sent[..16][..8] == sent[..8] && raw[..16][..8] == raw[..8];
    var ctr := FromBig(raw[..8]);
    EncryptedTails(c.aes, c.key, iv, ctr, enc[16..], sent[16..], ivMode, n - 24);
    var p := PepEncrypt(c.aes, c.key, iv, ctr, enc[16..], ivMode);
    var q := PepEncrypt(c.aes, c.key, iv, ctr, sent[16..], ivMode);
    assert q[..n - 24] == raw[16..n - 8] && q[n - 24..] == c.mac(c.key, raw[..n - 8])[..8];
    assert p[..n - 24] == q[..n - 24];
    assert raw[..16] + raw[16..n - 8] == raw[..n - 8];
    assert enc[..16] + p[..n - 24] == raw[..n - 8];
    assert p[n - 24..] == q[n - 24..] <==> enc == sent;
  }

  lemma SamePrefix(a: Bytes, b: Bytes, n: nat)
    requires |a| == |b| && 16 <= n <= |a| && a[..n] == b[..n]
    ensures a[..16] == b[..16] && a[..8] == b[..8] && a[16..][..n - 16] == b[16..][..n - 16]
    ensures a[n..] == b[n..] <==> a == b
    ensures a[16..][n - 16..] == a[n..] && b[16..][n - 16..] == b[n..]
  {
    assert forall k | 0 <= k < n :: a[k] == a[..n][k] && b[k] == b[..n][k];
    assert a == a[..n] + a[n..] && b == b[..n] + b[n..];
  }

  /** Sixteen octets of a message are not encrypted; what is left uses its number of blocks, rounded up. */
  lemma UsbAdvanceExactly(length: nat, i: nat)
    ensures i < UsbCtrAdvance(length) <==> exists k: nat :: k < length - 16 && k / 16 == i
  {
    if length > 16 {
      SlicesExactly(length - 16, i);
    }
  }
}
