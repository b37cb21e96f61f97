/**
 The privacy cipher of pep/ipmx_pep.py: AES in counter mode over the block iv' || ctr of
 sections 14 and 15 of VSF TR-10-13.  AES itself is an arbitrary function of key and block.
 */
module Pep {
  import opened Octets

  /** 2^64, the range of iv' and of ctr. */
  const M: nat := 0x1_0000_0000_0000_0000
  const BLOCK := 16

  type U64 = x: nat | x < M

  /** A block cipher: any function from a key and a block to 16 octets. */
  type Cipher = f: (Bytes, Bytes) -> Bytes | forall k: Bytes, b: Bytes :: |f(k, b)| == BLOCK
    witness (k: Bytes, b: Bytes) => seq(BLOCK, _ => 0)

  datatype IvMode = SPEC | SWAP

  /** `x & 0xFFFFFFFFFFFFFFFF`. */
  function Low64(x: int): (r: U64)
    ensures 0 <= x < M ==> r == x
    ensures M <= x < 2 * M ==> r == x - M
  {
    x % 0x1_0000_0000_0000_0000
  }

  /** A 64-bit integer with its octets reversed. */
  function Swap64(x: U64): (r: U64) {
    BigOfFromBig(Reverse(Big(x, 8)));
    Powers();
    FromBig(Reverse(Big(x, 8)))
  }

  function ComputeIvPrime(base: U64, substream: int, mode: IvMode): U64 {
    if substream == 0 then base
    else if mode.SPEC? then Low64(base + substream)
    else Swap64(Low64(Swap64(base) + substream))
  }

  function BuildIvCtr(iv: nat, ctr: nat, mode: IvMode): (b: Bytes)
    ensures |b| == BLOCK
  {
    var packed := Big(Low64(iv), 8);
    (if mode.SWAP? then Reverse(packed) else packed) + Big(Low64(ctr), 8)
  }

  function Low128(x: nat): (r: nat)
    ensures x < M * M ==> r == x
    ensures M * M <= x < M * M + M * M ==> r == x - M * M
  {
    x % 0x1_0000_0000_0000_0000_0000_0000_0000_0000
  }

  /** The sixteen octets of a 128-bit number, which wraps around. */
  function NumberedBlock(n: nat): Bytes {
    Big(Low128(n), BLOCK)
  }

  /** The i-th counter block of AES-CTR from a 128-bit big-endian initial value. */
  function CounterBlock(initial: Bytes, i: nat): Bytes {
    NumberedBlock(FromBig(initial) + i)
  }

  /** What `f` gives from `start` on. */
  function CountFrom(f: nat -> Bytes, start: nat): nat -> Bytes {
    (i: nat) => f(start + i)
  }

  /** The counter blocks from an initial value. */
  function Counter(initial: Bytes): nat -> Bytes {
    CountFrom(NumberedBlock, FromBig(initial))
  }

  function Slices(length: nat): nat {
    (length + BLOCK - 1) / BLOCK
  }

  /** Counter mode: each octet is combined with its octet of the enciphered counter block. */
  function CtrMode(aes: Cipher, key: Bytes, blocks: nat -> Bytes, data: Bytes): (r: Bytes)
    ensures |r| == |data|
  {
    seq<Byte>(|data|, k requires 0 <= k < |data| => Xor(data[k], aes(key, blocks(k / BLOCK))[k % BLOCK]))
  }

  function PepEncrypt(aes: Cipher, key: Bytes, iv: nat, ctr: nat, data: Bytes, mode: IvMode): (r: Bytes)
    ensures |r| == |data|
  {
    if data == [] then []
    else CtrMode(aes, key, Counter(BuildIvCtr(iv, ctr, mode)), data)
  }

  function PepDecrypt(aes: Cipher, key: Bytes, iv: nat, ctr: nat, data: Bytes, mode: IvMode): Bytes {
    PepEncrypt(aes, key, iv, ctr, data, mode)
  }

  function PepEncryptSlices(aes: Cipher, key: Bytes, iv: nat, ctr: nat, data: Bytes, mode: IvMode): (Bytes, nat) {
    (PepEncrypt(aes, key, iv, ctr, data, mode), ctr + Slices(|data|))
  }

  // ---------------------------------------------------------------------------
  // Laws
  // ---------------------------------------------------------------------------

  lemma CtrModeTwice(aes: Cipher, key: Bytes, blocks: nat -> Bytes, data: Bytes)
    ensures CtrMode(aes, key, blocks, CtrMode(aes, key, blocks, data)) == data
  {
    forall k | 0 <= k < |data|
      ensures CtrMode(aes, key, blocks, CtrMode(aes, key, blocks, data))[k] == data[k]
    {
      XorTwice(data[k], aes(key, blocks(k / BLOCK))[k % BLOCK]);
    }
  }

  /** Decryption undoes encryption, for every length. */
  lemma DecryptEncrypt(aes: Cipher, key: Bytes, iv: nat, ctr: nat, data: Bytes, mode: IvMode)
    ensures PepDecrypt(aes, key, iv, ctr, PepEncrypt(aes, key, iv, ctr, data, mode), mode) == data
  {
    CtrModeTwice(aes, key, Counter(BuildIvCtr(iv, ctr, mode)), data);
  }

  lemma Swap64Twice(x: U64)
    ensures Swap64(Swap64(x)) == x
  {
    Powers();
    FromBigOfBig(x, 8);
    BigOfFromBig(Reverse(Big(x, 8)));
    ReverseTwice(Big(x, 8));
  }

  lemma SwapBlock(iv: U64, ctr: nat)
    ensures BuildIvCtr(iv, ctr, SWAP) == BuildIvCtr(Swap64(iv), ctr, SPEC)
  {
    BigOfFromBig(Reverse(Big(iv, 8)));
  }

  lemma SwapIv(base: U64, substream: int)
    ensures ComputeIvPrime(base, substream, SWAP) == Swap64(ComputeIvPrime(Swap64(base), substream, SPEC))
  {
    if substream == 0 {
      Swap64Twice(base);
    }
  }

  lemma LowLow(x: int, b: int)
    ensures Low64(Low64(x) + b) == Low64(x + b)
  {
  }

  lemma SpecAdds(base: U64, a: int, b: int)
    ensures ComputeIvPrime(ComputeIvPrime(base, a, SPEC), b, SPEC) == ComputeIvPrime(base, a + b, SPEC)
  {
    LowLow(base + a, b);
  }

  /** Substream ids act on iv by addition modulo 2^64, in either octet order. */
  lemma SubstreamsAdd(base: U64, a: int, b: int, mode: IvMode)
    ensures ComputeIvPrime(ComputeIvPrime(base, a, mode), b, mode) == ComputeIvPrime(base, a + b, mode)
    ensures ComputeIvPrime(base, 0, mode) == base
  {
    if mode.SPEC? {
      SpecAdds(base, a, b);
    } else {
      var x := ComputeIvPrime(Swap64(base), a, SPEC);
      SwapIv(base, a);
      SwapIv(Swap64(x), b);
      Swap64Twice(x);
      SpecAdds(Swap64(base), a, b);
      SwapIv(base, a + b);
    }
  }

  /**
   SWAP is SPEC conjugated by octet reversal, in the addition and in the counter block: a SWAP
   session on `base` uses the counter blocks of the SPEC session on the reversed `base`.
   */
  lemma SwapIsConjugate(base: U64, substream: int, ctr: nat)
    ensures ComputeIvPrime(base, substream, SWAP) == Swap64(ComputeIvPrime(Swap64(base), substream, SPEC))
    ensures BuildIvCtr(ComputeIvPrime(base, substream, SWAP), ctr, SWAP)
            == BuildIvCtr(ComputeIvPrime(Swap64(base), substream, SPEC), ctr, SPEC)
  {
    SwapIv(base, substream);
    SwapBlock(ComputeIvPrime(base, substream, SWAP), ctr);
    Swap64Twice(ComputeIvPrime(Swap64(base), substream, SPEC));
  }

  // ---------------------------------------------------------------------------
  // Counter blocks
  // ---------------------------------------------------------------------------

  /** iv' as it is packed, read as a big-endian integer. */
  function PackedIv(iv: nat, mode: IvMode): U64 {
    if mode.SWAP? then Swap64(Low64(iv)) else Low64(iv)
  }

  lemma InitialValue(iv: nat, ctr: nat, mode: IvMode)
    ensures BuildIvCtr(iv, ctr, mode) == Big(PackedIv(iv, mode), 8) + Big(Low64(ctr), 8)
    ensures FromBig(BuildIvCtr(iv, ctr, mode)) == PackedIv(iv, mode) * M + Low64(ctr)
  {
    Powers();
    if mode.SWAP? {
      SwapBlock(Low64(iv), ctr);
    }
    FromBigOfBig(PackedIv(iv, mode), 8);
    FromBigOfBig(Low64(ctr), 8);
    FromBigConcat(Big(PackedIv(iv, mode), 8), Big(Low64(ctr), 8));
  }

  lemma InitialNumber(iv: nat, ctr: nat, mode: IvMode)
    ensures FromBig(BuildIvCtr(iv, ctr, mode)) == PackedIv(iv, mode) * M + Low64(ctr)
  {
    InitialValue(iv, ctr, mode);
  }

  /** Sixteen octets are determined by the two 64-bit halves of their value. */
  lemma BigHalves(high: U64, low: U64)
    ensures Big(high * M + low, BLOCK) == Big(high, 8) + Big(low, 8)
  {
    Powers();
    var s := Big(high, 8) + Big(low, 8);
    FromBigConcat(Big(high, 8), Big(low, 8));
    FromBigOfBig(high, 8);
    FromBigOfBig(low, 8);
    BigOfFromBig(s);
  }

  /** The block `b` is the octets of `high` followed by those of `low`. */
  ghost predicate HasHalves(b: Bytes, high: U64, low: U64) {
    b == Big(high, 8) + Big(low, 8)
  }

  lemma BelowSquare(high: U64, low: U64)
    ensures high * M + low < M * M
  {
  }

  lemma NumberedHalves(high: U64, low: U64)
    ensures HasHalves(NumberedBlock(high * M + low), high, low)
  {
    BelowSquare(high, low);
    BigHalves(high, low);
  }

  lemma CounterBlockNumber(iv: nat, ctr: nat, i: nat, mode: IvMode)
    ensures CounterBlock(BuildIvCtr(iv, ctr, mode), i) == NumberedBlock(PackedIv(iv, mode) * M + (Low64(ctr) + i))
  {
    InitialNumber(iv, ctr, mode);
  }

  /** Block i is iv' followed by ctr + i, while the 64-bit counter does not overflow. */
  lemma CounterBlockValue(iv: nat, ctr: nat, i: nat, mode: IvMode)
    requires Low64(ctr) + i < M
    ensures HasHalves(CounterBlock(BuildIvCtr(iv, ctr, mode), i), PackedIv(iv, mode), Low64(ctr) + i)
  {
    hide CounterBlock, NumberedBlock, PackedIv, HasHalves;
    CounterBlockNumber(iv, ctr, i, mode);
    NumberedHalves(PackedIv(iv, mode), Low64(ctr) + i);
  }

  // ---------------------------------------------------------------------------
  // Octet by octet
  // ---------------------------------------------------------------------------

  lemma CtrModeAt(aes: Cipher, key: Bytes, blocks: nat -> Bytes, data: Bytes, k: nat, j: nat)
    requires k < |data| && j < 8
    ensures Bit(CtrMode(aes, key, blocks, data)[k], j) == 1 <==>
              Bit(data[k], j) != Bit(aes(key, blocks(k / 16))[k % 16], j)
  {
    hide Xor, Bit;
    XorAt(data[k], aes(key, blocks(k / 16))[k % 16], j);
  }

  /**
   Octet k of the encryption is the exclusive or of octet k of the text and octet k modulo 16 of
   the enciphered counter block k / 16.
   */
  lemma EncryptedOctet(aes: Cipher, key: Bytes, iv: nat, ctr: nat, data: Bytes, mode: IvMode, k: nat, j: nat)
    requires k < |data| && j < 8
    ensures |PepEncrypt(aes, key, iv, ctr, data, mode)| == |data|
    ensures Bit(PepEncrypt(aes, key, iv, ctr, data, mode)[k], j) == 1 <==>
              Bit(data[k], j) != Bit(aes(key, CounterBlock(BuildIvCtr(iv, ctr, mode), k / 16))[k % 16], j)
  {
    hide CtrMode, BuildIvCtr, NumberedBlock, FromBig, Bit;
    CtrModeAt(aes, key, Counter(BuildIvCtr(iv, ctr, mode)), data, k, j);
  }

  lemma SwappedOctets(x: U64, k: nat)
    requires k < 8
    ensures OctetAt(Swap64(x), k) == OctetAt(x, 7 - k)
  {
    BigOfFromBig(Reverse(Big(x, 8)));
    assert Big(Swap64(x), 8) == Reverse(Big(x, 8));
    BigAt(Swap64(x), 8, 7 - k);
    BigAt(x, 8, k);
  }

  /** The octets of a counter block: iv' in the order of the mode, then ctr + i most significant first. */
  lemma CounterBlockOctets(iv: nat, ctr: nat, i: nat, mode: IvMode, k: nat)
    requires ctr % 0x1_0000_0000_0000_0000 + i < 0x1_0000_0000_0000_0000 && k < 8
    ensures var b := CounterBlock(BuildIvCtr(iv, ctr, mode), i);
            && |b| == 16
            && b[k] == OctetAt(iv % 0x1_0000_0000_0000_0000, if mode.SWAP? then k else 7 - k)
            && b[8 + k] == OctetAt(ctr % 0x1_0000_0000_0000_0000 + i, 7 - k)
  {
    hide CounterBlock, BuildIvCtr, Swap64, OctetAt;
    CounterBlockValue(iv, ctr, i, mode);
    BigAt(PackedIv(iv, mode), 8, k);
    BigAt(Low64(ctr) + i, 8, k);
    if mode.SWAP? {
      SwappedOctets(Low64(iv), 7 - k);
    }
  }

  /** `y` is `x` with its eight octets in reverse order. */
  ghost predicate OctetsReversed(x: U64, y: U64) {
    forall k | 0 <= k < 8 :: OctetAt(y, k) == OctetAt(x, 7 - k)
  }

  lemma ReversedIsSwapped(x: U64, y: U64)
    requires OctetsReversed(x, y)
    ensures y == Swap64(x)
  {
    hide Swap64, OctetAt;
    Powers();
    forall k | 0 <= k < 8
      ensures OctetAt(y, k) == OctetAt(Swap64(x), k)
    {
      SwappedOctets(x, k);
    }
    OctetsDetermine(y, Swap64(x), 8);
  }

  /** iv' is iv plus the substream id modulo 2^64, added in the order of the octets that the mode reads. */
  lemma IvPrimeExactly(base: U64, substream: int, mode: IvMode, from: U64, to: U64)
    requires mode.SWAP? ==> OctetsReversed(base, from) && OctetsReversed(ComputeIvPrime(base, substream, mode), to)
    ensures mode.SPEC? ==> ComputeIvPrime(base, substream, mode) == (base + substream) % 0x1_0000_0000_0000_0000
    ensures mode.SWAP? ==> to == (from + substream) % 0x1_0000_0000_0000_0000
  {
    if mode.SWAP? {
      ReversedIsSwapped(base, from);
      ReversedIsSwapped(ComputeIvPrime(base, substream, mode), to);
      Swap64Twice(Low64(from + substream));
    }
  }

  /** The counter blocks that a text uses are those of its octets. */
  lemma SlicesExactly(length: nat, i: nat)
    ensures i < Slices(length) <==> exists k: nat :: k < length && k / 16 == i
  {
    if i < Slices(length) {
      assert 16 * i < length && 16 * i / 16 == i;
    }
  }

  /** Octets of one text that agree with another's are encrypted alike, and only those. */
  lemma EncryptedAlike(aes: Cipher, key: Bytes, iv: nat, ctr: nat, a: Bytes, b: Bytes, mode: IvMode, k: nat)
    requires |a| == |b| && k < |a|
    ensures PepEncrypt(aes, key, iv, ctr, a, mode)[k] == PepEncrypt(aes, key, iv, ctr, b, mode)[k] <==> a[k] == b[k]
  {
    hide Xor, BuildIvCtr, NumberedBlock, FromBig;
    var m := aes(key, Counter(BuildIvCtr(iv, ctr, mode))(k / BLOCK))[k % BLOCK];
    XorTwice(a[k], m);
    XorTwice(b[k], m);
  }

  /** In particular, texts are encrypted alike from some octet on exactly when they agree from there on. */
  lemma EncryptedTails(aes: Cipher, key: Bytes, iv: nat, ctr: nat, a: Bytes, b: Bytes, mode: IvMode, from: nat)
    requires |a| == |b| && from <= |a|
    ensures var (p, q) := (PepEncrypt(aes, key, iv, ctr, a, mode), PepEncrypt(aes, key, iv, ctr, b, mode));
            && (p[from..] == q[from..] <==> a[from..] == b[from..])
            && (p[..from] == q[..from] <==> a[..from] == b[..from])
  {
    hide PepEncrypt;
    var p, q := PepEncrypt(aes, key, iv, ctr, a, mode), PepEncrypt(aes, key, iv, ctr, b, mode);
    forall k | 0 <= k < |a|
      ensures p[k] == q[k] <==> a[k] == b[k]
    {
      EncryptedAlike(aes, key, iv, ctr, a, b, mode, k);
    }
    if p[from..] == q[from..] {
      forall k | from <= k < |a|
        ensures a[k] == b[k]
      {
        assert p[from..][k - from] == q[from..][k - from];
      }
    }
    if a[from..] == b[from..] {
      forall k | from <= k < |a|
        ensures p[k] == q[k]
      {
        assert a[from..][k - from] == b[from..][k - from];
      }
    }
    if p[..from] == q[..from] {
      forall k | 0 <= k < from
        ensures a[k] == b[k]
      {
        assert p[..from][k] == q[..from][k];
      }
    }
    if a[..from] == b[..from] {
      forall k | 0 <= k < from
        ensures p[k] == q[k]
      {
        assert a[..from][k] == b[..from][k];
      }
    }
  }
}
