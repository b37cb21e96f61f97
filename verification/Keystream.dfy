/** Segments chained on one counter, and the counter blocks that whole runs consume. */
module Keystream {
  import opened Octets
  import opened Pep

  // ---------------------------------------------------------------------------
  // Splitting a segment at a block boundary
  // ---------------------------------------------------------------------------

  lemma LowAdd(x: nat, n: nat)
    ensures Low64(x) + n < M ==> Low64(x + n) == Low64(x) + n
  {
  }

  lemma BlockHalves(h1: U64, l1: U64, h2: U64, l2: U64)
    ensures Big(h1, 8) + Big(l1, 8) == Big(h2, 8) + Big(l2, 8) <==> h1 == h2 && l1 == l2
  {
    Powers();
    FromBigOfBig(h1, 8);
    FromBigOfBig(h2, 8);
    FromBigOfBig(l1, 8);
    FromBigOfBig(l2, 8);
    var a, b := Big(h1, 8) + Big(l1, 8), Big(h2, 8) + Big(l2, 8);
    assert a[..8] == Big(h1, 8) && a[8..] == Big(l1, 8) && b[..8] == Big(h2, 8) && b[8..] == Big(l2, 8);
  }

  ghost predicate ContinuesAt(iv: nat, ctr: nat, n: nat, i: nat, mode: IvMode) {
    CounterBlock(BuildIvCtr(iv, ctr, mode), n + i) == CounterBlock(BuildIvCtr(iv, ctr + n, mode), i)
  }

  /** Big-endian octets tell 128-bit values apart. */
  lemma NumberedApart(x: nat, y: nat)
    ensures NumberedBlock(x) == NumberedBlock(y) <==> Low128(x) == Low128(y)
  {
    Powers();
    FromBigOfBig(Low128(x), BLOCK);
    FromBigOfBig(Low128(y), BLOCK);
  }

  lemma Low128Shift(y: nat, c: nat)
    ensures Low128(y + c) == Low128(y) <==> Low128(c) == 0
  {
  }

  lemma LowsStep(y: nat)
    ensures Low128(y + 0x1_0000_0000_0000_0000_0000_0000_0000_0000) == Low128(y)
    ensures Low64(y + 0x1_0000_0000_0000_0000_0000_0000_0000_0000) == Low64(y)
  {
  }

  lemma {:induction false} LowsOf(k: nat, r: nat)
    requires r < 0x1_0000_0000_0000_0000_0000_0000_0000_0000
    ensures Low128(k * 0x1_0000_0000_0000_0000_0000_0000_0000_0000 + r) == r
    ensures Low64(k * 0x1_0000_0000_0000_0000_0000_0000_0000_0000 + r) == Low64(r)
  {
    if k > 0 {
      LowsOf(k - 1, r);
      LowsStep((k - 1) * 0x1_0000_0000_0000_0000_0000_0000_0000_0000 + r);
    }
  }

  lemma CarriesOf(x: nat)
    ensures Low128(x - Low64(x)) == 0 <==> Low128(x) < M
  {
    var k, r := x / 0x1_0000_0000_0000_0000_0000_0000_0000_0000, Low128(x);
    LowsOf(k, r);
    LowsOf(k, r - Low64(r));
  }

  /** The carries out of the low half of `x` are lost exactly when they wrap around the high half. */
  lemma CarriesLost(a: nat, x: nat)
    ensures Low128(a + x) == Low128(a + Low64(x)) <==> Low128(x) < M
  {
    var c := x - Low64(x);
    assert a + x == a + Low64(x) + c;
    Low128Shift(a + Low64(x), c);
    CarriesOf(x);
  }

  lemma ContinuesNumbered(iv: nat, ctr: nat, n: nat, i: nat, mode: IvMode, a: nat, x: nat)
    requires a == PackedIv(iv, mode) * M + i && x == Low64(ctr) + n
    ensures ContinuesAt(iv, ctr, n, i, mode) <==> NumberedBlock(a + x) == NumberedBlock(a + Low64(x))
  {
    hide NumberedBlock, PackedIv, BuildIvCtr, FromBig;
    LowLow(ctr, n);
    CounterBlockNumber(iv, ctr, n + i, mode);
    CounterBlockNumber(iv, ctr + n, i, mode);
  }

  lemma ContinuesByNumber(iv: nat, ctr: nat, n: nat, i: nat, mode: IvMode)
    ensures ContinuesAt(iv, ctr, n, i, mode) <==> Low128(Low64(ctr) + n) < M
  {
    hide ContinuesAt, NumberedBlock, Low128;
    var a, x := PackedIv(iv, mode) * M + i, Low64(ctr) + n;
    ContinuesNumbered(iv, ctr, n, i, mode, a, x);
    CarriesLost(a, x);
    NumberedApart(a + x, a + Low64(x));
  }

  /**
   Continuing over `n` blocks is the same as starting anew at `ctr + n` exactly if the counter
   has not overflowed, or so often that the carries wrapped around iv' as well.
   */
  lemma ContinuesExactly(iv: nat, ctr: nat, n: nat, mode: IvMode)
    ensures Low128(Low64(ctr) + n) < M <==> forall i: nat :: ContinuesAt(iv, ctr, n, i, mode)
    ensures Low64(ctr) + n < M * M ==> (Low64(ctr) + n < M <==> forall i: nat :: ContinuesAt(iv, ctr, n, i, mode))
  {
    forall i: nat
      ensures ContinuesAt(iv, ctr, n, i, mode) <==> Low128(Low64(ctr) + n) < M
    {
      ContinuesByNumber(iv, ctr, n, i, mode);
    }
    assert ContinuesAt(iv, ctr, n, 0, mode) <==> Low128(Low64(ctr) + n) < M;
  }

  lemma BlockIndex(n: nat, k: nat)
    ensures (BLOCK * n + k) / BLOCK == n + k / BLOCK && (BLOCK * n + k) % BLOCK == k % BLOCK
  {
  }

  /** The second stream of blocks is the first from block `n` on. */
  ghost predicate Continues(blocks: nat -> Bytes, blocks': nat -> Bytes, n: nat) {
    forall i: nat {:trigger blocks'(i)} :: blocks'(i) == blocks(n + i)
  }

  /** Counter mode splits wherever the second stream of blocks continues the first. */
  lemma CtrModeSplits(aes: Cipher, key: Bytes, blocks: nat -> Bytes, blocks': nat -> Bytes, a: Bytes, b: Bytes, n: nat)
    requires |a| == BLOCK * n && Continues(blocks, blocks', n)
    ensures CtrMode(aes, key, blocks, a + b) == CtrMode(aes, key, blocks, a) + CtrMode(aes, key, blocks', b)
  {
    var whole, second := CtrMode(aes, key, blocks, a + b), CtrMode(aes, key, blocks', b);
    forall k | 0 <= k < |b|
      ensures whole[|a| + k] == second[k]
    {
      BlockIndex(n, k);
      assert blocks'(k / BLOCK) == blocks(n + k / BLOCK);
    }
  }

  /** The encryption of a + b is that of a, followed by that of b at block `n`. */
  ghost predicate SplitsAt(aes: Cipher, key: Bytes, iv: nat, ctr: nat, a: Bytes, b: Bytes, n: nat, mode: IvMode) {
    PepEncrypt(aes, key, iv, ctr, a + b, mode)
    == PepEncrypt(aes, key, iv, ctr, a, mode) + PepEncrypt(aes, key, iv, ctr + n, b, mode)
  }

  lemma SplitsInside(aes: Cipher, key: Bytes, iv: nat, ctr: nat, a: Bytes, b: Bytes, n: nat, mode: IvMode)
    requires |a| == BLOCK * n && a != [] && b != [] && Low64(ctr) + n < M
    ensures SplitsAt(aes, key, iv, ctr, a, b, n, mode)
  {
    hide CtrMode, Counter, Low64;
    ContinuedCounter(iv, ctr, n, mode);
    CtrModeSplits(aes, key, Counter(BuildIvCtr(iv, ctr, mode)), Counter(BuildIvCtr(iv, ctr + n, mode)), a, b, n);
  }

  lemma SplitsBefore(aes: Cipher, key: Bytes, iv: nat, ctr: nat, b: Bytes, mode: IvMode)
    ensures SplitsAt(aes, key, iv, ctr, [], b, 0, mode)
  {
    hide CtrMode;
    assert [] + b == b && PepEncrypt(aes, key, iv, ctr, [], mode) == [];
  }

  lemma SplitsAfter(aes: Cipher, key: Bytes, iv: nat, ctr: nat, a: Bytes, n: nat, mode: IvMode)
    ensures SplitsAt(aes, key, iv, ctr, a, [], n, mode)
  {
    hide CtrMode;
    assert a + [] == a && PepEncrypt(aes, key, iv, ctr + n, [], mode) == [];
  }

  lemma TextSplits(aes: Cipher, key: Bytes, iv: nat, ctr: nat, a: Bytes, b: Bytes, n: nat, mode: IvMode)
    requires |a| == BLOCK * n && (b == [] || Low64(ctr) + n < M)
    ensures SplitsAt(aes, key, iv, ctr, a, b, n, mode)
  {
    hide PepEncrypt, SplitsAt;
    if b == [] {
      SplitsAfter(aes, key, iv, ctr, a, n, mode);
    } else if a == [] {
      SplitsBefore(aes, key, iv, ctr, b, mode);
    } else {
      SplitsInside(aes, key, iv, ctr, a, b, n, mode);
    }
  }

  lemma CountContinues(f: nat -> Bytes, start: nat, n: nat)
    ensures Continues(CountFrom(f, start), CountFrom(f, start + n), n)
  {
  }

  lemma ContinuedNumber(iv: nat, ctr: nat, n: nat, mode: IvMode)
    requires Low64(ctr) + n < M
    ensures FromBig(BuildIvCtr(iv, ctr + n, mode)) == FromBig(BuildIvCtr(iv, ctr, mode)) + n
  {
    LowAdd(ctr, n);
    InitialNumber(iv, ctr, mode);
    InitialNumber(iv, ctr + n, mode);
  }

  lemma ContinuedCounter(iv: nat, ctr: nat, n: nat, mode: IvMode)
    requires Low64(ctr) + n < M
    ensures Continues(Counter(BuildIvCtr(iv, ctr, mode)), Counter(BuildIvCtr(iv, ctr + n, mode)), n)
  {
    ContinuedNumber(iv, ctr, n, mode);
    CountContinues(NumberedBlock, FromBig(BuildIvCtr(iv, ctr, mode)), n);
  }

  lemma SlicesAdd(n: nat, length: nat)
    ensures Slices(BLOCK * n) == n && Slices(BLOCK * n + length) == n + Slices(length)
  {
    BlockIndex(n, BLOCK - 1);
    BlockIndex(n, length + BLOCK - 1);
  }

  lemma SlicesSplit(a: Bytes, b: Bytes, n: nat)
    requires |a| == BLOCK * n
    ensures Slices(|a|) == n && Slices(|a + b|) == n + Slices(|b|)
  {
    SlicesAdd(n, |b|);
  }

  /** Encrypting a + b is encrypting a, then b from the counter that a returned. */
  lemma EncryptSplits(aes: Cipher, key: Bytes, iv: nat, ctr: nat, a: Bytes, b: Bytes, mode: IvMode)
    requires |a| % BLOCK == 0
    requires b == [] || Low64(ctr) + Slices(|a|) < M
    ensures var (first, next) := PepEncryptSlices(aes, key, iv, ctr, a, mode);
            var (second, last) := PepEncryptSlices(aes, key, iv, next, b, mode);
            PepEncryptSlices(aes, key, iv, ctr, a + b, mode) == (first + second, last)
  {
    hide PepEncrypt;
    var n := |a| / BLOCK;
    SlicesSplit(a, b, n);
    TextSplits(aes, key, iv, ctr, a, b, n, mode);
  }

  // ---------------------------------------------------------------------------
  // No counter block is used twice
  // ---------------------------------------------------------------------------

  /** One substream: its id, its first counter, and the lengths of the segments it encrypts. */
  datatype Substream = Substream(id: int, start: nat, segments: seq<nat>)

  function TotalSlices(segments: seq<nat>): nat {
    if segments == [] then 0 else Slices(segments[0]) + TotalSlices(segments[1..])
  }

  /** The counter at which segment `k` starts, chained by `pep_encrypt_slices`. */
  function CtrAt(s: Substream, k: nat): nat
    requires k <= |s.segments|
  {
    s.start + TotalSlices(s.segments[..k])
  }

  ghost predicate Uses(s: Substream, k: nat, i: nat) {
    k < |s.segments| && i < Slices(s.segments[k])
  }

  /** Counter block `i` of segment `k`. */
  function BlockAt(base: U64, s: Substream, k: nat, i: nat, mode: IvMode): Bytes
    requires k < |s.segments|
  {
    CounterBlock(BuildIvCtr(ComputeIvPrime(base, s.id, mode), CtrAt(s, k), mode), i)
  }

  predicate WithinCounter(s: Substream) {
    CtrAt(s, |s.segments|) <= M
  }

  lemma {:induction false} TotalSlicesAppend(a: seq<nat>, b: seq<nat>)
    ensures TotalSlices(a + b) == TotalSlices(a) + TotalSlices(b)
  {
    if a == [] {
      assert a + b == b;
    } else {
      assert (a + b)[1..] == a[1..] + b;
      TotalSlicesAppend(a[1..], b);
    }
  }

  /** A later segment starts after the last block of an earlier one. */
  lemma CtrGrows(s: Substream, k: nat, m: nat)
    requires k < m <= |s.segments|
    ensures CtrAt(s, k) + Slices(s.segments[k]) <= CtrAt(s, m)
  {
    assert s.segments[..m] == s.segments[..k] + [s.segments[k]] + s.segments[k + 1..m];
    TotalSlicesAppend(s.segments[..k] + [s.segments[k]], s.segments[k + 1..m]);
    TotalSlicesAppend(s.segments[..k], [s.segments[k]]);
    assert TotalSlices([s.segments[k]]) == Slices(s.segments[k]) by {
      assert [s.segments[k]][1..] == [];
    }
  }

  /** The high half of the blocks of substream `id`. */
  function HighHalf(base: U64, id: int, mode: IvMode): U64 {
    Low64((if mode.SWAP? then Swap64(base) else base) + id)
  }

  lemma SpecForm(base: U64, id: int)
    ensures PackedIv(ComputeIvPrime(base, id, SPEC), SPEC) == Low64(base + id)
  {
  }

  lemma SwapForm(base: U64, id: int)
    ensures PackedIv(ComputeIvPrime(base, id, SWAP), SWAP) == Low64(Swap64(base) + id)
  {
    Swap64Twice(Low64(Swap64(base) + id));
  }

  lemma PackedForm(base: U64, id: int, mode: IvMode)
    ensures PackedIv(ComputeIvPrime(base, id, mode), mode) == HighHalf(base, id, mode)
  {
    if mode.SWAP? {
      SwapForm(base, id);
    } else {
      SpecForm(base, id);
    }
  }

  lemma LowShift(x: int, a: int, b: int)
    requires Low64(a) != Low64(b)
    ensures Low64(x + a) != Low64(x + b)
  {
  }

  /** Ids that differ modulo 2^64 have different high halves. */
  lemma HighHalfInjective(base: U64, id1: int, id2: int, mode: IvMode)
    requires Low64(id1) != Low64(id2)
    ensures HighHalf(base, id1, mode) != HighHalf(base, id2, mode)
  {
    LowShift(if mode.SWAP? then Swap64(base) else base, id1, id2);
  }

  lemma CounterWithin(s: Substream, k: nat, i: nat)
    requires WithinCounter(s) && Uses(s, k, i)
    ensures CtrAt(s, k) + i < M
  {
    CtrGrows(s, k, |s.segments|);
  }

  lemma BlockHasHalves(iv: nat, ctr: nat, i: nat, mode: IvMode, high: U64)
    requires ctr + i < M && PackedIv(iv, mode) == high
    ensures HasHalves(CounterBlock(BuildIvCtr(iv, ctr, mode), i), high, ctr + i)
  {
    hide HasHalves, CounterBlock, BuildIvCtr, PackedIv;
    CounterBlockValue(iv, ctr, i, mode);
  }

  lemma BlockAtHalves(base: U64, s: Substream, k: nat, i: nat, mode: IvMode)
    requires k < |s.segments| && CtrAt(s, k) + i < M
    ensures HasHalves(BlockAt(base, s, k, i, mode), HighHalf(base, s.id, mode), CtrAt(s, k) + i)
  {
    hide HasHalves, CounterBlock, BuildIvCtr, PackedIv, ComputeIvPrime, HighHalf;
    PackedForm(base, s.id, mode);
    BlockHasHalves(ComputeIvPrime(base, s.id, mode), CtrAt(s, k), i, mode, HighHalf(base, s.id, mode));
  }

  /** Two different places of one substream have different counters. */
  lemma CountersDiffer(s: Substream, k: nat, i: nat, k': nat, i': nat)
    requires Uses(s, k, i) && Uses(s, k', i') && (k, i) != (k', i')
    ensures CtrAt(s, k) + i != CtrAt(s, k') + i'
  {
    if k < k' {
      CtrGrows(s, k, k');
    } else if k' < k {
      CtrGrows(s, k', k);
    }
  }

  lemma HalvesApart(b: Bytes, h: U64, l: U64, b': Bytes, h': U64, l': U64)
    requires HasHalves(b, h, l) && HasHalves(b', h', l') && (h != h' || l != l')
    ensures b != b'
  {
    BlockHalves(h, l, h', l');
  }

  lemma HalvesDiffer(base: U64, s: Substream, k: nat, i: nat, s': Substream, k': nat, i': nat, mode: IvMode)
    requires Uses(s, k, i) && Uses(s', k', i') && (s == s' || Low64(s.id) != Low64(s'.id))
    requires (s, k, i) != (s', k', i')
    ensures HighHalf(base, s.id, mode) != HighHalf(base, s'.id, mode) || CtrAt(s, k) + i != CtrAt(s', k') + i'
  {
    if s == s' {
      CountersDiffer(s, k, i, k', i');
    } else {
      HighHalfInjective(base, s.id, s'.id, mode);
    }
  }

  /**
   In any run, on any substreams whose ids differ modulo 2^64, no two blocks coincide as long
   as each substream's counter stays at or below 2^64.
   */
  lemma NoBlockReused(base: U64, s: Substream, k: nat, i: nat, s': Substream, k': nat, i': nat, mode: IvMode)
    requires WithinCounter(s) && Uses(s, k, i) && WithinCounter(s') && Uses(s', k', i')
    requires s == s' || Low64(s.id) != Low64(s'.id)
    requires (s, k, i) != (s', k', i')
    ensures BlockAt(base, s, k, i, mode) != BlockAt(base, s', k', i', mode)
  {
    hide BlockAt, HighHalf, CtrAt, WithinCounter, HasHalves, Low64;
    CounterWithin(s, k, i);
    CounterWithin(s', k', i');
    BlockAtHalves(base, s, k, i, mode);
    BlockAtHalves(base, s', k', i', mode);
    HalvesDiffer(base, s, k, i, s', k', i', mode);
    HalvesApart(BlockAt(base, s, k, i, mode), HighHalf(base, s.id, mode), CtrAt(s, k) + i,
                BlockAt(base, s', k', i', mode), HighHalf(base, s'.id, mode), CtrAt(s', k') + i');
  }

  lemma NextIvBlock(iv: U64)
    requires iv + 1 < M
    ensures CounterBlock(BuildIvCtr(iv, M - 1, SPEC), 1) == CounterBlock(BuildIvCtr(iv + 1, 0, SPEC), 0)
  {
    InitialNumber(iv, M - 1, SPEC);
    InitialNumber(iv + 1, 0, SPEC);
    assert (iv + 1) * M == iv * M + M;
  }

  lemma SingleSegment(id: int, start: nat, length: nat)
    ensures var s := Substream(id, start, [length]);
            CtrAt(s, 0) == start && CtrAt(s, 1) == start + Slices(length)
  {
    assert [length][..0] == [] && [length][..1] == [length] && [length][1..] == [];
    assert TotalSlices([length]) == Slices(length) + TotalSlices([]);
  }

  /** Past 2^64 the counter carries into iv' and lands on the next substream's first block. */
  lemma OverflowReuses(base: U64)
    requires base + 1 < M
    ensures var s, s' := Substream(0, M - 1, [32]), Substream(1, 0, [16]);
            && !WithinCounter(s) && Uses(s, 0, 1) && Uses(s', 0, 0)
            && BlockAt(base, s, 0, 1, SPEC) == BlockAt(base, s', 0, 0, SPEC)
  {
    SingleSegment(0, M - 1, 32);
    SingleSegment(1, 0, 16);
    NextIvBlock(base);
  }
}
