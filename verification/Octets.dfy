/** Octet strings and the integers they encode (`int.to_bytes`, `int.from_bytes`, `struct`). */
module Octets {

  type Byte = x: int | 0 <= x < 256
  type Bytes = seq<Byte>

  function Pow2(n: nat): nat {
    if n == 0 then 1 else 2 * Pow2(n - 1)
  }

  /** Exclusive or of the low `n` bits. */
  function XorBits(a: nat, b: nat, n: nat): (r: nat)
    ensures r < Pow2(n)
  {
    if n == 0 then 0 else 2 * XorBits(a / 2, b / 2, n - 1) + (if a % 2 == b % 2 then 0 else 1)
  }

  lemma {:induction false} XorBitsTwice(a: nat, b: nat, n: nat)
    requires a < Pow2(n)
    ensures XorBits(XorBits(a, b, n), b, n) == a
  {
    if n > 0 {
      var x, half := XorBits(a, b, n), XorBits(a / 2, b / 2, n - 1);
      assert x / 2 == half && x % 2 == if a % 2 == b % 2 then 0 else 1;
      XorBitsTwice(a / 2, b / 2, n - 1);
    }
  }

  function Xor(a: Byte, b: Byte): Byte {
    assert Pow2(8) == 256 by { assert Pow2(4) == 16; }
    XorBits(a, b, 8)
  }

  lemma XorTwice(a: Byte, b: Byte)
    ensures Xor(Xor(a, b), b) == a
  {
    assert Pow2(4) == 16;
    XorBitsTwice(a, b, 8);
  }

  function Pow256(n: nat): nat {
    if n == 0 then 1 else 256 * Pow256(n - 1)
  }

  /** The low `n` octets of `x`, most significant first. */
  function Big(x: nat, n: nat): (s: Bytes)
    ensures |s| == n
  {
    if n == 0 then [] else Big(x / 256, n - 1) + [x % 256]
  }

  function FromBig(s: Bytes): nat {
    if s == [] then 0 else 256 * FromBig(s[..|s| - 1]) + s[|s| - 1]
  }

  function Reverse(s: Bytes): (r: Bytes)
    ensures |r| == |s|
  {
    seq(|s|, i requires 0 <= i < |s| => s[|s| - 1 - i])
  }

  lemma ReverseTwice(s: Bytes)
    ensures Reverse(Reverse(s)) == s
  {
  }

  lemma {:induction false} FromBigOfBig(x: nat, n: nat)
    requires x < Pow256(n)
    ensures FromBig(Big(x, n)) == x
  {
    if n > 0 {
      FromBigOfBig(x / 256, n - 1);
      assert Big(x, n)[..n - 1] == Big(x / 256, n - 1);
    }
  }

  lemma {:induction false} BigOfFromBig(s: Bytes)
    ensures FromBig(s) < Pow256(|s|) && Big(FromBig(s), |s|) == s
  {
    if s != [] {
      var init, last := s[..|s| - 1], s[|s| - 1];
      BigOfFromBig(init);
      assert s == init + [last];
    }
  }

  lemma FromBigAppend(s: Bytes, x: Byte)
    ensures FromBig(s + [x]) == 256 * FromBig(s) + x
  {
    assert (s + [x])[..|s|] == s;
  }

  lemma Regroup(x: int, p: int, y: int, z: int)
    ensures 256 * (x * p + y) + z == x * (256 * p) + (256 * y + z)
  {
  }

  lemma Pow256Next(n: nat)
    ensures Pow256(n + 1) == 256 * Pow256(n)
  {
  }

  lemma {:induction false} FromBigConcat(a: Bytes, b: Bytes)
    ensures FromBig(a + b) == FromBig(a) * Pow256(|b|) + FromBig(b)
  {
    if b == [] {
      assert a + b == a;
    } else {
      var init, last := b[..|b| - 1], b[|b| - 1];
      assert b == init + [last] && a + b == a + init + [last];
      FromBigConcat(a, init);
      FromBigAppend(a + init, last);
      FromBigAppend(init, last);
      Pow256Next(|init|);
      Regroup(FromBig(a), Pow256(|init|), FromBig(init), last);
    }
  }

  lemma Powers()
    ensures Pow256(3) == 0x100_0000 && Pow256(4) == 0x1_0000_0000
    ensures Pow256(8) == 0x1_0000_0000_0000_0000
    ensures Pow256(16) == 0x1_0000_0000_0000_0000 * 0x1_0000_0000_0000_0000
  {
    assert Pow256(2) == 0x1_0000;
    assert Pow256(4) == 0x1_0000_0000;
    assert Pow256(6) == 0x1_0000_0000_0000;
    assert Pow256(8) == 0x1_0000_0000_0000_0000;
    assert Pow256(10) == 0x1_0000_0000_0000_0000_0000;
    assert Pow256(12) == 0x1_0000_0000_0000_0000_0000_0000;
    assert Pow256(14) == 0x1_0000_0000_0000_0000_0000_0000_0000;
  }

  // ---------------------------------------------------------------------------
  // Bit by bit and octet by octet
  // ---------------------------------------------------------------------------

  /** Bit `j` of `x`, least significant first. */
  function Bit(x: nat, j: nat): nat {
    if j == 0 then x % 2 else Bit(x / 2, j - 1)
  }

  /** Octet `j` of `x`, least significant first. */
  function OctetAt(x: nat, j: nat): Byte {
    if j == 0 then x % 256 else OctetAt(x / 256, j - 1)
  }

  lemma {:induction false} XorBitsAt(a: nat, b: nat, n: nat, j: nat)
    requires j < n
    ensures Bit(XorBits(a, b, n), j) == 1 <==> Bit(a, j) != Bit(b, j)
  {
    var x, half := XorBits(a, b, n), XorBits(a / 2, b / 2, n - 1);
    assert x / 2 == half && x % 2 == if a % 2 == b % 2 then 0 else 1;
    if j > 0 {
      XorBitsAt(a / 2, b / 2, n - 1, j - 1);
      BitIsBit(a / 2, j - 1);
      BitIsBit(b / 2, j - 1);
    }
  }

  lemma {:induction false} BitIsBit(x: nat, j: nat)
    ensures Bit(x, j) == 0 || Bit(x, j) == 1
  {
    if j > 0 {
      BitIsBit(x / 2, j - 1);
    }
  }

  /** Exclusive or, bit by bit. */
  lemma XorAt(a: Byte, b: Byte, j: nat)
    requires j < 8
    ensures Bit(Xor(a, b), j) == 1 <==> Bit(a, j) != Bit(b, j)
  {
    XorBitsAt(a, b, 8, j);
  }

  /** Big-endian octets, one by one. */
  lemma {:induction false} BigAt(x: nat, n: nat, k: nat)
    requires k < n
    ensures Big(x, n)[k] == OctetAt(x, n - 1 - k)
  {
    if k < n - 1 {
      BigAt(x / 256, n - 1, k);
    }
  }

  lemma DivideOnce(z: nat, t: nat)
    requires t < 256
    ensures (256 * z + t) / 256 == z && (256 * z + t) % 256 == t
  {
  }

  lemma DivideTwice(x: nat, p: nat)
    requires p > 0
    ensures x % (256 * p) / 256 == x / 256 % p && x % (256 * p) % 256 == x % 256
  {
    Euclid(x, 256 * p);
    SplitFrom(x, p, x / (256 * p), x % (256 * p));
  }

  lemma Euclid(x: nat, d: nat)
    requires d > 0
    ensures x == x / d * d + x % d && 0 <= x / d && x % d < d
  {
  }

  lemma SplitFrom(x: nat, p: nat, q: nat, r: nat)
    requires r < 256 * p && x == q * (256 * p) + r
    ensures r / 256 == x / 256 % p && r % 256 == x % 256
  {
    SplitTwice(x, p, q, r / 256, r % 256);
  }

  lemma SplitTwice(x: nat, p: nat, q: nat, s: nat, t: nat)
    requires t < 256 && s < p && x == q * (256 * p) + (256 * s + t)
    ensures x / 256 % p == s && x % 256 == t
  {
    Regroup(q, p, s, t);
    DivideOnce(q * p + s, t);
    RemainderIs(q, p, s);
  }

  lemma RemainderIs(q: nat, p: nat, s: nat)
    requires s < p
    ensures (q * p + s) % p == s
  {
    var m := q * p + s;
    var d, e := m / p, m % p;
    assert m == d * p + e;
    if d < q {
      Multiple(d + 1, q, p);
    } else if q < d {
      Multiple(q + 1, d, p);
    }
  }

  lemma {:induction false} Multiple(a: nat, b: nat, p: nat)
    requires a <= b
    ensures a * p <= b * p
  {
    if a < b {
      Multiple(a, b - 1, p);
      assert b * p == (b - 1) * p + p;
    }
  }

  lemma {:induction false} PowerPositive(n: nat)
    ensures Pow256(n) > 0
  {
    if n > 0 {
      PowerPositive(n - 1);
    }
  }

  /** Only the low `n` octets matter to `n` octets. */
  lemma {:induction false} BigOfLow(x: nat, n: nat)
    requires Pow256(n) > 0
    ensures Big(x % Pow256(n), n) == Big(x, n)
  {
    if n > 0 {
      PowerPositive(n - 1);
      DivideTwice(x, Pow256(n - 1));
      BigOfLow(x / 256, n - 1);
    }
  }

  /** Numbers with the same low octets are equal. */
  lemma {:induction false} OctetsDetermine(x: nat, y: nat, n: nat)
    requires x < Pow256(n) && y < Pow256(n)
    requires forall j | 0 <= j < n :: OctetAt(x, j) == OctetAt(y, j)
    ensures x == y
  {
    if n > 0 {
      assert OctetAt(x, 0) == OctetAt(y, 0);
      forall j | 0 <= j < n - 1
        ensures OctetAt(x / 256, j) == OctetAt(y / 256, j)
      {
        assert OctetAt(x, j + 1) == OctetAt(y, j + 1);
      }
      OctetsDetermine(x / 256, y / 256, n - 1);
    }
  }
}
