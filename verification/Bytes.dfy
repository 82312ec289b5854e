/**
  Bytes as integers below 256, with the two positional readings the recording
  format uses: big-endian unsigned integers, and the bits of a byte from the
  least significant one up.
 */
module Bytes {

  type byte = x: int | 0 <= x < 256

  type ByteString = seq<byte>

  function Pow256(k: nat): nat {
    if k == 0 then 1 else 256 * Pow256(k - 1)
  }

  /** The low `k` bytes of `n`, most significant first. */
  function BigEndian(n: nat, k: nat): (bs: ByteString)
    ensures |bs| == k
  {
    if k == 0 then [] else BigEndian(n / 256, k - 1) + [n % 256]
  }

  function FromBigEndian(bs: ByteString): nat {
    if bs == [] then 0 else FromBigEndian(bs[..|bs| - 1]) * 256 + bs[|bs| - 1]
  }

  lemma {:induction false} BigEndianRoundTrip(n: nat, k: nat)
    requires n < Pow256(k)
    ensures FromBigEndian(BigEndian(n, k)) == n
  {
    if k > 0 {
      BigEndianRoundTrip(n / 256, k - 1);
      assert BigEndian(n, k)[..k - 1] == BigEndian(n / 256, k - 1);
    }
  }

  /** Larger numbers wrap. */
  lemma {:induction false} BigEndianMod(n: nat, k: nat)
    ensures Pow256(k) > 0 && FromBigEndian(BigEndian(n, k)) == n % Pow256(k)
  {
    if k > 0 {
      BigEndianMod(n / 256, k - 1);
      assert BigEndian(n, k)[..k - 1] == BigEndian(n / 256, k - 1);
      ModStep(n, Pow256(k - 1));
    }
  }

  lemma ModStep(n: nat, p: nat)
    requires p > 0
    ensures n / 256 % p * 256 + n % 256 == n % (256 * p)
  {
    var q, r := n / 256 / p, n / 256 % p * 256 + n % 256;
    assert n / 256 == q * p + n / 256 % p;
    assert n == q * (256 * p) + r;
    assert r < 256 * p;
    ModUnique(n, 256 * p, q, r);
  }

  lemma ModUnique(n: nat, m: nat, q: nat, r: nat)
    requires n == q * m + r && r < m
    ensures n % m == r
  {
    var d := n / m - q;
    assert d * m == r - n % m;
    assert d >= 1 ==> d * m >= m;
    assert d <= -1 ==> (d + 1) * m <= 0;
  }

  lemma {:induction false} BigEndianCanonical(bs: ByteString)
    ensures FromBigEndian(bs) < Pow256(|bs|)
    ensures BigEndian(FromBigEndian(bs), |bs|) == bs
  {
    if bs != [] {
      BigEndianCanonical(bs[..|bs| - 1]);
      assert bs == bs[..|bs| - 1] + [bs[|bs| - 1]];
    }
  }

  lemma Pow256Values()
    ensures Pow256(4) == 0x1_0000_0000
    ensures Pow256(8) == 0x1_0000_0000_0000_0000
  {
    assert Pow256(4) == 256 * 256 * 256 * Pow256(1);
    assert Pow256(8) == 256 * 256 * 256 * 256 * Pow256(4);
  }

  /** The low `k` bits of `n`, least significant first. */
  function LowBits(n: nat, k: nat): (bits: seq<bool>)
    ensures |bits| == k
  {
    if k == 0 then [] else [n % 2 == 1] + LowBits(n / 2, k - 1)
  }

  function FromBits(bits: seq<bool>): nat {
    if bits == [] then 0 else (if bits[0] then 1 else 0) + 2 * FromBits(bits[1..])
  }

  function Pow2(k: nat): (p: nat)
    ensures p >= 1
  {
    if k == 0 then 1 else 2 * Pow2(k - 1)
  }

  lemma {:induction false} BitsRoundTrip(n: nat, k: nat)
    requires n < Pow2(k)
    ensures FromBits(LowBits(n, k)) == n
  {
    if k > 0 {
      BitsRoundTrip(n / 2, k - 1);
      assert LowBits(n, k)[1..] == LowBits(n / 2, k - 1);
    }
  }

  lemma {:induction false} BitsCanonical(bits: seq<bool>)
    ensures FromBits(bits) < Pow2(|bits|)
    ensures LowBits(FromBits(bits), |bits|) == bits
  {
    if bits != [] {
      BitsCanonical(bits[1..]);
      assert FromBits(bits) / 2 == FromBits(bits[1..]);
    }
  }

  /** The bits of a byte string in transmission order: each byte from its low bit. */
  function BitsOf(bs: ByteString): (bits: seq<bool>)
    ensures |bits| == 8 * |bs|
  {
    if bs == [] then [] else BitsOf(bs[..|bs| - 1]) + LowBits(bs[|bs| - 1], 8)
  }

  lemma {:induction false} BitsOfConcat(a: ByteString, b: ByteString)
    ensures BitsOf(a + b) == BitsOf(a) + BitsOf(b)
  {
    if b == [] {
      assert a + b == a;
    } else {
      var b' := b[..|b| - 1];
      BitsOfConcat(a, b');
      assert (a + b)[..|a + b| - 1] == a + b' && (a + b)[|a + b| - 1] == b[|b| - 1];
      calc {
        BitsOf(a + b);
        BitsOf(a + b') + LowBits(b[|b| - 1], 8);
        BitsOf(a) + BitsOf(b') + LowBits(b[|b| - 1], 8);
        BitsOf(a) + (BitsOf(b') + LowBits(b[|b| - 1], 8));
        BitsOf(a) + BitsOf(b);
      }
    }
  }

  lemma {:induction false} BitsOfInjective(a: ByteString, b: ByteString)
    requires |a| == |b| && BitsOf(a) == BitsOf(b)
    ensures a == b
  {
    if a != [] {
      var n := |a| - 1;
      assert BitsOf(a)[..8 * n] == BitsOf(a[..n]) && BitsOf(b)[..8 * n] == BitsOf(b[..n]);
      assert BitsOf(a)[8 * n..] == LowBits(a[n], 8) && BitsOf(b)[8 * n..] == LowBits(b[n], 8);
      BitsOfInjective(a[..n], b[..n]);
      assert Pow2(8) == 256;
      BitsRoundTrip(a[n], 8);
      BitsRoundTrip(b[n], 8);
      assert a == a[..n] + [a[n]] && b == b[..n] + [b[n]];
    }
  }
}
