/**
  The IEEE 802.3 CRC-32 as its bit-serial register: 32 coefficients, bit 0 the
  next to leave, fed the message bits in transmission order.
 */
module Crc32 {
  import opened Bytes

  type Register = r: seq<bool> | |r| == 32 witness seq(32, i => false)

  /** The register whose every coefficient is `b`. */
  function Constant(b: bool): Register {
    seq(32, i => b)
  }

  /** The set bits of the reflected generator polynomial 0xEDB88320. */
  predicate Tap(i: int) {
    i in {5, 8, 9, 15, 19, 20, 21, 23, 24, 26, 27, 29, 30, 31}
  }

  function Next(r: Register, bit: bool): Register {
    seq(32, i requires 0 <= i < 32 =>
      (i + 1 < 32 && r[i + 1]) != ((r[0] != bit) && Tap(i)))
  }

  function Feed(r: Register, bits: seq<bool>): Register {
    if bits == [] then r else Next(Feed(r, bits[..|bits| - 1]), bits[|bits| - 1])
  }

  function Complement(r: Register): Register {
    seq(32, i requires 0 <= i < 32 => !r[i])
  }

  /** The register after the bytes `bs`, started from all ones. */
  function Digest(bs: ByteString): Register {
    Feed(Constant(true), BitsOf(bs))
  }

  /** The final sum in network order: four bytes, most significant first. */
  function SumBytes(r: Register): (bs: ByteString)
    ensures |bs| == 4
  {
    var w := Complement(r);
    [ByteAt(w, 24), ByteAt(w, 16), ByteAt(w, 8), ByteAt(w, 0)]
  }

  function ByteAt(w: Register, lo: nat): byte
    requires lo + 8 <= 32
  {
    BitsCanonical(w[lo..lo + 8]);
    assert Pow2(8) == 256;
    FromBits(w[lo..lo + 8])
  }

  lemma ByteAtBits(w: Register, lo: nat)
    requires lo + 8 <= 32
    ensures LowBits(ByteAt(w, lo), 8) == w[lo..lo + 8]
  {
    BitsCanonical(w[lo..lo + 8]);
  }

  lemma SumBytesInjective(r: Register, s: Register)
    requires SumBytes(r) == SumBytes(s)
    ensures r == s
  {
    hide ByteAt, LowBits;
    var v, w := Complement(r), Complement(s);
    ByteAtBits(v, 0); ByteAtBits(v, 8); ByteAtBits(v, 16); ByteAtBits(v, 24);
    ByteAtBits(w, 0); ByteAtBits(w, 8); ByteAtBits(w, 16); ByteAtBits(w, 24);
    var bs := SumBytes(r);
    assert bs[3] == ByteAt(v, 0) == ByteAt(w, 0) && bs[2] == ByteAt(v, 8) == ByteAt(w, 8);
    assert bs[1] == ByteAt(v, 16) == ByteAt(w, 16) && bs[0] == ByteAt(v, 24) == ByteAt(w, 24);
    assert v == v[0..8] + v[8..16] + v[16..24] + v[24..32];
    assert w == w[0..8] + w[8..16] + w[16..24] + w[24..32];
    forall i | 0 <= i < 32 ensures r[i] == s[i] {
      assert v[i] == !r[i] && w[i] == !s[i];
    }
  }

  // Feeding is a homomorphism, so a sum over two writes is the sum of the
  // concatenation.

  lemma {:induction false} FeedConcat(r: Register, a: seq<bool>, b: seq<bool>)
    ensures Feed(r, a + b) == Feed(Feed(r, a), b)
  {
    if b == [] {
      assert a + b == a;
    } else {
      FeedConcat(r, a, b[..|b| - 1]);
      assert (a + b)[..|a + b| - 1] == a + b[..|b| - 1];
    }
  }

  lemma DigestConcat(a: ByteString, b: ByteString)
    ensures Digest(a + b) == Feed(Digest(a), BitsOf(b))
  {
    BitsOfConcat(a, b);
    FeedConcat(Constant(true), BitsOf(a), BitsOf(b));
  }

  // The register is linear over exclusive or: the difference of two runs is the
  // run of the differences.

  function Xor(a: seq<bool>, b: seq<bool>): (c: seq<bool>)
    requires |a| == |b|
    ensures |c| == |a|
  {
    seq(|a|, i requires 0 <= i < |a| => a[i] != b[i])
  }

  lemma NextXor(r: Register, s: Register, a: bool, b: bool)
    ensures Next(Xor(r, s), a != b) == Xor(Next(r, a), Next(s, b))
  {
  }

  lemma {:induction false} FeedXor(r: Register, s: Register, a: seq<bool>, b: seq<bool>)
    requires |a| == |b|
    ensures Feed(Xor(r, s), Xor(a, b)) == Xor(Feed(r, a), Feed(s, b))
  {
    if a != [] {
      var n := |a| - 1;
      FeedXor(r, s, a[..n], b[..n]);
      assert Xor(a, b)[..n] == Xor(a[..n], b[..n]);
      NextXor(Feed(r, a[..n]), Feed(s, b[..n]), a[n], b[n]);
    }
  }

  /** The bit that leaves the register at step `k` and feeds back. */
  ghost function Feedback(e: seq<bool>, k: nat): bool
    requires k < |e|
  {
    Feed(Constant(false), e[..k])[0] != e[k]
  }

  ghost predicate OnlyLow(r: Register, j: nat) {
    forall i :: j <= i < 32 ==> !r[i]
  }

  /** Before the last `j` steps of a run that ends at zero, only the low `j` bits can be set. */
  lemma {:induction false} ZeroRunBackwards(e: seq<bool>, j: nat)
    requires j <= |e| <= 32
    requires Feed(Constant(false), e) == Constant(false)
    ensures OnlyLow(Feed(Constant(false), e[..|e| - j]), j)
    ensures forall k :: |e| - j <= k < |e| ==> !Feedback(e, k)
  {
    if j == 0 {
      assert e[..|e|] == e;
    } else {
      ZeroRunBackwards(e, j - 1);
      var k := |e| - j;
      var before, after := Feed(Constant(false), e[..k]), Feed(Constant(false), e[..k + 1]);
      assert e[..k + 1][..k] == e[..k];
      assert after == Next(before, e[k]);
      assert !after[31] && after[31] == Feedback(e, k);
      forall i | j <= i < 32 ensures !before[i] {
        assert !after[i - 1] && after[i - 1] == before[i];
      }
    }
  }

  lemma {:induction false} NoFeedbackStaysZero(e: seq<bool>, k: nat)
    requires k <= |e|
    requires forall i :: 0 <= i < |e| ==> !Feedback(e, i)
    ensures Feed(Constant(false), e[..k]) == Constant(false)
    ensures forall i :: 0 <= i < k ==> !e[i]
  {
    if k > 0 {
      NoFeedbackStaysZero(e, k - 1);
      assert e[..k][..k - 1] == e[..k - 1];
      assert !Feedback(e, k - 1);
      assert Feed(Constant(false), e[..k]) == Next(Constant(false), false);
      assert Next(Constant(false), false) == Constant(false);
    }
  }

  /** Up to 32 differing bits cannot cancel: two equal-length runs from one register end apart. */
  lemma WindowInjective(r: Register, a: seq<bool>, b: seq<bool>)
    requires |a| == |b| <= 32
    requires Feed(r, a) == Feed(r, b)
    ensures a == b
  {
    var e := Xor(a, b);
    assert Xor(r, r) == Constant(false) && Xor(Feed(r, a), Feed(r, b)) == Constant(false);
    FeedXor(r, r, a, b);
    ZeroRunBackwards(e, |e|);
    NoFeedbackStaysZero(e, |e|);
    forall i | 0 <= i < |a| ensures a[i] == b[i] {
      assert !e[i];
    }
  }

  lemma NextInjective(r: Register, s: Register, bit: bool)
    requires Next(r, bit) == Next(s, bit)
    ensures r == s
  {
    assert Next(r, bit)[31] == (r[0] != bit) && Next(s, bit)[31] == (s[0] != bit);
    forall i | 0 <= i < 32 ensures r[i] == s[i] {
      if i > 0 {
        assert Next(r, bit)[i - 1] == Next(s, bit)[i - 1];
      }
    }
  }

  lemma {:induction false} FeedInjective(r: Register, s: Register, bits: seq<bool>)
    requires Feed(r, bits) == Feed(s, bits)
    ensures r == s
  {
    if bits != [] {
      var n := |bits| - 1;
      NextInjective(Feed(r, bits[..n]), Feed(s, bits[..n]), bits[n]);
      FeedInjective(r, s, bits[..n]);
    }
  }

  /** Messages of one length that differ only within 32 consecutive bits, wherever these start, have different sums. */
  lemma BurstChangesSum(a: ByteString, b: ByteString, at: nat, length: nat)
    requires |a| == |b| && a != b && length <= 32 && at + length <= 8 * |a|
    requires BitsOf(a)[..at] == BitsOf(b)[..at] && BitsOf(a)[at + length..] == BitsOf(b)[at + length..]
    ensures SumBytes(Digest(a)) != SumBytes(Digest(b))
  {
    hide BitsOf, Feed, SumBytes;
    if SumBytes(Digest(a)) == SumBytes(Digest(b)) {
      SumBytesInjective(Digest(a), Digest(b));
      var v, w := BitsOf(a), BitsOf(b);
      FeedParts(Constant(true), v, at, length);
      FeedParts(Constant(true), w, at, length);
      var before := Feed(Constant(true), v[..at]);
      FeedInjective(Feed(before, v[at..at + length]), Feed(before, w[at..at + length]), v[at + length..]);
      WindowInjective(before, v[at..at + length], w[at..at + length]);
      assert v == v[..at] + v[at..at + length] + v[at + length..];
      assert w == w[..at] + w[at..at + length] + w[at + length..];
      BitsOfInjective(a, b);
    }
  }

  lemma FeedParts(r: Register, bits: seq<bool>, at: nat, length: nat)
    requires at + length <= |bits|
    ensures Feed(r, bits) == Feed(Feed(Feed(r, bits[..at]), bits[at..at + length]), bits[at + length..])
  {
    FeedConcat(r, bits[..at], bits[at..at + length]);
    assert bits[..at] + bits[at..at + length] == bits[..at + length];
    FeedConcat(r, bits[..at + length], bits[at + length..]);
    assert bits[..at + length] + bits[at + length..] == bits;
  }

  /** In particular, every change confined to four consecutive bytes changes the sum. */
  lemma FourBytesChangeSum(front: ByteString, window: ByteString, altered: ByteString, back: ByteString)
    requires |window| == |altered| <= 4
    requires window != altered
    ensures SumBytes(Digest(front + window + back)) != SumBytes(Digest(front + altered + back))
  {
    hide Digest, SumBytes;
    var a, b := front + window + back, front + altered + back;
    BitsInWindow(front, window, back);
    BitsInWindow(front, altered, back);
    assert a[|front|..|front| + |window|] == window && b[|front|..|front| + |window|] == altered;
    BurstChangesSum(a, b, 8 * |front|, 8 * |window|);
  }

  lemma BitsInWindow(front: ByteString, window: ByteString, back: ByteString)
    ensures var bits, at, n := BitsOf(front + window + back), 8 * |front|, 8 * |window|;
            && at + n <= |bits| && bits[..at] == BitsOf(front) && bits[at + n..] == BitsOf(back)
  {
    hide BitsOf;
    BitsOfConcat(front + window, back);
    BitsOfConcat(front, window);
  }
}
