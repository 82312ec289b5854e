/**
  Bursts that run from the covered bytes into the stored sum. The sum is stored
  most significant byte first while the register sends its low bit first, so
  the usual guarantee of a 32-bit code does not extend over that seam: exactly
  one pattern of four bytes, laid two bytes either side of it, goes unnoticed.
 */
module Crc32Seam {
  import opened Bytes
  import opened Crc32

  function At(f: seq<bool>, k: int): bool {
    0 <= k < |f| && f[k]
  }

  /** The sum of `f` over the taps, read back from position `j`. */
  function TapSum(f: seq<bool>, j: int): bool {
    LowTapSum(f, j) != HighTapSum(f, j)
  }

  function LowTapSum(f: seq<bool>, j: int): bool {
    (At(f, j - 5) != (At(f, j - 8) != (At(f, j - 9) !=
      (At(f, j - 15) != (At(f, j - 19) != (At(f, j - 20) != At(f, j - 21)))))))
  }

  function HighTapSum(f: seq<bool>, j: int): bool {
    (At(f, j - 23) != (At(f, j - 24) != (At(f, j - 26) !=
      (At(f, j - 27) != (At(f, j - 29) != (At(f, j - 30) != At(f, j - 31)))))))
  }

  lemma AtExtend(f: seq<bool>, b: bool, k: int)
    ensures At(f + [b], k) == (At(f, k) != (b && k == |f|))
  {
  }

  lemma LowTapSumExtend(f: seq<bool>, b: bool, j: int)
    ensures LowTapSum(f + [b], j) == (LowTapSum(f, j) != (b && (j - |f|) in {5, 8, 9, 15, 19, 20, 21}))
  {
    AtExtend(f, b, j - 5);
    AtExtend(f, b, j - 8);
    AtExtend(f, b, j - 9);
    AtExtend(f, b, j - 15);
    AtExtend(f, b, j - 19);
    AtExtend(f, b, j - 20);
    AtExtend(f, b, j - 21);
  }

  lemma HighTapSumExtend(f: seq<bool>, b: bool, j: int)
    ensures HighTapSum(f + [b], j) == (HighTapSum(f, j) != (b && (j - |f|) in {23, 24, 26, 27, 29, 30, 31}))
  {
    AtExtend(f, b, j - 23);
    AtExtend(f, b, j - 24);
    AtExtend(f, b, j - 26);
    AtExtend(f, b, j - 27);
    AtExtend(f, b, j - 29);
    AtExtend(f, b, j - 30);
    AtExtend(f, b, j - 31);
  }

  lemma TapSumExtend(f: seq<bool>, b: bool, j: int)
    ensures TapSum(f + [b], j) == (TapSum(f, j) != (b && Tap(j - |f|)))
  {
    LowTapSumExtend(f, b, j);
    HighTapSumExtend(f, b, j);
  }

  /** The feedback bits of a difference run, in order. */
  ghost function Feedbacks(e: seq<bool>): (f: seq<bool>)
    ensures |f| == |e|
  {
    if e == [] then [] else
      Feedbacks(e[..|e| - 1]) + [Feed(Constant(false), e[..|e| - 1])[0] != e[|e| - 1]]
  }

  /** The register after a difference run, bit by bit, from its feedback bits. */
  lemma {:induction false} FeedIsTapSum(e: seq<bool>, i: int)
    requires 0 <= i < 32
    ensures Feed(Constant(false), e)[i] == TapSum(Feedbacks(e), i + |e| - 1)
  {
    if e != [] {
      var n := |e| - 1;
      var f := Feedbacks(e[..n]);
      var b := Feed(Constant(false), e[..n])[0] != e[n];
      TapSumExtend(f, b, i + n);
      if i < 31 {
        FeedIsTapSum(e[..n], i + 1);
      } else {
        assert !TapSum(f, i + n);
      }
    }
  }

  lemma {:induction false} FeedbackAt(e: seq<bool>, k: nat)
    requires k < |e|
    ensures Feedbacks(e)[k] == (e[k] != TapSum(Feedbacks(e), k - 1))
  {
    var n := |e| - 1;
    var f := Feedbacks(e[..n]);
    var b := Feed(Constant(false), e[..n])[0] != e[n];
    TapSumExtend(f, b, k - 1);
    if k == n {
      FeedIsTapSum(e[..n], 0);
    } else {
      FeedbackAt(e[..n], k);
    }
  }

  // One row per low register bit that must stay clear.

  ghost predicate Rows8(f: seq<bool>)
    requires |f| == 8
  {
    && !f[2]
    && !(f[3] != f[0])
    && !(f[4] != (f[1] != f[0]))
    && !(f[5] != (f[2] != f[1]))
    && !(f[6] != (f[3] != f[2]))
    && !(f[7] != (f[4] != f[3]))
    && !(f[5] != f[4])
    && !(f[6] != f[5])
  }

  ghost predicate Rows16(f: seq<bool>)
    requires |f| == 16
  {
    && !(f[10] != (f[7] != (f[6] != f[0])))
    && !(f[11] != (f[8] != (f[7] != f[1])))
    && !(f[12] != (f[9] != (f[8] != f[2])))
    && !(f[13] != (f[10] != (f[9] != f[3])))
    && !(f[14] != (f[11] != (f[10] != (f[4] != f[0]))))
    && !(f[15] != (f[12] != (f[11] != (f[5] != (f[1] != f[0])))))
    && !(f[13] != (f[12] != (f[6] != (f[2] != (f[1] != f[0])))))
    && !(f[14] != (f[13] != (f[7] != (f[3] != (f[2] != f[1])))))
    && (f[15] != (f[14] != (f[8] != (f[4] != (f[3] != f[2]))))) == f[0]
    && (f[15] != (f[9] != (f[5] != (f[4] != f[3])))) == (f[1] != f[0])
    && (f[10] != (f[6] != (f[5] != f[4]))) == (f[2] != f[1])
    && (f[11] != (f[7] != (f[6] != f[5]))) == (f[3] != (f[2] != f[0]))
    && (f[12] != (f[8] != (f[7] != f[6]))) == (f[4] != (f[3] != (f[1] != f[0])))
    && (f[13] != (f[9] != (f[8] != f[7]))) == (f[5] != (f[4] != (f[2] != f[1])))
    && (f[14] != (f[10] != (f[9] != f[8]))) == (f[6] != (f[5] != (f[3] != (f[2] != f[0]))))
    && (f[15] != (f[11] != (f[10] != f[9]))) == (f[7] != (f[6] != (f[4] != (f[3] != (f[1] != f[0])))))
  }

  lemma SolveRows8(f: seq<bool>)
    requires |f| == 8 && Rows8(f)
    ensures f == [false, false, false, false, false, false, false, false]
  {
  }

  lemma SolveRows16(f: seq<bool>)
    requires |f| == 16 && Rows16(f)
    ensures f == if f[0] then WeakFeedback() else seq(16, i => false)
  {
  }

  function WeakFeedback(): (f: seq<bool>) {
    seq(16, i => i in {0, 5, 9, 10, 12, 15})
  }

  lemma ClearRows8(f: seq<bool>)
    requires |f| == 8
    requires forall j :: 7 <= j < 15 ==> !TapSum(f, j)
    ensures Rows8(f)
  {
    assert !TapSum(f, 7) && !TapSum(f, 8) && !TapSum(f, 9) && !TapSum(f, 10);
    assert !TapSum(f, 11) && !TapSum(f, 12) && !TapSum(f, 13) && !TapSum(f, 14);
  }

  lemma ClearRows16(f: seq<bool>)
    requires |f| == 16
    requires forall j :: 15 <= j < 31 ==> !TapSum(f, j)
    ensures Rows16(f)
  {
    assert !TapSum(f, 15) && !TapSum(f, 16) && !TapSum(f, 17) && !TapSum(f, 18);
    assert !TapSum(f, 19) && !TapSum(f, 20) && !TapSum(f, 21) && !TapSum(f, 22);
    assert !TapSum(f, 23) && !TapSum(f, 24) && !TapSum(f, 25) && !TapSum(f, 26);
    assert !TapSum(f, 27) && !TapSum(f, 28) && !TapSum(f, 29) && !TapSum(f, 30);
  }

  // Three bytes before the seam: every feedback bit in terms of the last eight.

  ghost predicate Eliminated8(f: seq<bool>)
    requires |f| == 24
  {
    && f[15] == (f[16] != (f[17] != (f[19] != (f[20] != (f[22] != f[23])))))
    && f[14] == (f[17] != (f[18] != (f[20] != (f[21] != f[23]))))
    && f[13] == (f[16] != (f[17] != (f[19] != (f[20] != (f[22] != f[23])))))
    && f[12] == (f[17] != (f[18] != (f[20] != (f[21] != f[23]))))
    && f[11] == (f[16] != (f[17] != (f[19] != (f[20] != f[22]))))
    && f[10] == (f[17] != (f[18] != (f[20] != (f[21] != (f[22] != f[23])))))
    && f[9] == (f[16] != (f[17] != (f[19] != (f[20] != (f[21] != (f[22] != f[23]))))))
    && f[8] == (f[17] != (f[18] != (f[21] != f[23])))
  }

  ghost predicate Eliminated0(f: seq<bool>)
    requires |f| == 24
  {
    && f[7] == (f[16] != (f[17] != (f[20] != f[22])))
    && f[6] == (f[17] != (f[20] != (f[21] != f[22])))
    && f[5] == (f[16] != (f[19] != (f[20] != (f[21] != f[23]))))
    && f[4] == (f[16] != (f[17] != f[18]))
    && f[3] == (f[19] != (f[20] != f[22]))
    && f[2] == (f[18] != (f[19] != (f[21] != f[23])))
    && f[1] == (f[17] != (f[18] != (f[20] != (f[22] != f[23]))))
    && f[0] == (f[16] != (f[17] != (f[19] != (f[21] != (f[22] != f[23])))))
  }

  lemma SolveEliminated8(f: seq<bool>)
    requires |f| == 24
    requires forall j :: 23 <= j < 47 ==> !TapSum(f, j)
    ensures Eliminated8(f)
  {
    assert f[15] == (f[16] != (f[17] != (f[19] != (f[20] != (f[22] != f[23]))))) by { assert !TapSum(f, 46); }
    assert f[14] == (f[17] != (f[18] != (f[20] != (f[21] != f[23])))) by { assert !TapSum(f, 45); }
    assert f[13] == (f[16] != (f[17] != (f[19] != (f[20] != (f[22] != f[23]))))) by { assert !TapSum(f, 44); }
    assert f[12] == (f[17] != (f[18] != (f[20] != (f[21] != f[23])))) by { assert !TapSum(f, 43); }
    assert f[11] == (f[16] != (f[17] != (f[19] != (f[20] != f[22])))) by { assert !TapSum(f, 42); }
    assert f[10] == (f[17] != (f[18] != (f[20] != (f[21] != (f[22] != f[23]))))) by { assert !TapSum(f, 41); }
    assert f[9] == (f[16] != (f[17] != (f[19] != (f[20] != (f[21] != (f[22] != f[23])))))) by { assert !TapSum(f, 40); }
    assert f[8] == (f[17] != (f[18] != (f[21] != f[23]))) by { assert !TapSum(f, 39); }
  }

  lemma SolveEliminated0(f: seq<bool>)
    requires |f| == 24 && Eliminated8(f)
    requires forall j :: 23 <= j < 47 ==> !TapSum(f, j)
    ensures Eliminated0(f)
  {
    assert f[7] == (f[16] != (f[17] != (f[20] != f[22]))) by { assert !TapSum(f, 38); }
    assert f[6] == (f[17] != (f[20] != (f[21] != f[22]))) by { assert !TapSum(f, 37); }
    assert f[5] == (f[16] != (f[19] != (f[20] != (f[21] != f[23])))) by { assert !TapSum(f, 36); }
    assert f[4] == (f[16] != (f[17] != f[18])) by { assert !TapSum(f, 35); }
    assert f[3] == (f[19] != (f[20] != f[22])) by { assert !TapSum(f, 34); }
    assert f[2] == (f[18] != (f[19] != (f[21] != f[23]))) by { assert !TapSum(f, 33); }
    assert f[1] == (f[17] != (f[18] != (f[20] != (f[22] != f[23])))) by { assert !TapSum(f, 32); }
    assert f[0] == (f[16] != (f[17] != (f[19] != (f[21] != (f[22] != f[23]))))) by { assert !TapSum(f, 31); }
  }

  lemma Solve24(f: seq<bool>)
    requires |f| == 24
    requires forall j :: 23 <= j < 47 ==> !TapSum(f, j)
    ensures f == seq(24, i => false)
  {
    SolveEliminated8(f);
    SolveEliminated0(f);
    assert !(f[16] != (f[17] != (f[18] != (f[20] != (f[22] != f[23]))))) by { assert !TapSum(f, 23); }
    assert !(f[17] != (f[20] != (f[21] != (f[22] != f[23])))) by { assert !TapSum(f, 24); }
    assert !(f[16] != (f[17] != (f[20] != f[22]))) by { assert !TapSum(f, 25); }
    assert !(f[17] != (f[19] != (f[20] != (f[21] != (f[22] != f[23]))))) by { assert !TapSum(f, 26); }
    assert !(f[16] != (f[17] != (f[18] != (f[19] != f[20])))) by { assert !TapSum(f, 27); }
    assert !(f[16] != (f[19] != f[23])) by { assert !TapSum(f, 28); }
    assert !(f[16] != (f[19] != (f[20] != (f[21] != (f[22] != f[23]))))) by { assert !TapSum(f, 29); }
    assert !(f[17] != (f[18] != (f[19] != (f[21] != f[23])))) by { assert !TapSum(f, 30); }
  }

  // From feedback bits back to message bits.

  lemma SilentRun(e: seq<bool>)
    requires |e| == 8 || |e| == 24
    requires forall i :: 0 <= i < |e| ==> !Feed(Constant(false), e)[i]
    ensures e == seq(|e|, i => false)
  {
    var n, f := |e|, Feedbacks(e);
    forall j | n - 1 <= j < 2 * n - 1 ensures !TapSum(f, j) {
      FeedIsTapSum(e, j - n + 1);
    }
    if n == 8 {
      ClearRows8(f);
      SolveRows8(f);
    } else {
      Solve24(f);
    }
    forall k | 0 <= k < n ensures !e[k] {
      FeedbackAt(e, k);
    }
  }

  /** The one nonzero 16-bit difference that leaves the low half of the register alone. */
  function WeakBits(): (e: seq<bool>) {
    seq(16, i => i in {0, 5, 6, 11, 12, 14, 15})
  }

  function WeakRegister(): (r: Register) {
    seq(32, i => i in {17, 18, 19, 21, 22, 23, 26, 28, 29, 30, 31})
  }

  lemma SilentRun16(e: seq<bool>)
    requires |e| == 16
    requires forall i :: 0 <= i < 16 ==> !Feed(Constant(false), e)[i]
    ensures e == seq(16, i => false) || e == WeakBits()
  {
    var f := Feedbacks(e);
    forall j | 15 <= j < 31 ensures !TapSum(f, j) {
      FeedIsTapSum(e, j - 15);
    }
    ClearRows16(f);
    SolveRows16(f);
    forall k | 0 <= k < 16 ensures e[k] == (f[0] && WeakBits()[k]) {
      FeedbackAt(e, k);
      if f[0] {
        WeakFeedbackBits(k);
      }
    }
  }

  lemma WeakFeedbackBits(k: nat)
    requires k < 16
    ensures WeakBits()[k] == (WeakFeedback()[k] != TapSum(WeakFeedback(), k - 1))
  {
  }

  lemma {:induction false} FeedbacksOfWeakBits(k: nat)
    requires k <= 16
    ensures Feedbacks(WeakBits())[..k] == WeakFeedback()[..k]
  {
    if k > 0 {
      FeedbacksOfWeakBits(k - 1);
      var f, g := Feedbacks(WeakBits()), WeakFeedback();
      FeedbackAt(WeakBits(), k - 1);
      WeakFeedbackBits(k - 1);
      TapSumLooksBack(f, g, k - 1);
      assert f[..k] == f[..k - 1] + [f[k - 1]] && g[..k] == g[..k - 1] + [g[k - 1]];
    }
  }

  lemma TapSumLooksBack(f: seq<bool>, g: seq<bool>, k: nat)
    requires k <= |f| && k <= |g| && f[..k] == g[..k]
    ensures TapSum(f, k - 1) == TapSum(g, k - 1)
  {
    forall i | i < k ensures At(f, i) == At(g, i) {
      if 0 <= i {
        assert f[..k][i] == g[..k][i];
      }
    }
  }

  lemma WeakRun()
    ensures Feed(Constant(false), WeakBits()) == WeakRegister()
  {
    FeedbacksOfWeakBits(16);
    assert Feedbacks(WeakBits()) == Feedbacks(WeakBits())[..16] && WeakFeedback() == WeakFeedback()[..16];
    forall i | 0 <= i < 32 ensures Feed(Constant(false), WeakBits())[i] == WeakRegister()[i] {
      FeedIsTapSum(WeakBits(), i);
      WeakRegisterBits(i);
    }
  }

  lemma WeakRegisterBits(i: nat)
    requires i < 32
    ensures WeakRegister()[i] == TapSum(WeakFeedback(), i + 15)
  {
    var f := WeakFeedback();
    assert !TapSum(f, 15) && !TapSum(f, 16) && !TapSum(f, 17) && !TapSum(f, 18);
    assert !TapSum(f, 19) && !TapSum(f, 20) && !TapSum(f, 21) && !TapSum(f, 22);
    assert !TapSum(f, 23) && !TapSum(f, 24) && !TapSum(f, 25) && !TapSum(f, 26);
    assert !TapSum(f, 27) && !TapSum(f, 28) && !TapSum(f, 29) && !TapSum(f, 30);
    assert !TapSum(f, 31) && TapSum(f, 32) && TapSum(f, 33) && TapSum(f, 34);
    assert !TapSum(f, 35) && TapSum(f, 36) && TapSum(f, 37) && TapSum(f, 38);
    assert !TapSum(f, 39) && !TapSum(f, 40) && TapSum(f, 41) && !TapSum(f, 42);
    assert TapSum(f, 43) && TapSum(f, 44) && TapSum(f, 45) && TapSum(f, 46);
  }

  // Bytes.

  /** Four bytes that, laid over the last two covered bytes and the first two of the sum, go unnoticed. */
  function WeakBytes(): ByteString {
    [0x61, 0xD8, 0xF4, 0xEE]
  }

  ghost predicate FlipsWeakBytes(a: ByteString, b: ByteString) {
    && |a| == |b| == 4
    && BitsOf(b) == Xor(BitsOf(a), BitsOf(WeakBytes()))
  }

  lemma FourBytes(w: ByteString)
    requires |w| == 4
    ensures BitsOf(w) == LowBits(w[0], 8) + LowBits(w[1], 8) + LowBits(w[2], 8) + LowBits(w[3], 8)
  {
    assert w[..3][..2] == w[..2] && w[..2][..1] == w[..1] && w[..1][..0] == [];
    assert BitsOf(w[..1]) == LowBits(w[0], 8);
    assert BitsOf(w[..2]) == LowBits(w[0], 8) + LowBits(w[1], 8);
    assert BitsOf(w[..3]) == LowBits(w[0], 8) + LowBits(w[1], 8) + LowBits(w[2], 8);
  }

  lemma BitsOf61()
    ensures LowBits(0x61, 8) == [true, false, false, false, false, true, true, false]
  {
  }

  lemma BitsOfD8()
    ensures LowBits(0xD8, 8) == [false, false, false, true, true, false, true, true]
  {
  }

  lemma BitsOfF4()
    ensures LowBits(0xF4, 8) == [false, false, true, false, true, true, true, true]
  {
  }

  lemma BitsOfEE()
    ensures LowBits(0xEE, 8) == [false, true, true, true, false, true, true, true]
  {
  }

  lemma WeakMessageBits()
    ensures WeakBits() == LowBits(0x61, 8) + LowBits(0xD8, 8)
  {
    hide LowBits;
    BitsOf61();
    BitsOfD8();
  }

  lemma WeakSumBits()
    ensures WeakRegister()[24..] == LowBits(0xF4, 8) && WeakRegister()[16..24] == LowBits(0xEE, 8)
  {
    hide LowBits;
    BitsOfF4();
    BitsOfEE();
  }

  lemma WeakBytesBits()
    ensures BitsOf(WeakBytes()) == WeakBits() + WeakRegister()[24..] + WeakRegister()[16..24]
  {
    hide BitsOf, LowBits, WeakBits, WeakRegister;
    FourBytes(WeakBytes());
    WeakMessageBits();
    WeakSumBits();
  }

  lemma SumByteAt(r: Register, j: nat)
    requires j < 4
    ensures SumBytes(r)[j] == ByteAt(Complement(r), 24 - 8 * j)
  {
    hide ByteAt, Complement;
  }

  lemma SumByteBits(r: Register, j: nat)
    requires j < 4
    ensures LowBits(SumBytes(r)[j], 8) == Complement(r)[24 - 8 * j..32 - 8 * j]
  {
    hide *;
    SumByteAt(r, j);
    ByteAtBits(Complement(r), 24 - 8 * j);
  }

  lemma DifferenceRun(front: ByteString, a: ByteString, b: ByteString)
    requires |a| == |b|
    ensures Xor(Digest(front + a), Digest(front + b)) == Feed(Constant(false), Xor(BitsOf(a), BitsOf(b)))
  {
    DigestConcat(front, a);
    DigestConcat(front, b);
    FeedXor(Digest(front), Digest(front), BitsOf(a), BitsOf(b));
    assert Xor(Digest(front), Digest(front)) == Constant(false);
  }

  ghost predicate SameFrom(r: Register, s: Register, lo: nat)
    requires lo + 8 <= 32
  {
    forall i :: lo <= i < lo + 8 ==> r[i] == s[i]
  }

  lemma EqualSumByte(r: Register, s: Register, j: nat)
    requires j < 4
    ensures SumBytes(r)[j] == SumBytes(s)[j] <==> SameFrom(r, s, 24 - 8 * j)
  {
    var lo := 24 - 8 * j;
    var v, w := Complement(r)[lo..lo + 8], Complement(s)[lo..lo + 8];
    assert forall i :: lo <= i < lo + 8 ==> v[i - lo] == !r[i] && w[i - lo] == !s[i];
    SumByteBits(r, j);
    SumByteBits(s, j);
    assert Pow2(8) == 256;
    BitsRoundTrip(SumBytes(r)[j], 8);
    BitsRoundTrip(SumBytes(s)[j], 8);
    if SameFrom(r, s, lo) {
      assert v == w;
    }
  }

  /** Sums that agree in their last `k` bytes come from registers that agree in their low `8 * k` bits. */
  lemma AgreeLow(r: Register, s: Register, k: nat)
    requires 1 <= k <= 3
    requires SumBytes(r)[4 - k..] == SumBytes(s)[4 - k..]
    ensures forall i :: 0 <= i < 8 * k ==> r[i] == s[i]
  {
    var u, v := SumBytes(r), SumBytes(s);
    forall j | 4 - k <= j < 4 ensures SameFrom(r, s, 24 - 8 * j) {
      assert u[j] == u[4 - k..][j - (4 - k)] && v[j] == v[4 - k..][j - (4 - k)];
      EqualSumByte(r, s, j);
    }
    assert SameFrom(r, s, 24 - 8 * 3);
    if k >= 2 {
      assert SameFrom(r, s, 24 - 8 * 2);
    }
    if k == 3 {
      assert SameFrom(r, s, 24 - 8 * 1);
    }
  }

  lemma NoDifference(a: ByteString, b: ByteString)
    requires |a| == |b|
    requires Xor(BitsOf(a), BitsOf(b)) == seq(8 * |a|, i => false)
    ensures a == b
  {
    var e := Xor(BitsOf(a), BitsOf(b));
    forall i | 0 <= i < 8 * |a| ensures BitsOf(a)[i] == BitsOf(b)[i] {
      assert !e[i];
    }
    BitsOfInjective(a, b);
  }

  /** A change that ends `k` bytes before the seam and keeps the sum's last `k` bytes. */
  lemma SeamDifference(front: ByteString, a: ByteString, b: ByteString)
    requires 1 <= |a| == |b| <= 3
    requires SumBytes(Digest(front + a))[4 - |a|..] == SumBytes(Digest(front + b))[4 - |a|..]
    ensures a == b || (|a| == 2 && Xor(BitsOf(a), BitsOf(b)) == WeakBits())
  {
    var r, s, e := Digest(front + a), Digest(front + b), Xor(BitsOf(a), BitsOf(b));
    DifferenceRun(front, a, b);
    AgreeLow(r, s, |a|);
    forall i | 0 <= i < |e| ensures !Feed(Constant(false), e)[i] {
      assert Xor(r, s)[i] == (r[i] != s[i]);
    }
    if |a| == 2 {
      SilentRun16(e);
    } else {
      SilentRun(e);
    }
    if e == seq(|e|, i => false) {
      NoDifference(a, b);
    }
  }

  lemma SumDifference(r: Register, s: Register, d: Register, j: nat)
    requires j < 4 && Xor(r, s) == d
    ensures LowBits(SumBytes(s)[j], 8) == Xor(LowBits(SumBytes(r)[j], 8), d[24 - 8 * j..32 - 8 * j])
  {
    var lo := 24 - 8 * j;
    SumByteBits(r, j);
    SumByteBits(s, j);
    forall k | lo <= k < lo + 8 ensures !s[k] == (!r[k] != d[k]) {
      assert Xor(r, s)[k] == (r[k] != s[k]);
    }
  }

  lemma XorConcat(a: seq<bool>, b: seq<bool>, c: seq<bool>, d: seq<bool>)
    requires |a| == |c| && |b| == |d|
    ensures Xor(a + b, c + d) == Xor(a, c) + Xor(b, d)
  {
  }

  lemma XorSwap(a: seq<bool>, b: seq<bool>, c: seq<bool>)
    requires |a| == |b| == |c|
    ensures Xor(a, b) == c <==> b == Xor(a, c)
  {
    if Xor(a, b) == c {
      assert forall i :: 0 <= i < |a| ==> c[i] == (a[i] != b[i]);
      assert b == Xor(a, c);
    }
    if b == Xor(a, c) {
      assert forall i :: 0 <= i < |a| ==> b[i] == (a[i] != c[i]);
      assert Xor(a, b) == c;
    }
  }

  lemma WeakRegisterSum(r: Register, s: Register)
    requires Xor(r, s) == WeakRegister()
    ensures SumBytes(s)[2] == SumBytes(r)[2] && SumBytes(s)[3] == SumBytes(r)[3]
    ensures LowBits(SumBytes(s)[0], 8) == Xor(LowBits(SumBytes(r)[0], 8), WeakRegister()[24..32])
    ensures LowBits(SumBytes(s)[1], 8) == Xor(LowBits(SumBytes(r)[1], 8), WeakRegister()[16..24])
  {
    SumDifference(r, s, WeakRegister(), 0);
    SumDifference(r, s, WeakRegister(), 1);
    forall i | 0 <= i < 16 ensures r[i] == s[i] {
      assert !WeakRegister()[i] && Xor(r, s)[i] == (r[i] != s[i]);
    }
    EqualSumByte(r, s, 2);
    EqualSumByte(r, s, 3);
  }

  /** What the weak change does to the sum: its first two bytes flip by the other half of the pattern. */
  lemma WeakSum(front: ByteString, a: ByteString, b: ByteString)
    requires |a| == |b| == 2
    requires Xor(BitsOf(a), BitsOf(b)) == WeakBits()
    ensures var u, v := SumBytes(Digest(front + a)), SumBytes(Digest(front + b));
            && v[2] == u[2] && v[3] == u[3]
            && FlipsWeakBytes(a + u[..2], b + v[..2])
  {
    var r, s := Digest(front + a), Digest(front + b);
    assert Xor(r, s) == WeakRegister() by {
      DifferenceRun(front, a, b);
      WeakRun();
    }
    WeakRegisterSum(r, s);
    WeakWindow(a, b, SumBytes(r)[..2], SumBytes(s)[..2]);
  }

  lemma TwoBytes(w: ByteString)
    requires |w| == 2
    ensures BitsOf(w) == LowBits(w[0], 8) + LowBits(w[1], 8)
  {
    assert w[..1][..0] == [];
    assert BitsOf(w[..1]) == LowBits(w[0], 8);
  }

  lemma WeakWindow(a: ByteString, b: ByteString, u: ByteString, v: ByteString)
    requires |a| == |b| == |u| == |v| == 2
    ensures FlipsWeakBytes(a + u, b + v) <==>
      && Xor(BitsOf(a), BitsOf(b)) == WeakBits()
      && LowBits(v[0], 8) == Xor(LowBits(u[0], 8), WeakRegister()[24..32])
      && LowBits(v[1], 8) == Xor(LowBits(u[1], 8), WeakRegister()[16..24])
  {
    hide BitsOf, LowBits, Xor, WeakBits, WeakRegister;
    var hi, lo := WeakRegister()[24..32], WeakRegister()[16..24];
    WeakBytesBits();
    assert WeakRegister()[24..] == hi;
    BitsOfConcat(a, u);
    BitsOfConcat(b, v);
    TwoBytes(u);
    TwoBytes(v);
    assert WeakBits() + hi + lo == WeakBits() + (hi + lo);
    XorConcat(BitsOf(a), BitsOf(u), WeakBits(), hi + lo);
    XorConcat(LowBits(u[0], 8), LowBits(u[1], 8), hi, lo);
    XorSwap(BitsOf(a), BitsOf(b), WeakBits());
    SplitEqual(BitsOf(b), BitsOf(v), Xor(BitsOf(a), WeakBits()), Xor(BitsOf(u), hi + lo));
    SplitEqual(LowBits(v[0], 8), LowBits(v[1], 8), Xor(LowBits(u[0], 8), hi), Xor(LowBits(u[1], 8), lo));
  }

  lemma SplitEqual(a: seq<bool>, b: seq<bool>, c: seq<bool>, d: seq<bool>)
    requires |a| == |c|
    ensures a + b == c + d <==> a == c && b == d
  {
    assert (a + b)[..|a|] == a && (a + b)[|a|..] == b;
    assert (c + d)[..|c|] == c && (c + d)[|c|..] == d;
  }

  /** The decoder's comparison: the stored sum is the sum of the covered bytes. */
  ghost predicate Checks(covered: ByteString, sum: ByteString) {
    SumBytes(Digest(covered)) == sum
  }

  lemma FlipsSame(a: ByteString, b: ByteString, c: ByteString)
    requires FlipsWeakBytes(a, b) && FlipsWeakBytes(a, c)
    ensures b == c
  {
    BitsOfInjective(b, c);
  }

  lemma FlippedChecks(front: ByteString, a: ByteString, b: ByteString, sum: ByteString, sum': ByteString)
    requires |a| == |b| == 2 && |sum| == |sum'| == 4
    requires Checks(front + a, sum) && sum'[2..] == sum[2..]
    requires FlipsWeakBytes(a + sum[..2], b + sum'[..2])
    ensures Checks(front + b, sum')
  {
    WeakWindow(a, b, sum[..2], sum'[..2]);
    hide FlipsWeakBytes, SumBytes, Digest;
    WeakSum(front, a, b);
    var v := SumBytes(Digest(front + b));
    FlipsSame(a + sum[..2], b + sum'[..2], b + v[..2]);
    assert v[..2] == (b + v[..2])[2..] == (b + sum'[..2])[2..] == sum'[..2];
    assert sum'[2] == sum'[2..][0] && sum'[3] == sum'[2..][1];
    assert v == v[..2] + [v[2], v[3]] && sum' == sum'[..2] + [sum'[2], sum'[3]];
  }

  lemma SeamBurst(front: ByteString, a: ByteString, b: ByteString, sum: ByteString, sum': ByteString)
    requires 1 <= |a| == |b| <= 3 && |sum| == |sum'| == 4
    requires Checks(front + a, sum)
    requires sum'[4 - |a|..] == sum[4 - |a|..]
    requires a != b || sum != sum'
    ensures Checks(front + b, sum') <==> |a| == 2 && FlipsWeakBytes(a + sum[..2], b + sum'[..2])
  {
    hide FlipsWeakBytes, SumBytes, Digest, WeakBits;
    if Checks(front + b, sum') {
      SeamDifference(front, a, b);
      WeakSum(front, a, b);
    }
    if |a| == 2 && FlipsWeakBytes(a + sum[..2], b + sum'[..2]) {
      FlippedChecks(front, a, b, sum, sum');
    }
  }

  ghost predicate AgreeOutside(a: ByteString, b: ByteString, at: nat) {
    && |a| == |b| && at + 4 <= |a|
    && a[..at] == b[..at] && a[at + 4..] == b[at + 4..]
  }

  /**
    A stored chunk body and sum, altered in any way confined to four consecutive
    bytes of the two, still checks exactly when the window lies two bytes either
    side of the seam and flips by the weak pattern.
   */
  lemma BurstChecksIff(covered: ByteString, sum: ByteString, covered': ByteString, sum': ByteString, at: nat)
    requires Checks(covered, sum) && |covered| == |covered'| && |sum'| == 4
    requires AgreeOutside(covered + sum, covered' + sum', at)
    requires covered + sum != covered' + sum'
    ensures Checks(covered', sum') <==>
      && at + 2 == |covered|
      && FlipsWeakBytes((covered + sum)[at..at + 4], (covered' + sum')[at..at + 4])
  {
    hide FlipsWeakBytes, Checks;
    var n, w, w' := |covered|, covered + sum, covered' + sum';
    assert w[..n] == covered && w'[..n] == covered' && w[n..] == sum && w'[n..] == sum';
    if at + 4 <= n {
      BurstInside(covered, sum, covered', sum', at);
    } else if n <= at {
      assert covered == w[..at][..n] == w'[..at][..n] == covered';
      OneSum(covered, sum, sum');
    } else {
      BurstAcross(covered, sum, covered', sum', at);
    }
  }

  lemma OneSum(covered: ByteString, sum: ByteString, sum': ByteString)
    requires Checks(covered, sum) && sum != sum'
    ensures !Checks(covered, sum')
  {
  }

  lemma BurstInside(covered: ByteString, sum: ByteString, covered': ByteString, sum': ByteString, at: nat)
    requires Checks(covered, sum) && |covered| == |covered'| && |sum'| == 4 && at + 4 <= |covered|
    requires AgreeOutside(covered + sum, covered' + sum', at) && covered + sum != covered' + sum'
    ensures !Checks(covered', sum')
  {
    hide SumBytes, Digest;
    var n, w, w' := |covered|, covered + sum, covered' + sum';
    assert covered[..at] == w[..at] && covered'[..at] == w'[..at];
    assert covered[at + 4..] == w[at + 4..][..n - at - 4] && covered'[at + 4..] == w'[at + 4..][..n - at - 4];
    assert sum == w[at + 4..][n - at - 4..] && sum' == w'[at + 4..][n - at - 4..];
    InnerBurst(covered, covered', at);
  }

  lemma BurstAcross(covered: ByteString, sum: ByteString, covered': ByteString, sum': ByteString, at: nat)
    requires Checks(covered, sum) && |covered| == |covered'| && |sum'| == 4 && at < |covered| < at + 4
    requires AgreeOutside(covered + sum, covered' + sum', at) && covered + sum != covered' + sum'
    ensures Checks(covered', sum') <==>
      && at + 2 == |covered|
      && FlipsWeakBytes((covered + sum)[at..at + 4], (covered' + sum')[at..at + 4])
  {
    hide FlipsWeakBytes;
    var w, w', k := covered + sum, covered' + sum', |covered| - at;
    var front, a, b := covered[..at], covered[at..], covered'[at..];
    assert covered[..at] == w[..at] && covered'[..at] == w'[..at];
    assert covered == front + a && covered' == front + b;
    assert sum[4 - k..] == w[at + 4..] && sum'[4 - k..] == w'[at + 4..];
    SeamBurst(front, a, b, sum, sum');
    if k == 2 {
      assert w[at..at + 4] == a + sum[..2] && w'[at..at + 4] == b + sum'[..2];
    }
  }

  /** A change inside the covered bytes alone never checks against the old sum. */
  lemma InnerBurst(covered: ByteString, covered': ByteString, at: nat)
    requires AgreeOutside(covered, covered', at) && covered != covered'
    ensures SumBytes(Digest(covered)) != SumBytes(Digest(covered'))
  {
    var front, back := covered[..at], covered[at + 4..];
    assert covered == front + covered[at..at + 4] + back;
    assert covered' == front + covered'[at..at + 4] + back;
    FourBytesChangeSum(front, covered[at..at + 4], covered'[at..at + 4], back);
  }
}
