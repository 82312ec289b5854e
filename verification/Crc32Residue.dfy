/**
  Which sum it is: the one of IEEE 802.3, started from all ones and complemented
  at the end. A message followed by its own sum, low byte first, always leaves the
  residue of that code in the register.
 */
module Crc32Residue {
  import opened Bytes
  import opened Crc32
  import opened Crc32Seam

  /** Fed its own bits, a register sends nothing back, and what is left is what was not yet sent. */
  lemma {:induction false} FeedOwn(r: Register, n: nat)
    requires n <= 32
    ensures Feed(r, r[..n]) == r[n..] + seq(n, i => false)
  {
    if n == 0 {
      assert r[..0] == [] && r[0..] + [] == r;
    } else {
      FeedOwn(r, n - 1);
      var before := Feed(r, r[..n - 1]);
      assert r[..n][..n - 1] == r[..n - 1] && r[..n][n - 1] == r[n - 1] == before[0];
      assert Feed(r, r[..n]) == Next(before, before[0]);
      forall i | 0 <= i < 32 ensures Next(before, before[0])[i] == (r[n..] + seq(n, i => false))[i] {
        assert i < 31 ==> before[i + 1] == (i + 1 < 33 - n && r[n + i]);
      }
    }
  }

  /** Starting from `r` is starting from zero with the first bits of the message flipped by it. */
  lemma StartAbsorbed(r: Register, e: seq<bool>)
    requires |e| <= 32
    ensures Feed(r, e) == Xor(r[|e|..] + seq(|e|, i => false), Feed(Constant(false), Xor(r[..|e|], e)))
  {
    hide Feed;
    var n := |e|;
    FeedXor(r, Constant(false), r[..n], Xor(r[..n], e));
    assert Xor(r, Constant(false)) == r;
    assert Xor(r[..n], Xor(r[..n], e)) == e;
    FeedOwn(r, n);
  }

  /** The feedback bits of a difference run are the ones that solve its recurrence. */
  lemma {:induction false} FeedbacksAre(e: seq<bool>, f: seq<bool>, k: nat)
    requires |f| == |e| && k <= |e|
    requires forall i :: 0 <= i < |e| ==> f[i] == (e[i] != TapSum(f, i - 1))
    ensures Feedbacks(e)[..k] == f[..k]
  {
    hide TapSum, Feedbacks;
    if k > 0 {
      FeedbacksAre(e, f, k - 1);
      var g := Feedbacks(e);
      FeedbackAt(e, k - 1);
      TapSumLooksBack(f, g, k - 1);
      assert f[..k] == f[..k - 1] + [f[k - 1]] && g[..k] == g[..k - 1] + [g[k - 1]];
    }
  }

  lemma RunFrom(e: seq<bool>, f: seq<bool>, i: nat)
    requires |f| == |e| && i < 32
    requires forall i :: 0 <= i < |e| ==> f[i] == (e[i] != TapSum(f, i - 1))
    ensures Feed(Constant(false), e)[i] == TapSum(f, i + |e| - 1)
  {
    hide TapSum, Feedbacks, Feed;
    FeedbacksAre(e, f, |e|);
    assert f[..|e|] == f && Feedbacks(e)[..|e|] == Feedbacks(e);
    FeedIsTapSum(e, i);
  }

  // ----- the residue

  function Ones(): (e: seq<bool>) {
    seq(32, i => true)
  }

  predicate OnesFeedbackBit(k: int) {
    0 <= k <= 5 || k == 9 || 12 <= k <= 15 || k == 24 || 26 <= k <= 27 || k == 29 || k == 31
  }

  function OnesFeedback(): (f: seq<bool>) {
    seq(32, i => OnesFeedbackBit(i))
  }

  /** The bits of 0xDEBB20E3. */
  predicate ResidueBit(i: int) {
    0 <= i <= 1 || 5 <= i <= 7 || i == 13 || 16 <= i <= 17 || 19 <= i <= 21 || i == 23 || 25 <= i <= 28 || 30 <= i <= 31
  }

  lemma OnesFeedbackBits0(k: nat)
    requires 0 <= k < 8
    ensures OnesFeedback()[k] == (true != TapSum(OnesFeedback(), k - 1))
  {
    var f := OnesFeedback();
    assert !TapSum(f, -1) && !TapSum(f, 0) && !TapSum(f, 1) && !TapSum(f, 2);
    assert !TapSum(f, 3) && !TapSum(f, 4) && TapSum(f, 5) && TapSum(f, 6);
  }

  lemma OnesFeedbackBits1(k: nat)
    requires 8 <= k < 16
    ensures OnesFeedback()[k] == (true != TapSum(OnesFeedback(), k - 1))
  {
    var f := OnesFeedback();
    assert TapSum(f, 7) && !TapSum(f, 8) && TapSum(f, 9) && TapSum(f, 10);
    assert !TapSum(f, 11) && !TapSum(f, 12) && !TapSum(f, 13) && !TapSum(f, 14);
  }

  lemma OnesFeedbackBits2(k: nat)
    requires 16 <= k < 24
    ensures OnesFeedback()[k] == (true != TapSum(OnesFeedback(), k - 1))
  {
    var f := OnesFeedback();
    assert TapSum(f, 15) && TapSum(f, 16) && TapSum(f, 17) && TapSum(f, 18);
    assert TapSum(f, 19) && TapSum(f, 20) && TapSum(f, 21) && TapSum(f, 22);
  }

  lemma OnesFeedbackBits3(k: nat)
    requires 24 <= k < 32
    ensures OnesFeedback()[k] == (true != TapSum(OnesFeedback(), k - 1))
  {
    var f := OnesFeedback();
    assert !TapSum(f, 23) && TapSum(f, 24) && !TapSum(f, 25) && !TapSum(f, 26);
    assert TapSum(f, 27) && !TapSum(f, 28) && TapSum(f, 29) && !TapSum(f, 30);
  }

  lemma OnesRegisterBits0(i: nat)
    requires 0 <= i < 8
    ensures TapSum(OnesFeedback(), i + 31) == ResidueBit(i)
  {
    var f := OnesFeedback();
    assert TapSum(f, 31) && TapSum(f, 32) && !TapSum(f, 33) && !TapSum(f, 34);
    assert !TapSum(f, 35) && TapSum(f, 36) && TapSum(f, 37) && TapSum(f, 38);
  }

  lemma OnesRegisterBits1(i: nat)
    requires 8 <= i < 16
    ensures TapSum(OnesFeedback(), i + 31) == ResidueBit(i)
  {
    var f := OnesFeedback();
    assert !TapSum(f, 39) && !TapSum(f, 40) && !TapSum(f, 41) && !TapSum(f, 42);
    assert !TapSum(f, 43) && TapSum(f, 44) && !TapSum(f, 45) && !TapSum(f, 46);
  }

  lemma OnesRegisterBits2(i: nat)
    requires 16 <= i < 24
    ensures TapSum(OnesFeedback(), i + 31) == ResidueBit(i)
  {
    var f := OnesFeedback();
    assert TapSum(f, 47) && TapSum(f, 48) && !TapSum(f, 49) && TapSum(f, 50);
    assert TapSum(f, 51) && TapSum(f, 52) && !TapSum(f, 53) && TapSum(f, 54);
  }

  lemma OnesRegisterBits3(i: nat)
    requires 24 <= i < 32
    ensures TapSum(OnesFeedback(), i + 31) == ResidueBit(i)
  {
    var f := OnesFeedback();
    assert !TapSum(f, 55) && TapSum(f, 56) && TapSum(f, 57) && TapSum(f, 58);
    assert TapSum(f, 59) && !TapSum(f, 60) && TapSum(f, 61) && TapSum(f, 62);
  }

  lemma OnesFeedbackBits(k: nat)
    requires k < 32
    ensures OnesFeedback()[k] == (Ones()[k] != TapSum(OnesFeedback(), k - 1))
  {
    hide TapSum, OnesFeedback;
    if k < 8 {
      OnesFeedbackBits0(k);
    } else if k < 16 {
      OnesFeedbackBits1(k);
    } else if k < 24 {
      OnesFeedbackBits2(k);
    } else {
      OnesFeedbackBits3(k);
    }
  }

  lemma OnesRegisterBits(i: nat)
    requires i < 32
    ensures Feed(Constant(false), Ones())[i] == ResidueBit(i)
  {
    hide TapSum, OnesFeedback, Feed, ResidueBit;
    forall k | 0 <= k < 32 ensures OnesFeedback()[k] == (Ones()[k] != TapSum(OnesFeedback(), k - 1)) {
      OnesFeedbackBits(k);
    }
    RunFrom(Ones(), OnesFeedback(), i);
    if i < 8 {
      OnesRegisterBits0(i);
    } else if i < 16 {
      OnesRegisterBits1(i);
    } else if i < 24 {
      OnesRegisterBits2(i);
    } else {
      OnesRegisterBits3(i);
    }
  }

  /** The sum's bytes, low byte first, are the bits of the complemented register. */
  lemma SumBits(r: Register)
    ensures var s := SumBytes(r); BitsOf([s[3], s[2], s[1], s[0]]) == Complement(r)
  {
    hide BitsOf, LowBits, SumBytes, Complement;
    var s, w := SumBytes(r), Complement(r);
    FourBytes([s[3], s[2], s[1], s[0]]);
    SumByteBits(r, 0);
    SumByteBits(r, 1);
    SumByteBits(r, 2);
    SumByteBits(r, 3);
    assert w == w[0..8] + w[8..16] + w[16..24] + w[24..32];
  }

  /** Every message followed by its sum, low byte first, leaves the register at 0xDEBB20E3. */
  lemma ResidueLaw(m: ByteString, i: nat)
    requires i < 32
    ensures var s := SumBytes(Digest(m));
            Feed(Digest(m), BitsOf([s[3], s[2], s[1], s[0]]))[i]
            <==> i in {0, 1, 5, 6, 7, 13, 16, 17, 19, 20, 21, 23, 25, 26, 27, 28, 30, 31}
  {
    hide BitsOf, Feed, SumBytes, Digest;
    var r := Digest(m);
    SumBits(r);
    StartAbsorbed(r, Complement(r));
    assert r[..32] == r && Xor(r, Complement(r)) == Ones();
    OnesRegisterBits(i);
  }

  // ----- sums of single messages

  /** The sum of no bytes is zero. */
  lemma EmptySum()
    ensures SumBytes(Digest([])) == [0, 0, 0, 0]
  {
    var w := Complement(Constant(true));
    assert Digest([]) == Constant(true);
    ZeroByte(w, 0);
    ZeroByte(w, 8);
    ZeroByte(w, 16);
    ZeroByte(w, 24);
  }

  lemma ZeroByte(w: Register, lo: nat)
    requires lo + 8 <= 32 && forall i :: 0 <= i < 32 ==> !w[i]
    ensures ByteAt(w, lo) == 0
  {
    assert w[lo..lo + 8] == [false, false, false, false, false, false, false, false];
    assert FromBits([false, false, false, false, false, false, false, false]) == 0;
  }

  // A message of one byte, 0x61: the register absorbs its start and runs for eight steps.

  function FlippedByte(): (e: seq<bool>) {
    seq(8, i => 1 <= i <= 4 || i == 7)
  }

  function ByteFeedback(): (f: seq<bool>) {
    seq(8, i => 1 <= i <= 4)
  }

  lemma ByteFeedbackBits(k: nat)
    requires k < 8
    ensures ByteFeedback()[k] == (FlippedByte()[k] != TapSum(ByteFeedback(), k - 1))
  {
    var f := ByteFeedback();
    assert !TapSum(f, -1) && !TapSum(f, 0) && !TapSum(f, 1) && !TapSum(f, 2);
    assert !TapSum(f, 3) && !TapSum(f, 4) && !TapSum(f, 5) && TapSum(f, 6);
  }

  /** The bits of 0xE8B7BE43 complemented, but for the start's own. */
  predicate ByteRunBit(i: int) {
    0 <= i <= 1 || i == 6 || 9 <= i <= 13 || 15 <= i <= 18 || 20 <= i <= 21 || 23 <= i <= 26 || i == 28
  }

  lemma ByteRunBits(i: nat)
    requires i < 32
    ensures TapSum(ByteFeedback(), i + 7) == ByteRunBit(i)
  {
    var f := ByteFeedback();
    assert TapSum(f, 7) && TapSum(f, 8) && !TapSum(f, 9) && !TapSum(f, 10);
    assert !TapSum(f, 11) && !TapSum(f, 12) && TapSum(f, 13) && !TapSum(f, 14);
    assert !TapSum(f, 15) && TapSum(f, 16) && TapSum(f, 17) && TapSum(f, 18);
    assert TapSum(f, 19) && TapSum(f, 20) && !TapSum(f, 21) && TapSum(f, 22);
    assert TapSum(f, 23) && TapSum(f, 24) && TapSum(f, 25) && !TapSum(f, 26);
    assert TapSum(f, 27) && TapSum(f, 28) && !TapSum(f, 29) && TapSum(f, 30);
    assert TapSum(f, 31) && TapSum(f, 32) && TapSum(f, 33) && !TapSum(f, 34);
    assert TapSum(f, 35) && !TapSum(f, 36) && !TapSum(f, 37) && !TapSum(f, 38);
  }

  lemma OneByteRegister(i: nat)
    requires i < 32
    ensures Digest([0x61])[i] == ((i < 24) != ByteRunBit(i))
  {
    hide TapSum, ByteFeedback, Feed, ByteRunBit, BitsOf;
    OneByteBits();
    StartAbsorbed(Constant(true), BitsOf([0x61]));
    assert Xor(Constant(true)[..8], BitsOf([0x61])) == FlippedByte();
    forall k | 0 <= k < 8 ensures ByteFeedback()[k] == (FlippedByte()[k] != TapSum(ByteFeedback(), k - 1)) {
      ByteFeedbackBits(k);
    }
    RunFrom(FlippedByte(), ByteFeedback(), i);
    ByteRunBits(i);
  }

  lemma OneByteBits()
    ensures BitsOf([0x61]) == [true, false, false, false, false, true, true, false]
  {
    BitsOf61();
    assert [0x61][..0] == [];
  }

  lemma ByteOf(w: Register, lo: nat, bits: seq<bool>)
    requires lo + 8 <= 32 && |bits| == 8 && forall i :: 0 <= i < 8 ==> w[lo + i] == bits[i]
    ensures ByteAt(w, lo) == FromBits(bits)
  {
    assert w[lo..lo + 8] == bits;
  }

  /** The sum of the single byte 0x61 is 0xE8B7BE43. */
  lemma OneByteSum()
    ensures SumBytes(Digest([0x61])) == [0xE8, 0xB7, 0xBE, 0x43]
  {
    hide ByteAt, FromBits, Digest;
    var w := Complement(Digest([0x61]));
    forall i | 0 <= i < 32 ensures w[i] == ((i >= 24) != ByteRunBit(i)) {
      OneByteRegister(i);
    }
    ByteOf(w, 0, [true, true, false, false, false, false, true, false]);
    ByteOf(w, 8, [false, true, true, true, true, true, false, true]);
    ByteOf(w, 16, [true, true, true, false, true, true, false, true]);
    ByteOf(w, 24, [false, false, false, true, false, true, true, true]);
    ByteValue0();
    ByteValue1();
    ByteValue2();
    ByteValue3();
  }

  lemma ByteValue0()
    ensures FromBits([true, true, false, false, false, false, true, false]) == 0x43
  {
  }

  lemma ByteValue1()
    ensures FromBits([false, true, true, true, true, true, false, true]) == 0xBE
  {
  }

  lemma ByteValue2()
    ensures FromBits([true, true, true, false, true, true, false, true]) == 0xB7
  {
  }

  lemma ByteValue3()
    ensures FromBits([false, false, false, true, false, true, true, true]) == 0xE8
  {
  }
}
