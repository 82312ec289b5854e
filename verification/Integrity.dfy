/** What the decoder makes of altered encodings, and the canonical form of what it accepts. */
module Integrity {
  import opened Bytes
  import opened Options
  import opened Crc32
  import opened Crc32Seam
  import opened Chunks
  import opened Streams
  import Timestamps

  // ----- alterations

  /** The window that straddles data and sum, two bytes either side, flipped by the one weak pattern. */
  ghost predicate WeakFlip(frame: ByteString, altered: ByteString, at: nat) {
    && at + 6 == |frame| == |altered|
    && FlipsWeakBytes(frame[at..at + 4], altered[at..at + 4])
  }

  lemma AlteredParts(fields: ByteString, data: ByteString, altered: ByteString, at: nat, rest: ByteString)
    requires |fields| == COVERED_SIZE && |data| <= MAX_DATA
    requires AgreeOutside(Frame(fields, data), altered, at) && at >= 4
    ensures |altered| == BASE_SIZE + |data| + CRC_SIZE
    ensures var n := |data|; var input := altered + rest;
            && FromBigEndian(input[..4]) == n
            && input[4..BASE_SIZE] == altered[4..BASE_SIZE]
            && input[BASE_SIZE..BASE_SIZE + n] == altered[BASE_SIZE..BASE_SIZE + n]
            && input[BASE_SIZE + n..BASE_SIZE + n + CRC_SIZE] == altered[BASE_SIZE + n..]
            && input[BASE_SIZE + n + CRC_SIZE..] == rest
  {
    FrameParts(fields, data, []);
    var frame := Frame(fields, data);
    assert frame + [] == frame;
    assert (altered + rest)[..4] == altered[..at][..4] == frame[..at][..4] == frame[..4];
  }

  /**
    A change to an encoded chunk confined to four consecutive bytes from the
    protocol field to the end of the sum: the decoder reports the chunk error,
    unless the change is the weak flip, when the altered fields and data are
    decoded as if they had been written.
   */
  lemma AlteredFrame<T>(
    codec: Codec<T>, mode: Mode, fields: ByteString, data: ByteString, altered: ByteString, at: nat, rest: ByteString)
    requires |fields| == COVERED_SIZE && |data| <= MAX_DATA
    requires AgreeOutside(Frame(fields, data), altered, at) && at >= 4
    requires altered != Frame(fields, data)
    ensures |altered| == |Frame(fields, data)| == BASE_SIZE + |data| + CRC_SIZE
    ensures Decode(codec, mode, altered + rest) ==
      if WeakFlip(Frame(fields, data), altered, at)
      then Outcome(mode, DecodeFields(codec, mode, altered[4..BASE_SIZE], altered[BASE_SIZE..BASE_SIZE + |data|]), rest)
      else Corrupt(rest)
  {
    hide SumBytes, Digest, DecodeFields, Frame, WeakFlip, AgreeOutside;
    FrameParts(fields, data, []);
    assert Frame(fields, data) + [] == Frame(fields, data);
    AlteredParts(fields, data, altered, at, rest);
    AlteredChecks(fields, data, altered, at);
  }

  lemma AgreeDrop(a: ByteString, b: ByteString, at: nat, k: nat)
    requires AgreeOutside(a, b, at) && k <= at && a != b
    ensures AgreeOutside(a[k..], b[k..], at - k) && a[k..] != b[k..]
    ensures a[k..][at - k..at - k + 4] == a[at..at + 4] && b[k..][at - k..at - k + 4] == b[at..at + 4]
  {
    assert a[k..][..at - k] == a[..at][k..] && b[k..][..at - k] == b[..at][k..];
    assert a[k..][at - k + 4..] == a[at + 4..] && b[k..][at - k + 4..] == b[at + 4..];
    SplitSlice(a, at, k);
    SplitSlice(b, at, k);
  }

  lemma SplitSlice(a: ByteString, at: nat, k: nat)
    requires k <= at && at + 4 <= |a|
    ensures a == a[..at][..k] + a[k..]
    ensures a[k..][at - k..at - k + 4] == a[at..at + 4]
  {
  }

  lemma FrameTail(fields: ByteString, data: ByteString)
    ensures Frame(fields, data)[4..] == (fields + data) + SumBytes(Digest(fields + data))
  {
    hide SumBytes, Digest, BigEndian;
    var head, sum := BigEndian(|data|, 4), SumBytes(Digest(fields + data));
    assert head + fields + data + sum == head + ((fields + data) + sum);
  }

  lemma AlteredChecks(fields: ByteString, data: ByteString, altered: ByteString, at: nat)
    requires |fields| == COVERED_SIZE && |data| <= MAX_DATA
    requires AgreeOutside(Frame(fields, data), altered, at) && at >= 4
    requires altered != Frame(fields, data) && |altered| == BASE_SIZE + |data| + CRC_SIZE
    ensures var n := |data|;
            SumBytes(Digest(altered[4..BASE_SIZE] + altered[BASE_SIZE..BASE_SIZE + n])) == altered[BASE_SIZE + n..]
            <==> WeakFlip(Frame(fields, data), altered, at)
  {
    hide SumBytes, Digest, FlipsWeakBytes, Frame;
    var frame, n := Frame(fields, data), |data|;
    var covered, covered' := fields + data, altered[4..BASE_SIZE + n];
    var sum, sum' := SumBytes(Digest(covered)), altered[BASE_SIZE + n..];
    FrameTail(fields, data);
    AgreeDrop(frame, altered, at, 4);
    assert altered[4..] == covered' + sum';
    assert covered' == altered[4..BASE_SIZE] + altered[BASE_SIZE..BASE_SIZE + n];
    BurstChecksIff(covered, sum, covered', sum', at - 4);
  }

  lemma AlteredFirst<T>(
    codec: Codec<T>, mode: Mode, compression: byte, c: Chunk<T>, altered: ByteString, at: nat, rest: ByteString)
    requires Encodable(codec, compression, c) && Encode(codec, compression, c).Some?
    requires var frame := Encode(codec, compression, c).value;
             AgreeOutside(frame, altered, at) && at >= 4 && altered != frame && !WeakFlip(frame, altered, at)
    ensures Decode(codec, mode, altered + rest) == Corrupt(rest)
  {
    var data := Compress(codec, compression, c.base.typ, MarshalData(codec, c).value);
    CoveredParts(c.base);
    AlteredFrame(codec, mode, CoveredFields(c.base), data, altered, at, rest);
  }

  /** Bytes that do not decode end a stream with an error, after the chunks before them. */
  lemma {:induction false} CorruptStream<T>(
    codec: Codec<T>, mode: Mode, compression: byte, cs: seq<Chunk<T>>, bad: ByteString)
    requires codec.GzipInverts() && AllEncodable(codec, compression, cs) && AllInStep(mode, compression, cs)
    requires Decode(codec, ModeAfter(mode, cs), bad).Corrupt?
    ensures var run := DecodeAll(codec, mode, EncodeAll(codec, compression, cs) + bad);
            run.chunks == cs && !run.clean
    decreases |cs|
  {
    hide Decode, Encode, Encodable, InStep;
    if cs == [] {
      assert EncodeAll(codec, compression, cs) + bad == bad;
    } else {
      assert cs[0] in cs;
      var first, tail := Encode(codec, compression, cs[0]), EncodeAll(codec, compression, cs[1..]);
      ModeAfterFirst(mode, cs);
      CorruptStream(codec, NextMode(mode, cs[0]), compression, cs[1..], bad);
      DecodeAllStep(codec, mode, compression, cs[0], tail + bad);
      assert first.value + tail + bad == first.value + (tail + bad);
      assert cs == [cs[0]] + cs[1..];
    }
  }

  /** The altered chunk inside a stream: the chunks before it, then the error. */
  lemma AlteredStream<T>(
    codec: Codec<T>, mode: Mode, compression: byte, cs: seq<Chunk<T>>, c: Chunk<T>,
    altered: ByteString, at: nat, rest: ByteString)
    requires codec.GzipInverts() && AllEncodable(codec, compression, cs) && AllInStep(mode, compression, cs)
    requires Encodable(codec, compression, c) && Encode(codec, compression, c).Some?
    requires var frame := Encode(codec, compression, c).value;
             AgreeOutside(frame, altered, at) && at >= 4 && altered != frame && !WeakFlip(frame, altered, at)
    ensures var run := DecodeAll(codec, mode, EncodeAll(codec, compression, cs) + (altered + rest));
            run.chunks == cs && !run.clean
  {
    hide *;
    AlteredFirst(codec, ModeAfter(mode, cs), compression, c, altered, at, rest);
    CorruptStream(codec, mode, compression, cs, altered + rest);
  }

  // ----- the length field, which is outside the sum

  /** Read with length `m`, the bytes after the covered fields hold data and its sum. */
  predicate LengthPasses(fields: ByteString, body: ByteString, m: nat) {
    m <= MAX_DATA && m + CRC_SIZE <= |body| && body[m..m + CRC_SIZE] == SumBytes(Digest(fields + body[..m]))
  }

  /** A frame with another length written into it. */
  function Relabelled(fields: ByteString, data: ByteString, m: nat): ByteString {
    BigEndian(m, 4) + Frame(fields, data)[4..]
  }

  lemma RelabelledParts(fields: ByteString, data: ByteString, m: nat, rest: ByteString)
    requires |fields| == COVERED_SIZE && m < LENGTH_RANGE
    ensures var input := Relabelled(fields, data, m) + rest;
            var body := data + SumBytes(Digest(fields + data)) + rest;
            && |input| >= BASE_SIZE && FromBigEndian(input[..4]) == m
            && input[4..BASE_SIZE] == fields && input[BASE_SIZE..] == body
  {
    hide SumBytes, Digest, BigEndian, FromBigEndian, Frame;
    var sum := SumBytes(Digest(fields + data));
    FrameTail(fields, data);
    Pow256Values();
    BigEndianRoundTrip(m, 4);
    var head, body := BigEndian(m, 4), data + sum + rest;
    assert head + ((fields + data) + sum) + rest == head + fields + body;
    assert (head + fields + body)[..4] == head && (head + fields + body)[4..BASE_SIZE] == fields;
    assert (head + fields + body)[BASE_SIZE..] == body;
  }

  /**
    Whatever length is written into a chunk, the decoder takes that many bytes of
    what follows for data, and reports the chunk error exactly unless they are
    within the limit and followed by their own sum.
   */
  lemma ChangedLength<T>(
    codec: Codec<T>, mode: Mode, fields: ByteString, data: ByteString, m: nat, rest: ByteString)
    requires |fields| == COVERED_SIZE && m < LENGTH_RANGE
    ensures var body := data + SumBytes(Digest(fields + data)) + rest;
            var d := Decode(codec, mode, Relabelled(fields, data, m) + rest);
            if LengthPasses(fields, body, m)
            then d == Outcome(mode, DecodeFields(codec, mode, fields, body[..m]), body[m + CRC_SIZE..])
            else d.Corrupt?
  {
    hide SumBytes, Digest, DecodeFields, FromBigEndian, Relabelled;
    RelabelledParts(fields, data, m, rest);
    var input := Relabelled(fields, data, m) + rest;
    var body := data + SumBytes(Digest(fields + data)) + rest;
    if m + CRC_SIZE <= |body| {
      SliceAfter(input, BASE_SIZE, 0, m);
      SliceAfter(input, BASE_SIZE, m, m + CRC_SIZE);
      assert input[BASE_SIZE + m + CRC_SIZE..] == input[BASE_SIZE..][m + CRC_SIZE..];
    }
  }

  lemma SliceAfter(s: ByteString, n: nat, lo: nat, hi: nat)
    requires lo <= hi && n + hi <= |s|
    ensures s[n + lo..n + hi] == s[n..][lo..hi]
  {
  }

  /**
    A length shortened by the size of the sum or more is caught exactly unless the
    chunk's own data holds its sum there.
   */
  lemma ShortenedLength<T>(
    codec: Codec<T>, mode: Mode, fields: ByteString, data: ByteString, m: nat, rest: ByteString)
    requires |fields| == COVERED_SIZE && m < LENGTH_RANGE && m + CRC_SIZE <= |data|
    ensures var d := Decode(codec, mode, Relabelled(fields, data, m) + rest);
            if m <= MAX_DATA && data[m..m + CRC_SIZE] == SumBytes(Digest(fields + data[..m]))
            then
              d == Outcome(mode, DecodeFields(codec, mode, fields, data[..m]),
                           data[m + CRC_SIZE..] + SumBytes(Digest(fields + data)) + rest)
            else d.Corrupt?
  {
    hide SumBytes, Digest, Decode, DecodeFields, Relabelled;
    var sum := SumBytes(Digest(fields + data));
    var body := data + sum + rest;
    ChangedLength(codec, mode, fields, data, m, rest);
    assert body[..m] == data[..m] && body[m..m + CRC_SIZE] == data[m..m + CRC_SIZE];
    assert body[m + CRC_SIZE..] == data[m + CRC_SIZE..] + sum + rest;
  }

  /**
    In particular, data that opens with some data and its sum decodes, once the length
    is shortened, as that data alone.
   */
  lemma LengthFieldUnprotected<T>(
    codec: Codec<T>, mode: Mode, fields: ByteString, data: ByteString, extra: ByteString, rest: ByteString)
    requires |fields| == COVERED_SIZE && |data| <= MAX_DATA
    ensures var whole := data + SumBytes(Digest(fields + data)) + extra;
            Decode(codec, mode, Relabelled(fields, whole, |data|) + rest)
            == Outcome(mode, DecodeFields(codec, mode, fields, data), extra + SumBytes(Digest(fields + whole)) + rest)
  {
    hide SumBytes, Digest, Decode, DecodeFields, Relabelled;
    var sum := SumBytes(Digest(fields + data));
    var whole := data + sum + extra;
    assert whole[..|data|] == data && whole[|data|..|data| + CRC_SIZE] == sum && whole[|data| + CRC_SIZE..] == extra;
    ShortenedLength(codec, mode, fields, whole, |data|, rest);
  }

  /** A changed length inside a stream, where it is caught: the chunks before it, then the error. */
  lemma ChangedLengthStream<T>(
    codec: Codec<T>, mode: Mode, compression: byte, cs: seq<Chunk<T>>,
    fields: ByteString, data: ByteString, m: nat, rest: ByteString)
    requires codec.GzipInverts() && AllEncodable(codec, compression, cs) && AllInStep(mode, compression, cs)
    requires |fields| == COVERED_SIZE && m < LENGTH_RANGE
    requires !LengthPasses(fields, data + SumBytes(Digest(fields + data)) + rest, m)
    ensures var run := DecodeAll(codec, mode, EncodeAll(codec, compression, cs) + (Relabelled(fields, data, m) + rest));
            run.chunks == cs && !run.clean
  {
    hide *;
    ChangedLength(codec, ModeAfter(mode, cs), fields, data, m, rest);
    CorruptStream(codec, mode, compression, cs, Relabelled(fields, data, m) + rest);
  }

  // ----- canonical form

  /** A codec whose registered decoders accept only what marshalling the result gives back. */
  ghost predicate CanonicalCodec<T(!new)>(codec: Codec<T>) {
    forall b: Base, data: ByteString :: !BuiltIn(b.typ) && DecodeData(codec, b, data).Some? ==>
      DecodeData(codec, b, data).value.base == b && MarshalData(codec, DecodeData(codec, b, data).value) == Some(data)
  }

  lemma FieldsCanonical(fields: ByteString, b: Base)
    requires |fields| == COVERED_SIZE && Timestamps.Decode(fields[9..21]).Some?
    requires NewBase(fields[..4], fields[8], Timestamps.Decode(fields[9..21]).value, fields[4..8]) == Some(b)
    ensures CoveredFields(b) == fields
  {
    Timestamps.MarshalDecode(fields[9..21]);
    assert fields == fields[..4] + fields[4..8] + [fields[8]] + fields[9..21];
  }

  lemma DecodedFields<T(!new)>(codec: Codec<T>, mode: Mode, compression: byte, fields: ByteString, data: ByteString)
    requires |fields| == COVERED_SIZE && |data| <= MAX_DATA && CanonicalCodec(codec)
    requires DecodeFields(codec, mode, fields, data).Some?
    requires BuiltIn(fields[4..8]) || (mode.compression != GZIP && compression != GZIP)
    ensures var c := DecodeFields(codec, mode, fields, data).value;
            && CoveredFields(c.base) == fields
            && MarshalData(codec, c) == Some(data)
            && Compress(codec, compression, c.base.typ, data) == data
  {
    var b := NewBase(fields[..4], fields[8], Timestamps.Decode(fields[9..21]).value, fields[4..8]).value;
    FieldsCanonical(fields, b);
    assert Limit(data) == data;
    var c := DecodeData(codec, b, data).value;
    if c.Header? && b.typ == HEAD() {
      assert [data[0], data[1]] + data[2..] == data;
    }
  }

  /** Re-encoding an accepted chunk gives back exactly the bytes it was decoded from. */
  lemma Canonical<T(!new)>(codec: Codec<T>, mode: Mode, compression: byte, input: ByteString)
    requires CanonicalCodec(codec) && Decode(codec, mode, input).Ok?
    requires |input| >= BASE_SIZE
    requires BuiltIn(input[8..12]) || (mode.compression != GZIP && compression != GZIP)
    ensures var d := Decode(codec, mode, input);
            Encode(codec, compression, d.chunk).Some? && Encode(codec, compression, d.chunk).value + d.rest == input
  {
    hide Decode, DecodeFields, SumBytes, Digest, MarshalData, Compress, CoveredFields;
    hide CanonicalCodec, BuiltIn, Frame, FromBigEndian;
    DecodeConsumes(codec, mode, input);
    var n := FromBigEndian(input[..4]);
    var fields, data := input[4..BASE_SIZE], input[BASE_SIZE..BASE_SIZE + n];
    AcceptedParts(codec, mode, input, n);
    assert fields[4..8] == input[8..12];
    DecodedFields(codec, mode, compression, fields, data);
    Reassemble(input, n);
  }

  lemma AcceptedParts<T>(codec: Codec<T>, mode: Mode, input: ByteString, n: nat)
    requires |input| >= BASE_SIZE + n + CRC_SIZE && n == FromBigEndian(input[..4])
    ensures var fields, data := input[4..BASE_SIZE], input[BASE_SIZE..BASE_SIZE + n];
            var sum, rest := input[BASE_SIZE + n..BASE_SIZE + n + CRC_SIZE], input[BASE_SIZE + n + CRC_SIZE..];
            Decode(codec, mode, input).Ok? ==>
              && n <= MAX_DATA
              && SumBytes(Digest(fields + data)) == sum
              && DecodeFields(codec, mode, fields, data) == Some(Decode(codec, mode, input).chunk)
              && Decode(codec, mode, input).rest == rest
  {
    hide SumBytes, Digest, DecodeFields, FromBigEndian;
  }

  lemma Reassemble(input: ByteString, n: nat)
    requires |input| >= BASE_SIZE + n + CRC_SIZE && n == FromBigEndian(input[..4])
    ensures var fields, data := input[4..BASE_SIZE], input[BASE_SIZE..BASE_SIZE + n];
            var sum := input[BASE_SIZE + n..BASE_SIZE + n + CRC_SIZE];
            SumBytes(Digest(fields + data)) == sum ==> Frame(fields, data) + input[BASE_SIZE + n + CRC_SIZE..] == input
  {
    hide SumBytes, Digest;
    BigEndianCanonical(input[..4]);
  }

  /** Without gzip, a cleanly decoded stream is the encoding of its chunks. */
  lemma {:induction false} CanonicalStream<T(!new)>(codec: Codec<T>, mode: Mode, compression: byte, input: ByteString)
    requires CanonicalCodec(codec) && DecodeAll(codec, mode, input).clean
    requires mode.compression != GZIP && compression != GZIP
    requires forall c :: c in DecodeAll(codec, mode, input).chunks && c.Header? ==> c.compression != GZIP
    ensures EncodeAll(codec, compression, DecodeAll(codec, mode, input).chunks) == input
    decreases |input|
  {
    match Decode(codec, mode, input)
    case AtEof =>
    case Ok(c, next, rest) =>
      var tail := DecodeAll(codec, next, rest).chunks;
      Canonical(codec, mode, compression, input);
      hide Decode, Encode;
      assert ([c] + tail)[0] == c && ([c] + tail)[1..] == tail;
      assert c in [c] + tail && forall d :: d in tail ==> d in [c] + tail;
      CanonicalStream(codec, next, compression, rest);
  }

  /** Hence two streams that decode to the same chunks are the same bytes. */
  lemma DecodingInjective<T(!new)>(codec: Codec<T>, mode: Mode, a: ByteString, b: ByteString)
    requires CanonicalCodec(codec) && mode.compression != GZIP
    requires DecodeAll(codec, mode, a) == DecodeAll(codec, mode, b) && DecodeAll(codec, mode, a).clean
    requires forall c :: c in DecodeAll(codec, mode, a).chunks && c.Header? ==> c.compression != GZIP
    ensures a == b
  {
    CanonicalStream(codec, mode, 0, a);
    CanonicalStream(codec, mode, 0, b);
  }
}
