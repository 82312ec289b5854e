/** What the decoder recovers from whole and cut encodings, and from encodings too large for it. */
module Streams {
  import opened Bytes
  import opened Options
  import opened Crc32
  import opened Chunks
  import Timestamps

  // ----- one chunk

  /** What a chunk needs to survive a trip through the format under an encoder's compression. */
  ghost predicate Encodable<T>(codec: Codec<T>, compression: byte, c: Chunk<T>) {
    && |c.base.protocol| == NAME_SIZE && |c.base.typ| == NAME_SIZE && ValidDirection(c.base.direction)
    && match c {
      case Header(b, _, _, sessionId) => b.typ == HEAD() && |sessionId| + 2 <= MAX_DATA
      case End(b) => b.typ == DONE()
      case Body(b, value) =>
        && !BuiltIn(b.typ)
        && codec.marshal(value).Some?
        && var data := codec.marshal(value).value;
        && |data| <= MAX_DATA && |Compress(codec, compression, b.typ, data)| <= MAX_DATA
        && DecodeData(codec, b, data) == Some(c)
    }
  }

  /** Only the content of registered chunks depends on the compression, and only on gzip or not. */
  ghost predicate InStep<T>(mode: Mode, compression: byte, c: Chunk<T>) {
    c.Body? ==> (mode.compression == GZIP <==> compression == GZIP)
  }

  lemma FrameParts(fields: ByteString, data: ByteString, rest: ByteString)
    requires |fields| == COVERED_SIZE && |data| <= MAX_DATA
    ensures var input := Frame(fields, data) + rest; var n := |data|;
            && |Frame(fields, data)| == BASE_SIZE + n + CRC_SIZE
            && FromBigEndian(input[..4]) == n
            && input[4..BASE_SIZE] == fields
            && input[BASE_SIZE..BASE_SIZE + n] == data
            && input[BASE_SIZE + n..BASE_SIZE + n + CRC_SIZE] == SumBytes(Digest(fields + data))
            && input[BASE_SIZE + n + CRC_SIZE..] == rest
  {
    var input := Frame(fields, data) + rest;
    assert input[..4] == BigEndian(|data|, 4);
    Pow256Values();
    BigEndianRoundTrip(|data|, 4);
  }

  function Outcome<T>(mode: Mode, c: Option<Chunk<T>>, rest: ByteString): Decoded<T> {
    match c
    case None => Corrupt(rest)
    case Some(chunk) => Ok(chunk, NextMode(mode, chunk), rest)
  }

  lemma DecodeFrame<T>(codec: Codec<T>, mode: Mode, fields: ByteString, data: ByteString, rest: ByteString)
    requires |fields| == COVERED_SIZE && |data| <= MAX_DATA
    ensures Decode(codec, mode, Frame(fields, data) + rest)
         == Outcome(mode, DecodeFields(codec, mode, fields, data), rest)
  {
    hide Frame, SumBytes, Digest, DecodeFields;
    FrameParts(fields, data, rest);
  }

  lemma CoveredParts(b: Base)
    requires |b.protocol| == NAME_SIZE && |b.typ| == NAME_SIZE
    ensures var f := CoveredFields(b);
            && |f| == COVERED_SIZE
            && f[..4] == b.protocol && f[4..8] == b.typ && f[8] == b.direction
            && Timestamps.Decode(f[9..21]) == Some(b.timestamp)
  {
    var f := CoveredFields(b);
    assert f[9..21] == Timestamps.Marshal(b.timestamp);
    Timestamps.DecodeMarshal(b.timestamp);
  }

  lemma DecodeFieldsEncoded<T>(codec: Codec<T>, mode: Mode, compression: byte, c: Chunk<T>)
    requires codec.GzipInverts() && Encodable(codec, compression, c) && InStep(mode, compression, c)
    ensures MarshalData(codec, c).Some?
    ensures var data := Compress(codec, compression, c.base.typ, MarshalData(codec, c).value);
            && |data| <= MAX_DATA
            && |CoveredFields(c.base)| == COVERED_SIZE
            && DecodeFields(codec, mode, CoveredFields(c.base), data) == Some(c)
  {
    CoveredParts(c.base);
    var b, f, data := c.base, CoveredFields(c.base), MarshalData(codec, c).value;
    assert NewBase(f[..4], f[8], b.timestamp, f[4..8]) == Some(b);
    assert data[..|data|] == data;
    if c.Header? {
      assert data[2..] == c.sessionId;
    }
  }

  lemma DecodeEncode<T>(codec: Codec<T>, mode: Mode, compression: byte, c: Chunk<T>, rest: ByteString)
    requires codec.GzipInverts() && Encodable(codec, compression, c) && InStep(mode, compression, c)
    ensures Encode(codec, compression, c).Some?
    ensures Decode(codec, mode, Encode(codec, compression, c).value + rest) == Ok(c, NextMode(mode, c), rest)
  {
    DecodeFieldsEncoded(codec, mode, compression, c);
    var data := Compress(codec, compression, c.base.typ, MarshalData(codec, c).value);
    DecodeFrame(codec, mode, CoveredFields(c.base), data, rest);
  }

  // ----- whole streams

  ghost predicate AllEncodable<T>(codec: Codec<T>, compression: byte, cs: seq<Chunk<T>>) {
    forall c :: c in cs ==> Encodable(codec, compression, c)
  }

  ghost predicate AllInStep<T>(mode: Mode, compression: byte, cs: seq<Chunk<T>>)
    decreases |cs|
  {
    cs == [] || (InStep(mode, compression, cs[0]) && AllInStep(NextMode(mode, cs[0]), compression, cs[1..]))
  }

  /** The concatenated encodings; a chunk that cannot be marshalled writes nothing. */
  function EncodeAll<T>(codec: Codec<T>, compression: byte, cs: seq<Chunk<T>>): ByteString {
    if cs == [] then []
    else
      var first := Encode(codec, compression, cs[0]);
      (if first.Some? then first.value else []) + EncodeAll(codec, compression, cs[1..])
  }

  /** The decoder's mode after `cs`: what the last header said, or the starting mode. */
  function ModeAfter<T>(mode: Mode, cs: seq<Chunk<T>>): Mode {
    if cs == [] then mode
    else if cs[|cs| - 1].Header? then Mode(cs[|cs| - 1].compression, cs[|cs| - 1].encryption)
    else ModeAfter(mode, cs[..|cs| - 1])
  }

  lemma {:induction false} ModeAfterFirst<T>(mode: Mode, cs: seq<Chunk<T>>)
    requires cs != []
    ensures ModeAfter(mode, cs) == ModeAfter(NextMode(mode, cs[0]), cs[1..])
  {
    if |cs| > 1 {
      ModeAfterFirst(mode, cs[..|cs| - 1]);
      assert cs[..|cs| - 1][1..] == cs[1..][..|cs| - 2];
    }
  }

  /** Every run of the decoder, on any input, ends in the mode its last header set. */
  lemma {:induction false} DecodeAllMode<T>(codec: Codec<T>, mode: Mode, input: ByteString)
    ensures DecodeAll(codec, mode, input).mode == ModeAfter(mode, DecodeAll(codec, mode, input).chunks)
    decreases |input|
  {
    match Decode(codec, mode, input)
    case Ok(c, next, rest) =>
      DecodeAllMode(codec, next, rest);
      var tail := DecodeAll(codec, next, rest).chunks;
      ModeAfterFirst(mode, [c] + tail);
      assert ([c] + tail)[1..] == tail;
    case _ =>
  }

  lemma DecodeAllEmpty<T>(codec: Codec<T>, mode: Mode)
    ensures DecodeAll(codec, mode, []) == Run([], true, mode)
  {
  }

  lemma DecodeAllStep<T>(codec: Codec<T>, mode: Mode, compression: byte, c: Chunk<T>, rest: ByteString)
    requires codec.GzipInverts() && Encodable(codec, compression, c) && InStep(mode, compression, c)
    ensures Encode(codec, compression, c).Some?
    ensures var tail := DecodeAll(codec, NextMode(mode, c), rest);
            DecodeAll(codec, mode, Encode(codec, compression, c).value + rest)
            == Run([c] + tail.chunks, tail.clean, tail.mode)
  {
    hide Decode, Encode, Encodable, InStep;
    DecodeEncode(codec, mode, compression, c, rest);
  }

  lemma {:induction false} StreamRoundTrip<T>(codec: Codec<T>, mode: Mode, compression: byte, cs: seq<Chunk<T>>)
    requires codec.GzipInverts() && AllEncodable(codec, compression, cs) && AllInStep(mode, compression, cs)
    ensures DecodeAll(codec, mode, EncodeAll(codec, compression, cs)) == Run(cs, true, ModeAfter(mode, cs))
    decreases |cs|
  {
    hide Encode, Encodable;
    if cs != [] {
      hide Decode;
      assert cs[0] in cs;
      DecodeAllStep(codec, mode, compression, cs[0], EncodeAll(codec, compression, cs[1..]));
      StreamRoundTrip(codec, NextMode(mode, cs[0]), compression, cs[1..]);
      ModeAfterFirst(mode, cs);
      assert [cs[0]] + cs[1..] == cs;
    }
  }

  /**
    The condition recordings are written under: every header names the encoder's
    compression, and precedes all content.
   */
  lemma {:induction false} HeadersKeepStep<T>(mode: Mode, compression: byte, cs: seq<Chunk<T>>)
    requires forall c :: c in cs && c.Header? ==> c.compression == compression
    requires
      || mode.compression == compression
      || forall i :: 0 <= i < |cs| && cs[i].Body? ==> exists j :: 0 <= j < i && cs[j].Header?
    ensures AllInStep(mode, compression, cs)
    decreases |cs|
  {
    if cs != [] {
      var next := NextMode(mode, cs[0]);
      assert cs[0] in cs;
      assert cs[0].Body? ==> mode.compression == compression;
      if next.compression != compression {
        forall i | 0 <= i < |cs[1..]| && cs[1..][i].Body? ensures exists j :: 0 <= j < i && cs[1..][j].Header? {
          var j :| 0 <= j < i + 1 && cs[j].Header?;
          assert j != 0;
          assert cs[1..][j - 1].Header?;
        }
      }
      HeadersKeepStep(next, compression, cs[1..]);
    }
  }

  // ----- cut streams

  lemma CutFrame<T>(codec: Codec<T>, mode: Mode, fields: ByteString, data: ByteString, cut: nat)
    requires |fields| == COVERED_SIZE && |data| <= MAX_DATA
    requires 0 < cut < |Frame(fields, data)|
    ensures Decode(codec, mode, Frame(fields, data)[..cut]).Corrupt?
  {
    FrameParts(fields, data, []);
    var whole := Frame(fields, data);
    assert whole + [] == whole;
    if cut >= BASE_SIZE {
      assert whole[..cut][..4] == whole[..4];
    }
  }

  lemma CutFirst<T>(codec: Codec<T>, mode: Mode, compression: byte, cs: seq<Chunk<T>>, cut: nat)
    requires cs != [] && codec.GzipInverts() && Encodable(codec, compression, cs[0]) && InStep(mode, compression, cs[0])
    requires cut < |EncodeAll(codec, compression, cs[..1])|
    ensures |EncodeAll(codec, compression, cs[..0])| == 0 && cut < |EncodeAll(codec, compression, cs)|
    ensures var run := DecodeAll(codec, mode, EncodeAll(codec, compression, cs)[..cut]);
            run.chunks == [] && (run.clean <==> cut == 0)
  {
    var c, tail := cs[0], EncodeAll(codec, compression, cs[1..]);
    DecodeFieldsEncoded(codec, mode, compression, c);
    var first := Encode(codec, compression, c).value;
    assert cs[..0] == [] && cs[..1] == [c] && cs[..1][1..] == [];
    assert EncodeAll(codec, compression, cs[..1]) == first + [] == first;
    assert (first + tail)[..cut] == first[..cut];
    if cut > 0 {
      CutFrame(codec, mode, CoveredFields(c.base),
        Compress(codec, compression, c.base.typ, MarshalData(codec, c).value), cut);
    }
  }

  lemma EncodeAllTake<T>(codec: Codec<T>, compression: byte, cs: seq<Chunk<T>>, k: nat)
    requires 0 < k <= |cs| && Encodable(codec, compression, cs[0])
    ensures Encode(codec, compression, cs[0]).Some?
    ensures EncodeAll(codec, compression, cs[..k])
         == Encode(codec, compression, cs[0]).value + EncodeAll(codec, compression, cs[1..][..k - 1])
  {
    assert cs[..k][0] == cs[0] && cs[..k][1..] == cs[1..][..k - 1];
  }

  lemma CutRest<T>(codec: Codec<T>, mode: Mode, compression: byte, c: Chunk<T>, tail: ByteString, cut: nat)
    requires codec.GzipInverts() && Encodable(codec, compression, c) && InStep(mode, compression, c)
    requires Encode(codec, compression, c).Some?
    requires |Encode(codec, compression, c).value| <= cut <= |Encode(codec, compression, c).value| + |tail|
    ensures var first := Encode(codec, compression, c).value;
            var rest := DecodeAll(codec, NextMode(mode, c), tail[..cut - |first|]);
            var run := DecodeAll(codec, mode, (first + tail)[..cut]);
            run.chunks == [c] + rest.chunks && run.clean == rest.clean
  {
    hide *;
    var first := Encode(codec, compression, c).value;
    DecodeAllStep(codec, mode, compression, c, tail[..cut - |first|]);
    assert (first + tail)[..cut] == first + tail[..cut - |first|];
  }

  lemma {:induction false} CutAfter<T>(
    codec: Codec<T>, mode: Mode, compression: byte, cs: seq<Chunk<T>>, cut: nat, k: nat)
    requires codec.GzipInverts() && AllEncodable(codec, compression, cs) && AllInStep(mode, compression, cs)
    requires k <= |cs| && |EncodeAll(codec, compression, cs[..k])| <= cut <= |EncodeAll(codec, compression, cs)|
    requires k < |cs| ==> cut < |EncodeAll(codec, compression, cs[..k + 1])|
    ensures var run := DecodeAll(codec, mode, EncodeAll(codec, compression, cs)[..cut]);
            && run.chunks == cs[..k]
            && (run.clean <==> cut == |EncodeAll(codec, compression, cs[..k])|)
    decreases |cs|
  {
    hide Decode, Encode, Encodable, InStep, DecodeAll;
    if cs == [] {
      assert EncodeAll(codec, compression, cs)[..cut] == [];
      DecodeAllEmpty(codec, mode);
    } else {
      assert cs[0] in cs;
      if k == 0 {
        CutFirst(codec, mode, compression, cs, cut);
      } else {
        var c, tail := cs[0], EncodeAll(codec, compression, cs[1..]);
        EncodeAllTake(codec, compression, cs, k);
        EncodeAllTake(codec, compression, cs, |cs|);
        assert cs[..|cs|] == cs && cs[1..][..|cs| - 1] == cs[1..];
        if k < |cs| {
          EncodeAllTake(codec, compression, cs, k + 1);
        }
        CutRest(codec, mode, compression, c, tail, cut);
        hide EncodeAll;
        CutAfter(codec, NextMode(mode, c), compression, cs[1..], cut - |Encode(codec, compression, c).value|, k - 1);
        assert cs[..k] == [c] + cs[1..][..k - 1];
      }
    }
  }

  /** How many chunks lie whole in the first `cut` bytes of the stream. */
  function WholeChunks<T>(codec: Codec<T>, compression: byte, cs: seq<Chunk<T>>, cut: nat): (k: nat)
    ensures k <= |cs|
    ensures |EncodeAll(codec, compression, cs[..k])| <= cut
    ensures k < |cs| ==> cut < |EncodeAll(codec, compression, cs[..k + 1])|
  {
    if cs == [] then 0
    else
      var first := EncodeAll(codec, compression, cs[..1]);
      if cut < |first| then assert cs[..0] == []; 0
      else
        var k := WholeChunks(codec, compression, cs[1..], cut - |first|);
        EncodeAllLength(codec, compression, cs, k + 1);
        EncodeAllLength(codec, compression, cs, if k + 1 < |cs| then k + 2 else k + 1);
        k + 1
  }

  lemma EncodeAllLength<T>(codec: Codec<T>, compression: byte, cs: seq<Chunk<T>>, k: nat)
    requires 0 < k <= |cs|
    ensures |EncodeAll(codec, compression, cs[..k])|
         == |EncodeAll(codec, compression, cs[..1])| + |EncodeAll(codec, compression, cs[1..][..k - 1])|
  {
    assert cs[..k][0] == cs[0] && cs[..k][1..] == cs[1..][..k - 1];
    assert cs[..1][0] == cs[0] && cs[..1][1..] == [];
  }

  /**
    Any prefix of a stream yields exactly the chunks that lie whole inside it;
    it ends cleanly exactly when the cut falls on a chunk boundary.
   */
  lemma CutStream<T>(codec: Codec<T>, mode: Mode, compression: byte, cs: seq<Chunk<T>>, cut: nat)
    requires codec.GzipInverts() && AllEncodable(codec, compression, cs) && AllInStep(mode, compression, cs)
    requires cut <= |EncodeAll(codec, compression, cs)|
    ensures var run := DecodeAll(codec, mode, EncodeAll(codec, compression, cs)[..cut]);
            var k := WholeChunks(codec, compression, cs, cut);
            && run.chunks == cs[..k]
            && (run.clean <==> cut == |EncodeAll(codec, compression, cs[..k])|)
  {
    hide *;
    CutAfter(codec, mode, compression, cs, cut, WholeChunks(codec, compression, cs, cut));
  }

  // ----- prefixes

  /** An encoding is a proper prefix of another only if that is longer by a multiple of 4 GiB. */
  lemma PrefixFree<T>(codec: Codec<T>, compression: byte, c: Chunk<T>, compression': byte, c': Chunk<T>)
    requires |c.base.protocol| == |c.base.typ| == |c'.base.protocol| == |c'.base.typ| == NAME_SIZE
    requires Encode(codec, compression, c).Some? && Encode(codec, compression', c').Some?
    requires Encode(codec, compression, c).value <= Encode(codec, compression', c').value
    ensures var e, e' := Encode(codec, compression, c).value, Encode(codec, compression', c').value;
            && (|e'| - |e|) % LENGTH_RANGE == 0
            && (|e'| < |e| + LENGTH_RANGE ==> e == e')
  {
    hide SumBytes, Digest, CoveredFields, Compress, MarshalData, BigEndian, ValidName, Timestamps.Decode;
    CoveredParts(c.base);
    CoveredParts(c'.base);
    var n := |Compress(codec, compression, c.base.typ, MarshalData(codec, c).value)|;
    var n' := |Compress(codec, compression', c'.base.typ, MarshalData(codec, c').value)|;
    SamePrefix(Encode(codec, compression, c).value, Encode(codec, compression', c').value, n, n');
  }

  const LENGTH_RANGE: nat := 0x1_0000_0000

  lemma SamePrefix(e: ByteString, e': ByteString, n: nat, n': nat)
    requires |e| == n + BASE_SIZE + CRC_SIZE && |e'| == n' + BASE_SIZE + CRC_SIZE
    requires e[..4] == BigEndian(n, 4) && e'[..4] == BigEndian(n', 4) && e <= e'
    ensures (|e'| - |e|) % LENGTH_RANGE == 0
    ensures |e'| < |e| + LENGTH_RANGE ==> e == e'
  {
    hide BigEndian, FromBigEndian;
    assert e[..4] == e'[..4];
    Pow256Values();
    BigEndianMod(n, 4);
    BigEndianMod(n', 4);
  }

  /**
    And such a pair exists for every chunk: data that opens with the chunk's own data
    and sum, and wraps the length field.
   */
  lemma WrappedLengthPrefix(fields: ByteString, data: ByteString, filler: ByteString)
    requires |filler| == LENGTH_RANGE - CRC_SIZE
    ensures Frame(fields, data) < Frame(fields, data + SumBytes(Digest(fields + data)) + filler)
  {
    hide BigEndian, SumBytes, Digest;
    var sum := SumBytes(Digest(fields + data));
    var long := data + sum + filler;
    WrappedLength(|data|);
    LongerFrame(BigEndian(|data|, 4), fields, data, sum, filler, SumBytes(Digest(fields + long)));
  }

  lemma WrappedLength(n: nat)
    ensures BigEndian(n + LENGTH_RANGE, 4) == BigEndian(n, 4)
  {
    hide BigEndian, FromBigEndian, Pow256;
    Pow256Values();
    BigEndianMod(n, 4);
    BigEndianMod(n + LENGTH_RANGE, 4);
    BigEndianCanonical(BigEndian(n, 4));
    BigEndianCanonical(BigEndian(n + LENGTH_RANGE, 4));
  }

  lemma LongerFrame(
    head: ByteString, fields: ByteString, data: ByteString, sum: ByteString, filler: ByteString, tail: ByteString)
    requires filler != []
    ensures head + fields + data + sum < head + fields + (data + sum + filler) + tail
  {
    assert head + fields + (data + sum + filler) + tail == (head + fields + data + sum) + (filler + tail);
  }

  // ----- sizes

  /**
    A registered chunk whose names, direction and decoder are in order survives
    exactly when its stored data fits, and its plain data fits or is unharmed by
    the silent cut at MAX_DATA.
   */
  lemma SizesDecide<T>(codec: Codec<T>, mode: Mode, compression: byte, c: Chunk<T>, rest: ByteString)
    requires codec.GzipInverts() && InStep(mode, compression, c) && c.Body?
    requires |c.base.protocol| == NAME_SIZE && |c.base.typ| == NAME_SIZE && ValidDirection(c.base.direction)
    requires !BuiltIn(c.base.typ) && MarshalData(codec, c).Some?
    requires DecodeData(codec, c.base, MarshalData(codec, c).value) == Some(c)
    ensures Encode(codec, compression, c).Some?
    ensures var data := MarshalData(codec, c).value;
            Decode(codec, mode, Encode(codec, compression, c).value + rest) == Ok(c, mode, rest) <==>
              && |Compress(codec, compression, c.base.typ, data)| <= MAX_DATA
              && (|data| <= MAX_DATA || DecodeData(codec, c.base, data[..MAX_DATA]) == Some(c))
  {
    var f, data := CoveredFields(c.base), MarshalData(codec, c).value;
    var wire := Compress(codec, compression, c.base.typ, data);
    CoveredParts(c.base);
    if |wire| <= MAX_DATA {
      BodyFields(codec, mode, compression, c);
      DecodeFrame(codec, mode, f, wire, rest);
    } else {
      OversizeFrame(codec, mode, f, wire, rest);
    }
    hide Decode, DecodeFields, Frame, CoveredFields, Compress, DecodeData;
  }

  /** A header survives exactly when its session id fits, and an end always does. */
  lemma BuiltInSizesDecide<T>(codec: Codec<T>, mode: Mode, compression: byte, c: Chunk<T>, rest: ByteString)
    requires codec.GzipInverts() && !c.Body? && c.base.typ == (if c.Header? then HEAD() else DONE())
    requires |c.base.protocol| == NAME_SIZE && ValidDirection(c.base.direction)
    ensures Encode(codec, compression, c).Some?
    ensures Decode(codec, mode, Encode(codec, compression, c).value + rest) == Ok(c, NextMode(mode, c), rest)
            <==> (c.Header? ==> |c.sessionId| + 2 <= MAX_DATA)
  {
    hide Decode, Frame, CoveredFields;
    if c.Header? && |c.sessionId| + 2 > MAX_DATA {
      CoveredParts(c.base);
      OversizeFrame(codec, mode, CoveredFields(c.base), MarshalData(codec, c).value, rest);
    } else {
      DecodeEncode(codec, mode, compression, c, rest);
    }
  }

  lemma BodyFields<T>(codec: Codec<T>, mode: Mode, compression: byte, c: Chunk<T>)
    requires codec.GzipInverts() && InStep(mode, compression, c) && c.Body?
    requires |c.base.protocol| == NAME_SIZE && |c.base.typ| == NAME_SIZE && ValidDirection(c.base.direction)
    requires !BuiltIn(c.base.typ) && MarshalData(codec, c).Some?
    requires |Compress(codec, compression, c.base.typ, MarshalData(codec, c).value)| <= MAX_DATA
    ensures |CoveredFields(c.base)| == COVERED_SIZE
    ensures var data := MarshalData(codec, c).value;
            DecodeFields(codec, mode, CoveredFields(c.base), Compress(codec, compression, c.base.typ, data))
            == DecodeData(codec, c.base, Limit(data))
  {
    var b, f, data := c.base, CoveredFields(c.base), MarshalData(codec, c).value;
    CoveredParts(b);
    assert NewBase(f[..4], f[8], b.timestamp, f[4..8]) == Some(b);
    assert data[..|data|] == data;
  }

  /** Data over the limit is never read back to its end, even where its length wraps to one within the limit. */
  lemma OversizeFrame<T>(codec: Codec<T>, mode: Mode, fields: ByteString, data: ByteString, rest: ByteString)
    requires |fields| == COVERED_SIZE && MAX_DATA < |data|
    ensures var d := Decode(codec, mode, Frame(fields, data) + rest); d.Ok? ==> d.rest != rest
  {
    hide Decode, SumBytes, Digest, FromBigEndian;
    DecodeConsumes(codec, mode, Frame(fields, data) + rest);
    DecodeWithinLimit(codec, mode, Frame(fields, data) + rest);
  }

  lemma DecodeWithinLimit<T>(codec: Codec<T>, mode: Mode, input: ByteString)
    requires |input| >= BASE_SIZE
    ensures Decode(codec, mode, input).Ok? ==> FromBigEndian(input[..4]) <= MAX_DATA
  {
    hide DecodeFields, SumBytes, Digest, FromBigEndian;
  }
}
