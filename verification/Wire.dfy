/** The recording format byte by byte: what stands where in a chunk, and which bytes are a chunk. */
module Wire {
  import opened Bytes
  import opened Options
  import opened Crc32
  import opened Chunks
  import Scanners
  import Streams
  import Timestamps

  // ----- numbers

  lemma FourByteNumber(bs: ByteString)
    requires |bs| == 4
    ensures FromBigEndian(bs) == bs[0] as int * 0x100_0000 + bs[1] as int * 0x1_0000 + bs[2] as int * 0x100 + bs[3]
  {
    assert bs[..3][..2] == bs[..2] && bs[..2][..1] == bs[..1] && bs[..1][..0] == [];
    assert FromBigEndian(bs[..1]) == bs[0];
    assert FromBigEndian(bs[..2]) == bs[0] as int * 0x100 + bs[1];
    assert FromBigEndian(bs[..3]) == bs[0] as int * 0x1_0000 + bs[1] as int * 0x100 + bs[2];
  }

  lemma EightByteNumber(bs: ByteString)
    requires |bs| == 8
    ensures FromBigEndian(bs) == FromBigEndian(bs[..4]) * 0x1_0000_0000 + FromBigEndian(bs[4..])
  {
    var a, b := bs[..4], bs[4..];
    FourByteNumber(b);
    assert FromBigEndian(bs[..5]) == FromBigEndian(a) * 0x100 + bs[4] by { assert bs[..5][..4] == a; }
    assert FromBigEndian(bs[..6]) == FromBigEndian(a) * 0x1_0000 + bs[4] as int * 0x100 + bs[5] by {
      assert bs[..6][..5] == bs[..5];
    }
    assert FromBigEndian(bs[..7])
        == FromBigEndian(a) * 0x100_0000 + bs[4] as int * 0x1_0000 + bs[5] as int * 0x100 + bs[6] by {
      assert bs[..7][..6] == bs[..6];
    }
    assert bs[..8][..7] == bs[..7] && bs[..8] == bs;
  }

  /** Seconds since the epoch, in two's complement, then nanoseconds. */
  lemma TimestampBytes(t: Timestamps.Timestamp)
    ensures var bs := Timestamps.Marshal(t);
            && FromBigEndian(bs[..8]) == (if t.seconds < 0 then t.seconds + 0x1_0000_0000_0000_0000 else t.seconds)
            && FromBigEndian(bs[8..]) == t.nanos
  {
    hide FromBigEndian, BigEndian;
    var seconds := if t.seconds < 0 then t.seconds + 0x1_0000_0000_0000_0000 else t.seconds;
    Pow256Values();
    BigEndianRoundTrip(seconds, 8);
    BigEndianRoundTrip(t.nanos, 4);
    var a, b := BigEndian(seconds, 8), BigEndian(t.nanos, 4);
    assert (a + b)[..8] == a && (a + b)[8..] == b;
  }

  lemma MagicBytes()
    ensures Scanners.MAGIC() == [0x89, 0x42, 0x53, 0x52, 0x0D, 0x0A, 0x1A, 0x0A]
  {
  }

  // ----- what the encoder writes

  /** Whatever fields and data: the length, the fields, the data, and the sum of fields and data. */
  lemma FrameBytes(fields: ByteString, data: ByteString)
    requires |fields| == 21
    ensures var e, n := Frame(fields, data), |data|;
            && |e| == 29 + n && FromBigEndian(e[..4]) == n % 0x1_0000_0000
            && e[4..25] == fields && e[25..25 + n] == data && e[25 + n..] == SumBytes(Digest(fields + data))
  {
    hide SumBytes, Digest, FromBigEndian, BigEndian;
    var head, sum := BigEndian(|data|, 4), SumBytes(Digest(fields + data));
    Layout(Frame(fields, data), head, fields, data, sum);
    assert (fields + data)[..21] == fields;
    assert Frame(fields, data)[4..25] == Frame(fields, data)[4..25 + |data|][..21];
    Pow256Values();
    BigEndianMod(|data|, 4);
  }

  /**
    A chunk whose names fill their fields: four bytes of length, protocol, type,
    direction, timestamp, the stored data, and the sum of everything between the
    length and the sum.
   */
  lemma EncodedBytes<T>(codec: Codec<T>, compression: byte, c: Chunk<T>)
    requires |c.base.protocol| == |c.base.typ| == 4 && Encode(codec, compression, c).Some?
    ensures var e := Encode(codec, compression, c).value;
            && |e| >= 29
            && var n := |e| - 29;
            && FromBigEndian(e[..4]) == n % 0x1_0000_0000
            && e[4..8] == c.base.protocol && e[8..12] == c.base.typ && e[12] == c.base.direction
            && e[13..25] == Timestamps.Marshal(c.base.timestamp)
            && e[25 + n..] == SumBytes(Digest(e[4..25 + n]))
  {
    hide SumBytes, Digest, CoveredFields, FromBigEndian, BigEndian, Compress, MarshalData;
    var e, f := Encode(codec, compression, c).value, CoveredFields(c.base);
    var data := Compress(codec, compression, c.base.typ, MarshalData(codec, c).value);
    Streams.CoveredParts(c.base);
    StampBytes(c.base);
    var head, sum := BigEndian(|data|, 4), SumBytes(Digest(f + data));
    Layout(e, head, f, data, sum);
    Pow256Values();
    BigEndianMod(|data|, 4);
  }

  lemma StampBytes(b: Base)
    requires |b.protocol| == |b.typ| == 4
    ensures |CoveredFields(b)| == 21 && CoveredFields(b)[9..] == Timestamps.Marshal(b.timestamp)
  {
  }

  lemma Layout(e: ByteString, head: ByteString, f: ByteString, data: ByteString, sum: ByteString)
    requires e == head + f + data + sum && |head| == |sum| == 4 && |f| == 21
    ensures var n := |data|;
            && |e| == 29 + n && e[..4] == head && e[4..25 + n] == f + data
            && e[25..25 + n] == data && e[25 + n..] == sum
            && e[4..8] == f[..4] && e[8..12] == f[4..8] && e[12] == f[8] && e[13..25] == f[9..]
  {
    assert e == head + (f + data) + sum;
    assert e[4..25] == f;
    assert e[4..8] == e[4..25][..4] && e[8..12] == e[4..25][4..8] && e[13..25] == e[4..25][9..];
  }

  /** The stored data: a header's two bytes and session id, nothing for an end, and content compressed for gzip only. */
  lemma StoredBytes<T>(codec: Codec<T>, compression: byte, c: Chunk<T>)
    requires |c.base.protocol| == |c.base.typ| == 4 && Encode(codec, compression, c).Some?
    ensures var e := Encode(codec, compression, c).value;
            && |e| >= 29
            && var data := e[25..|e| - 4];
            && (compression != 1 || c.base.typ in {[0x48, 0x45, 0x41, 0x44], [0x44, 0x4F, 0x4E, 0x45]} ==>
                  match c {
                    case Header(_, compression', encryption, id) => data == [compression', encryption] + id
                    case End(_) => data == []
                    case Body(_, value) => codec.marshal(value) == Some(data)
                  })
            && (compression == 1 && c.base.typ !in {[0x48, 0x45, 0x41, 0x44], [0x44, 0x4F, 0x4E, 0x45]} ==>
                  match c {
                    case Header(_, compression', encryption, id) => data == codec.gzip([compression', encryption] + id)
                    case End(_) => data == codec.gzip([])
                    case Body(_, value) => codec.marshal(value).Some? && data == codec.gzip(codec.marshal(value).value)
                  })
  {
    hide SumBytes, Digest, CoveredFields, BigEndian;
    var e, f := Encode(codec, compression, c).value, CoveredFields(c.base);
    var data := Compress(codec, compression, c.base.typ, MarshalData(codec, c).value);
    StampBytes(c.base);
    Layout(e, BigEndian(|data|, 4), f, data, SumBytes(Digest(f + data)));
  }

  // ----- which bytes are a chunk

  /**
    The decoder takes a chunk off its input exactly if a length within the limit, that
    many bytes and their sum are there.
   */
  lemma DecodeIff<T>(codec: Codec<T>, mode: Mode, input: ByteString, c: Chunk<T>, mode': Mode, rest: ByteString)
    ensures Decode(codec, mode, input) == Ok(c, mode', rest) <==>
      && |input| >= 29
      && var n := FromBigEndian(input[..4]);
      && n <= 6_400_000 && |input| >= 29 + n
      && SumBytes(Digest(input[4..25 + n])) == input[25 + n..29 + n]
      && DecodeFields(codec, mode, input[4..25], input[25..25 + n]) == Some(c)
      && mode' == (if c.Header? then Mode(c.compression, c.encryption) else mode)
      && rest == input[29 + n..]
  {
    hide SumBytes, Digest, DecodeFields, FromBigEndian;
    if |input| >= 29 {
      var n := FromBigEndian(input[..4]);
      if |input| >= 29 + n {
        assert input[4..25] + input[25..25 + n] == input[4..25 + n];
      }
    }
  }

  /**
    After an error the reader stands after the chunk, after its fixed fields if the
    length is too large, or at the end.
   */
  lemma UnreadAfterError<T>(codec: Codec<T>, mode: Mode, input: ByteString)
    requires Decode(codec, mode, input).Corrupt?
    ensures Decode(codec, mode, input).rest ==
      if |input| < 25 then []
      else
        var n := FromBigEndian(input[..4]);
        if n > 6_400_000 then input[25..] else if |input| < 29 + n then [] else input[29 + n..]
  {
    hide SumBytes, Digest, DecodeFields, FromBigEndian;
  }

  /** A direction other than the two, or a nanosecond field out of range, is refused. */
  lemma FieldsRefused<T>(codec: Codec<T>, mode: Mode, fields: ByteString, data: ByteString)
    requires |fields| == 21
    requires fields[8] !in {1, 2} || FromBigEndian(fields[17..]) > 999_999_999
    ensures DecodeFields(codec, mode, fields, data) == None
  {
    hide FromBigEndian, Decompress, DecodeData;
    var stamp := fields[9..21];
    assert stamp[8..12] == fields[17..21] && fields[17..21] == fields[17..];
  }

  /**
    Otherwise the names, the direction and the time are those in the fields. A HEAD is
    a header of two bytes or more, a DONE has no data, and everything else goes, plain
    or through gzip up to the limit, to the decoder registered for its protocol and type.
   */
  lemma FieldsDecode<T>(codec: Codec<T>, mode: Mode, fields: ByteString, data: ByteString, b: Base)
    requires |fields| == 21 && |data| <= 6_400_000
    requires b.protocol == fields[..4] && b.typ == fields[4..8] && b.direction == fields[8] && b.direction in {1, 2}
    requires FromBigEndian(fields[9..17]) ==
      (if b.timestamp.seconds < 0 then b.timestamp.seconds + 0x1_0000_0000_0000_0000 else b.timestamp.seconds)
    requires FromBigEndian(fields[17..]) == b.timestamp.nanos
    ensures DecodeFields(codec, mode, fields, data) ==
      if b.typ == [0x48, 0x45, 0x41, 0x44] then
        (if |data| < 2 then None else Some(Header(b, data[0], data[1], data[2..])))
      else if b.typ == [0x44, 0x4F, 0x4E, 0x45] then
        (if data != [] then None else Some(End(b)))
      else if b.protocol !in codec.registry || b.typ !in codec.registry[b.protocol] then None
      else if mode.compression != 1 then codec.registry[b.protocol][b.typ](b, data)
      else
        match codec.gunzip(data)
        case BadHeader => None
        case Stream(bytes, clean) =>
          if |bytes| >= 6_400_000 then codec.registry[b.protocol][b.typ](b, bytes[..6_400_000])
          else if clean then codec.registry[b.protocol][b.typ](b, bytes)
          else None
  {
    hide FromBigEndian;
    TimestampFields(fields, b.timestamp);
    assert NewBase(fields[..4], fields[8], b.timestamp, fields[4..8]) == Some(b);
  }

  lemma TimestampFields(fields: ByteString, t: Timestamps.Timestamp)
    requires |fields| == 21
    requires FromBigEndian(fields[9..17]) ==
      (if t.seconds < 0 then t.seconds + 0x1_0000_0000_0000_0000 else t.seconds)
    requires FromBigEndian(fields[17..]) == t.nanos
    ensures Timestamps.Decode(fields[9..21]) == Some(t)
  {
    hide FromBigEndian;
    var stamp := fields[9..21];
    assert stamp[..8] == fields[9..17];
    assert stamp[8..12] == fields[17..21] && fields[17..21] == fields[17..];
  }

  // ----- bits

  /** A byte is sent low bit first. */
  lemma ByteBits(b: byte, i: nat)
    requires i < 8
    ensures BitsOf([b])[i] == (b / Pow2(i) % 2 == 1)
    ensures Pow2(i) in {1, 2, 4, 8, 16, 32, 64, 128} && (i < 7 ==> Pow2(i + 1) == 2 * Pow2(i))
  {
    hide LowBits;
    assert [b][..0] == [];
    assert BitsOf([b]) == LowBits(b, 8);
    LowBit(b, 8, i);
    Pow2Seven();
  }

  lemma Pow2Seven()
    ensures Pow2(0) == 1 && Pow2(1) == 2 && Pow2(2) == 4 && Pow2(3) == 8
    ensures Pow2(4) == 16 && Pow2(5) == 32 && Pow2(6) == 64 && Pow2(7) == 128
  {
  }

  lemma {:induction false} LowBit(n: nat, k: nat, i: nat)
    requires i < k
    ensures LowBits(n, k)[i] == (n / Pow2(i) % 2 == 1)
  {
    if i > 0 {
      LowBit(n / 2, k - 1, i - 1);
      HalfDivides(n, Pow2(i - 1));
    }
  }

  lemma HalfDivides(n: nat, p: nat)
    requires p > 0
    ensures n / 2 / p == n / (2 * p)
  {
    var q := n / 2 / p;
    assert q * p <= n / 2 < (q + 1) * p;
    assert q * (2 * p) <= n < (q + 1) * (2 * p);
    DivUnique(n, 2 * p, q);
  }

  lemma DivUnique(n: nat, m: nat, q: nat)
    requires m > 0 && q * m <= n < (q + 1) * m
    ensures n / m == q
  {
    ModUnique(n, m, q, n - q * m);
    assert n / m * m == q * m;
    assert (n / m - q) * m == 0;
  }
}
