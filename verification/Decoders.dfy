/** The decoder as it runs: a reader that is consumed, and a mode that headers change. */
module Decoders {
  import opened Bytes
  import opened Options
  import opened Crc32
  import opened Chunks

  datatype ReadStatus = Full | Eof | Short

  class ByteReader {
    const content: ByteString
    var pos: nat

    ghost predicate Valid()
      reads this
    {
      pos <= |content|
    }

    ghost function Remaining(): ByteString
      requires Valid()
      reads this
    {
      content[pos..]
    }

    constructor (content: ByteString)
      ensures Valid() && this.content == content && pos == 0
    {
      this.content := content;
      pos := 0;
    }

    /** Fills a buffer of `n` bytes; running out part way consumes what there was. */
    method ReadFull(n: nat) returns (buf: ByteString, status: ReadStatus)
      requires Valid()
      modifies this`pos
      ensures Valid()
      ensures status.Full? <==> n <= |old(Remaining())|
      ensures status.Full? ==> buf == old(Remaining())[..n] && Remaining() == old(Remaining())[n..]
      ensures status.Eof? <==> 0 < n && old(Remaining()) == []
      ensures !status.Full? ==> Remaining() == []
    {
      if pos + n <= |content| {
        buf, status := content[pos..pos + n], Full;
        pos := pos + n;
      } else {
        buf, status := [], if pos == |content| then Eof else Short;
        pos := |content|;
      }
    }
  }

  datatype Result<T> = EndOfInput | ChunkError | Good(chunk: Chunk<T>)

  class ChunkDecoder<T> {
    const reader: ByteReader
    var mode: Mode

    constructor (reader: ByteReader)
      ensures this.reader == reader && mode == INITIAL
    {
      this.reader := reader;
      mode := INITIAL;
    }

    method Decode(codec: Codec<T>) returns (r: Result<T>)
      requires reader.Valid()
      modifies this`mode, reader`pos
      ensures reader.Valid()
      ensures match Chunks.Decode(codec, old(mode), old(reader.Remaining())) {
                case AtEof => r == EndOfInput && mode == old(mode) && reader.Remaining() == []
                case Corrupt(rest) => r == ChunkError && mode == old(mode) && reader.Remaining() == rest
                case Ok(c, next, rest) => r == Good(c) && mode == next && reader.Remaining() == rest
              }
    {
      hide DecodeFields, SumBytes, Digest, FromBigEndian;
      ghost var input := reader.Remaining();
      var buf, status := reader.ReadFull(BASE_SIZE);
      if status.Eof? {
        return EndOfInput;
      }
      if status.Short? {
        return ChunkError;
      }
      var length := FromBigEndian(buf[..4]);
      assert buf[..4] == input[..4];
      if length > MAX_DATA {
        return ChunkError;
      }
      var data, sum;
      data, status := reader.ReadFull(length);
      if !status.Full? {
        return ChunkError;
      }
      sum, status := reader.ReadFull(CRC_SIZE);
      if !status.Full? {
        return ChunkError;
      }
      var fields := buf[4..];
      assert fields == input[4..BASE_SIZE] && data == input[BASE_SIZE..BASE_SIZE + length];
      assert sum == input[BASE_SIZE + length..BASE_SIZE + length + CRC_SIZE];
      assert reader.Remaining() == input[BASE_SIZE + length + CRC_SIZE..];
      if SumBytes(Digest(fields + data)) != sum {
        return ChunkError;
      }
      var decoded := DecodeFields(codec, mode, fields, data);
      if decoded.None? {
        return ChunkError;
      }
      var c := decoded.value;
      if c.Header? {
        mode := Mode(c.compression, c.encryption);
      }
      return Good(c);
    }
  }

  /** The global table of decoders. */
  class Registry<T> {
    var decoders: map<ByteString, map<ByteString, Decoder<T>>>

    constructor ()
      ensures decoders == map[]
    {
      decoders := map[];
    }

    ghost predicate Registered(p: ByteString, t: ByteString)
      reads this
    {
      p in decoders && t in decoders[p]
    }

    /** A pair is registered once: a second attempt is refused and changes nothing, a first one changes nothing else. */
    method RegisterChunkType(p: ByteString, t: ByteString, df: Decoder<T>) returns (ok: bool)
      modifies this
      ensures ok <==> !old(Registered(p, t))
      ensures !ok ==> decoders == old(decoders)
      ensures ok ==> Registered(p, t) && decoders[p][t] == df
      ensures forall q, u :: (q, u) != (p, t) ==>
        (Registered(q, u) <==> old(Registered(q, u))) && (Registered(q, u) ==> decoders[q][u] == old(decoders[q][u]))
    {
      var protocol: map<ByteString, Decoder<T>> := if p in decoders then decoders[p] else map[];
      if t in protocol {
        return false;
      }
      decoders := decoders[p := protocol[t := df]];
      return true;
    }
  }
}
