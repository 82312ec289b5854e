/**
  The chunk format of a session recording, as pure functions: what the encoder
  writes for a chunk, and what the decoder makes of the bytes it is given.
 */
module Chunks {
  import opened Bytes
  import opened Options
  import opened Crc32
  import Timestamps

  const NAME_SIZE := 4                // protocol and chunk type fields
  const COVERED_SIZE := 21            // protocol, type, direction, timestamp
  const BASE_SIZE := 25               // length field and the covered fields
  const CRC_SIZE := 4
  const MAX_DATA := 64 * 100 * 1000

  const GZIP: byte := 1               // any other compression byte means stored as is

  function HEAD(): ByteString { [0x48, 0x45, 0x41, 0x44] }

  function DONE(): ByteString { [0x44, 0x4F, 0x4E, 0x45] }

  datatype Base = Base(protocol: ByteString, direction: byte, timestamp: Timestamps.Timestamp, typ: ByteString)

  /** A chunk: the two built-in kinds, and those of registered protocols, whose content has type T. */
  datatype Chunk<T> =
    | Header(base: Base, compression: byte, encryption: byte, sessionId: ByteString)
    | End(base: Base)
    | Body(base: Base, value: T)

  /** What a gzip reader yields: nothing for a bad header, else bytes followed by a clean end or an error. */
  datatype Gunzipped = BadHeader | Stream(bytes: ByteString, clean: bool)

  type Decoder<!T> = (Base, ByteString) -> Option<Chunk<T>>

  /** The code the format leaves open: content marshalling, the registered decoders, and gzip. */
  datatype Codec<!T> = Codec(
    marshal: T -> Option<ByteString>,
    registry: map<ByteString, map<ByteString, Decoder<T>>>,
    gzip: ByteString -> ByteString,
    gunzip: ByteString -> Gunzipped)
  {
    ghost predicate GzipInverts() {
      forall x :: gunzip(gzip(x)) == Stream(x, true)
    }
  }

  // ----- base chunks

  predicate ValidName(name: ByteString) {
    |name| <= NAME_SIZE
  }

  predicate ValidDirection(d: byte) {
    d == 1 || d == 2
  }

  function NewBase(p: ByteString, d: byte, t: Timestamps.Timestamp, typ: ByteString): Option<Base> {
    if !ValidName(p) || !ValidDirection(d) || !ValidName(typ) then None else Some(Base(p, d, t, typ))
  }

  // ----- chunk data

  predicate BuiltIn(typ: ByteString) {
    typ == HEAD() || typ == DONE()
  }

  function MarshalData<T>(codec: Codec<T>, c: Chunk<T>): Option<ByteString> {
    match c
    case Header(_, compression, encryption, sessionId) => Some([compression, encryption] + sessionId)
    case End(_) => Some([])
    case Body(_, value) => codec.marshal(value)
  }

  function DecodeHeader<T>(base: Base, data: ByteString): Option<Chunk<T>> {
    if base.typ != HEAD() || |data| < 2 then None else Some(Header(base, data[0], data[1], data[2..]))
  }

  function DecodeEnd<T>(base: Base, data: ByteString): Option<Chunk<T>> {
    if base.typ != DONE() || data != [] then None else Some(End(base))
  }

  /**
    Decoding with the function found for the chunk's protocol and type; the built-in
    types come before anything registered under their names.
   */
  function DecodeData<T>(codec: Codec<T>, base: Base, data: ByteString): Option<Chunk<T>> {
    if base.typ == HEAD() then DecodeHeader(base, data)
    else if base.typ == DONE() then DecodeEnd(base, data)
    else if base.protocol in codec.registry && base.typ in codec.registry[base.protocol] then
      codec.registry[base.protocol][base.typ](base, data)
    else None
  }

  function Compress<T>(codec: Codec<T>, compression: byte, typ: ByteString, data: ByteString): ByteString {
    if BuiltIn(typ) || compression != GZIP then data else codec.gzip(data)
  }

  /** Decompression through a reader that stops, without complaint, after MAX_DATA bytes. */
  function Decompress<T>(codec: Codec<T>, compression: byte, typ: ByteString, data: ByteString): Option<ByteString> {
    if BuiltIn(typ) || compression != GZIP then Some(Limit(data))
    else
      match codec.gunzip(data)
      case BadHeader => None
      case Stream(bytes, clean) =>
        if |bytes| >= MAX_DATA then Some(bytes[..MAX_DATA]) else if clean then Some(bytes) else None
  }

  function Limit(data: ByteString): ByteString {
    if |data| > MAX_DATA then data[..MAX_DATA] else data
  }

  // ----- encoding

  /** The covered fields of a chunk whose names fill their fields. */
  function CoveredFields(b: Base): ByteString {
    b.protocol + b.typ + [b.direction] + Timestamps.Marshal(b.timestamp)
  }

  /** A chunk on the wire; the length field keeps the low 32 bits of the length. */
  function Frame(fields: ByteString, data: ByteString): ByteString {
    BigEndian(|data|, 4) + fields + data + SumBytes(Digest(fields + data))
  }

  function Encode<T>(codec: Codec<T>, compression: byte, c: Chunk<T>): Option<ByteString> {
    var data :- MarshalData(codec, c);
    Some(Frame(CoveredFields(c.base), Compress(codec, compression, c.base.typ, data)))
  }

  // ----- decoding

  /** The decoder's state: what the last header announced. */
  datatype Mode = Mode(compression: byte, encryption: byte)

  const INITIAL := Mode(0, 0)

  function NextMode<T>(mode: Mode, c: Chunk<T>): Mode {
    if c.Header? then Mode(c.compression, c.encryption) else mode
  }

  datatype Decoded<T> =
    | AtEof
    | Corrupt(rest: ByteString)
    | Ok(chunk: Chunk<T>, mode: Mode, rest: ByteString)

  function DecodeFields<T>(codec: Codec<T>, mode: Mode, fields: ByteString, data: ByteString): Option<Chunk<T>>
    requires |fields| == COVERED_SIZE
  {
    var timestamp :- Timestamps.Decode(fields[9..21]);
    var base :- NewBase(fields[..4], fields[8], timestamp, fields[4..8]);
    var plain :- Decompress(codec, mode.compression, base.typ, data);
    DecodeData(codec, base, plain)
  }

  /** One call of the decoder on the bytes left in its reader; `rest` is what it leaves unread. */
  function Decode<T>(codec: Codec<T>, mode: Mode, input: ByteString): Decoded<T> {
    if |input| == 0 then AtEof
    else if |input| < BASE_SIZE then Corrupt([])
    else
      var length := FromBigEndian(input[..4]);
      if length > MAX_DATA then Corrupt(input[BASE_SIZE..])
      else if |input| < BASE_SIZE + length + CRC_SIZE then Corrupt([])
      else
        var fields, data := input[4..BASE_SIZE], input[BASE_SIZE..BASE_SIZE + length];
        var sum := input[BASE_SIZE + length..BASE_SIZE + length + CRC_SIZE];
        var rest := input[BASE_SIZE + length + CRC_SIZE..];
        if SumBytes(Digest(fields + data)) != sum then Corrupt(rest)
        else
          match DecodeFields(codec, mode, fields, data)
          case None => Corrupt(rest)
          case Some(c) => Ok(c, NextMode(mode, c), rest)
  }

  /** Each success consumes the frame: 29 bytes and the data it announces. */
  lemma DecodeConsumes<T>(codec: Codec<T>, mode: Mode, input: ByteString)
    ensures Decode(codec, mode, input).AtEof? <==> input == []
    ensures Decode(codec, mode, input).Ok? ==>
      && |input| >= BASE_SIZE
      && |input| == BASE_SIZE + FromBigEndian(input[..4]) + CRC_SIZE + |Decode(codec, mode, input).rest|
      && Decode(codec, mode, input).rest == input[|input| - |Decode(codec, mode, input).rest|..]
  {
    hide DecodeFields, SumBytes, Digest, FromBigEndian;
  }

  /** Repeated decoding to the end of the input or the first error. */
  datatype Run<T> = Run(chunks: seq<Chunk<T>>, clean: bool, mode: Mode)

  function DecodeAll<T>(codec: Codec<T>, mode: Mode, input: ByteString): Run<T>
    decreases |input|
  {
    match Decode(codec, mode, input)
    case AtEof => Run([], true, mode)
    case Corrupt(_) => Run([], false, mode)
    case Ok(c, next, rest) =>
      var tail := DecodeAll(codec, next, rest);
      Run([c] + tail.chunks, tail.clean, tail.mode)
  }
}
