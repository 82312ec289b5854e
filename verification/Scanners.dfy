/** The scanner over a decoder, with its rolling checksum, and the walk that drives it to the end of a file. */
module Scanners {
  import opened Bytes
  import opened Options
  import opened Chunks
  import opened Decoders

  function MAGIC(): ByteString { [0x89, 0x42, 0x53, 0x52, 0x0D, 0x0A, 0x1A, 0x0A] }

  /** The rolling sum, as a function of all bytes read. */
  type Hash = ByteString -> ByteString

  datatype ScanError = BadChunk | BadChecksum | CallbackFailed

  datatype Scanned<T> = Finished | Failed(error: ScanError) | Found(chunk: Chunk<T>)

  predicate Mismatch(hash: Hash, expected: ByteString, read: ByteString) {
    expected != [] && hash(read) != expected
  }

  /** The scanner's verdict on a decoder's outcome, with the bytes read by then. */
  function Judge<T>(hash: Hash, expected: ByteString, d: Decoded<T>, read: ByteString): Scanned<T> {
    match d
    case AtEof => if Mismatch(hash, expected, read) then Failed(BadChecksum) else Finished
    case Corrupt(_) => Failed(BadChunk)
    case Ok(c, _, _) => if c.base.typ == DONE() && Mismatch(hash, expected, read) then Failed(BadChecksum) else Found(c)
  }

  function ScanOne<T>(
    codec: Codec<T>, hash: Hash, expected: ByteString, mode: Mode, content: ByteString, pos: nat): Scanned<T>
    requires pos <= |content|
  {
    var d := Decode(codec, mode, content[pos..]);
    DecodeConsumes(codec, mode, content[pos..]);
    Judge(hash, expected, d, if d.Ok? then content[..|content| - |d.rest|] else content)
  }

  /** What the caller's function answers, given the chunks it has seen before. */
  type Callback<!T> = (seq<Chunk<T>>, Chunk<T>) -> bool

  datatype Walked<T> = Walked(calls: seq<Chunk<T>>, error: Option<ScanError>)

  function Walk<T>(
    codec: Codec<T>, hash: Hash, expected: ByteString, f: Callback<T>,
    mode: Mode, content: ByteString, pos: nat, calls: seq<Chunk<T>>): Walked<T>
    requires pos <= |content|
    decreases |content| - pos
  {
    match ScanOne(codec, hash, expected, mode, content, pos)
    case Finished => Walked(calls, None)
    case Failed(e) => Walked(calls, Some(e))
    case Found(c) =>
      if !f(calls, c) then Walked(calls + [c], Some(CallbackFailed))
      else
        var d := Decode(codec, mode, content[pos..]);
        Walk(codec, hash, expected, f, d.mode, content, |content| - |d.rest|, calls + [c])
  }

  method ReadMagic(r: ByteReader) returns (ok: bool)
    requires r.Valid()
    modifies r`pos
    ensures r.Valid()
    ensures ok <==> MAGIC() <= old(r.Remaining())
    ensures ok ==> r.pos == old(r.pos) + |MAGIC()|
  {
    var m, status := r.ReadFull(|MAGIC()|);
    ok := status.Full? && m == MAGIC();
  }

  class ChunkScanner<T> {
    const expected: ByteString
    const reader: ByteReader
    const decoder: ChunkDecoder<T>

    ghost predicate Valid()
      reads this, reader
    {
      decoder.reader == reader && reader.Valid()
    }

    constructor (reader: ByteReader, expected: ByteString)
      requires reader.Valid()
      ensures Valid() && this.reader == reader && this.expected == expected && decoder.mode == INITIAL && fresh(decoder)
    {
      this.expected := expected;
      this.reader := reader;
      decoder := new ChunkDecoder(reader);
    }

    method Scan(codec: Codec<T>, hash: Hash) returns (r: Scanned<T>)
      requires Valid()
      modifies reader`pos, decoder`mode
      ensures Valid()
      ensures r == ScanOne(codec, hash, expected, old(decoder.mode), reader.content, old(reader.pos))
      ensures r.Found? ==>
        var d := Decode(codec, old(decoder.mode), old(reader.Remaining()));
        d.Ok? && decoder.mode == d.mode && reader.pos == |reader.content| - |d.rest| && old(reader.pos) < reader.pos
    {
      hide Decode;
      ghost var d := Decode(codec, decoder.mode, reader.Remaining());
      DecodeConsumes(codec, decoder.mode, reader.Remaining());
      var res := decoder.Decode(codec);
      assert |reader.Remaining()| == |reader.content| - reader.pos;
      assert d.AtEof? ==> reader.content[..reader.pos] == reader.content;
      var complete := res.EndOfInput? || (res.Good? && res.chunk.base.typ == DONE());
      if complete && expected != [] && expected != hash(reader.content[..reader.pos]) {
        r := Failed(BadChecksum);
      } else {
        r := match res
          case EndOfInput => Finished
          case ChunkError => Failed(BadChunk)
          case Good(c) => Found(c);
      }
      assert r == Judge(hash, expected, d, reader.content[..reader.pos]);
    }
  }

  /** A scanner positioned after the magic string, or none when the file does not start with it. */
  method NewChunkScanner<T>(r: ByteReader, expected: ByteString) returns (s: ChunkScanner?<T>)
    requires r.Valid()
    modifies r`pos
    ensures s == null <==> !(MAGIC() <= old(r.Remaining()))
    ensures s != null ==>
      && s.Valid() && s.reader == r && s.expected == expected && s.decoder.mode == INITIAL
      && fresh(s) && fresh(s.decoder) && r.pos == old(r.pos) + |MAGIC()|
  {
    var ok := ReadMagic(r);
    if !ok {
      return null;
    }
    s := new ChunkScanner(r, expected);
  }

  method ChunkWalk<T>(codec: Codec<T>, hash: Hash, s: ChunkScanner<T>, f: Callback<T>) returns (w: Walked<T>)
    requires s.Valid()
    modifies s.reader`pos, s.decoder`mode
    ensures w == Walk(codec, hash, s.expected, f, old(s.decoder.mode), s.reader.content, old(s.reader.pos), [])
  {
    hide Decode;
    var calls: seq<Chunk<T>> := [];
    while true
      invariant s.Valid()
      invariant Walk(codec, hash, s.expected, f, old(s.decoder.mode), s.reader.content, old(s.reader.pos), [])
             == Walk(codec, hash, s.expected, f, s.decoder.mode, s.reader.content, s.reader.pos, calls)
      decreases |s.reader.content| - s.reader.pos
    {
      var r := s.Scan(codec, hash);
      match r
      case Finished => return Walked(calls, None);
      case Failed(e) => return Walked(calls, Some(e));
      case Found(c) =>
        var ok := f(calls, c);
        calls := calls + [c];
        if !ok {
          return Walked(calls, Some(CallbackFailed));
        }
    }
  }
}
