/**
  The encoder as it runs: a cache object taken from a pool, whose 21-byte
  scratch array is never cleared between uses, and an output buffer filled by
  copies.
 */
module Encoders {
  import opened Bytes
  import opened Options
  import opened Crc32
  import opened Chunks
  import Timestamps

  /** Copying as Go does it: as much of `src` as fits from `at` on. */
  function CopyOver(dst: ByteString, at: nat, src: ByteString): (r: ByteString)
    requires at <= |dst|
    ensures |r| == |dst|
  {
    var n := if |src| <= |dst| - at then |src| else |dst| - at;
    dst[..at] + src[..n] + dst[at + n..]
  }

  /** The scratch array after a chunk's fields are copied over what an earlier chunk left there. */
  function Stamp(stale: ByteString, b: Base): (r: ByteString)
    requires |stale| == COVERED_SIZE
    ensures |r| == COVERED_SIZE
  {
    var named := CopyOver(CopyOver(stale, 0, b.protocol), 4, b.typ);
    CopyOver(named[8 := b.direction], 9, Timestamps.Marshal(b.timestamp))
  }

  lemma StampBytes(stale: ByteString, b: Base)
    requires |stale| == COVERED_SIZE && ValidName(b.protocol) && ValidName(b.typ)
    ensures var r := Stamp(stale, b);
            && r[..4] == b.protocol + stale[|b.protocol|..4]
            && r[4..8] == b.typ + stale[4 + |b.typ|..8]
            && r[8..] == [b.direction] + Timestamps.Marshal(b.timestamp)
  {
    hide CopyOver;
    var first := CopyOver(stale, 0, b.protocol);
    var named := CopyOver(first, 4, b.typ);
    var directed := named[8 := b.direction];
    var r := CopyOver(directed, 9, Timestamps.Marshal(b.timestamp));
    CopyOverParts(stale, 0, b.protocol);
    CopyOverParts(first, 4, b.typ);
    CopyOverParts(directed, 9, Timestamps.Marshal(b.timestamp));
    assert r == CopyOver(named[8 := b.direction], 9, Timestamps.Marshal(b.timestamp)) == Stamp(stale, b);
    StampParts(stale, first, named, r, b.protocol, b.typ, b.direction, Timestamps.Marshal(b.timestamp));
  }

  lemma StampParts(
    stale: ByteString, first: ByteString, named: ByteString, r: ByteString,
    protocol: ByteString, typ: ByteString, direction: byte, stamp: ByteString)
    requires |stale| == |first| == |named| == |r| == COVERED_SIZE && |protocol| <= 4 && |typ| <= 4 && |stamp| == 12
    requires first[..|protocol|] == protocol && first[|protocol|..] == stale[|protocol|..]
    requires named[..4] == first[..4] && named[4..4 + |typ|] == typ && named[4 + |typ|..] == first[4 + |typ|..]
    requires r[..9] == named[8 := direction][..9] && r[9..21] == stamp
    ensures r[..4] == protocol + stale[|protocol|..4]
    ensures r[4..8] == typ + stale[4 + |typ|..8]
    ensures r[8..] == [direction] + stamp
  {
    var d := named[8 := direction];
    assert r[..4] == r[..9][..4] == d[..9][..4] == d[..4] == named[..4];
    SplitAt(first, stale, 0, |protocol|, 4);
    assert r[4..8] == r[..9][4..8] == d[..9][4..8] == d[4..8] == named[4..8];
    SplitAt(named, first, 4, 4 + |typ|, 8);
    SameSlice(first, stale, |protocol|, 4 + |typ|, 8);
    assert r[8] == r[..9][8] == d[..9][8] == direction;
    assert r[8..] == [r[8]] + r[9..21];
  }

  lemma SameSlice(a: ByteString, b: ByteString, k: nat, lo: nat, hi: nat)
    requires k <= lo <= hi <= |a| == |b| && a[k..] == b[k..]
    ensures a[lo..hi] == b[lo..hi]
  {
    forall i | lo <= i < hi ensures a[i] == b[i] {
      assert a[i] == a[k..][i - k] && b[i] == b[k..][i - k];
    }
  }

  lemma SplitAt(a: ByteString, b: ByteString, lo: nat, mid: nat, hi: nat)
    requires lo <= mid <= hi <= |a| == |b| && a[mid..] == b[mid..]
    ensures a[lo..hi] == a[lo..mid] + b[mid..hi]
  {
    SameSlice(a, b, mid, mid, hi);
    assert a[lo..hi] == a[lo..mid] + a[mid..hi];
  }

  lemma CopyOverParts(dst: ByteString, at: nat, src: ByteString)
    requires at + |src| <= |dst|
    ensures var r := CopyOver(dst, at, src);
            && r[..at] == dst[..at] && r[at..at + |src|] == src && r[at + |src|..] == dst[at + |src|..]
  {
  }

  lemma StampFull(stale: ByteString, b: Base)
    requires |stale| == COVERED_SIZE && |b.protocol| == NAME_SIZE && |b.typ| == NAME_SIZE
    ensures Stamp(stale, b) == CoveredFields(b)
  {
    StampBytes(stale, b);
    var r := Stamp(stale, b);
    assert r == r[..4] + r[4..8] + r[8..];
  }

  ghost predicate SameFromAnyCache(b: Base, data: ByteString) {
    forall s: ByteString, s': ByteString :: |s| == |s'| == COVERED_SIZE ==>
      Frame(Stamp(s, b), data) == Frame(Stamp(s', b), data)
  }

  /** The bytes written are independent of what the pool hands out exactly when both names fill their fields. */
  lemma PoolIndependentIff(b: Base, data: ByteString)
    requires ValidName(b.protocol) && ValidName(b.typ)
    ensures SameFromAnyCache(b, data) <==> |b.protocol| == NAME_SIZE && |b.typ| == NAME_SIZE
  {
    hide Stamp, Frame;
    if |b.protocol| == NAME_SIZE && |b.typ| == NAME_SIZE {
      forall s: ByteString, s': ByteString | |s| == |s'| == COVERED_SIZE
        ensures Frame(Stamp(s, b), data) == Frame(Stamp(s', b), data)
      {
        StampFull(s, b);
        StampFull(s', b);
      }
    } else {
      var s, s' := seq(COVERED_SIZE, i => 0 as byte), seq(COVERED_SIZE, i => 1 as byte);
      var i := if |b.protocol| < NAME_SIZE then |b.protocol| else 4 + |b.typ|;
      StampLeaks(s, b, i);
      StampLeaks(s', b, i);
      FrameByte(Stamp(s, b), data, i);
      FrameByte(Stamp(s', b), data, i);
    }
  }

  /** The byte after a short name is whatever was there before. */
  lemma StampLeaks(stale: ByteString, b: Base, i: nat)
    requires |stale| == COVERED_SIZE && ValidName(b.protocol) && ValidName(b.typ)
    requires i == |b.protocol| < NAME_SIZE || i == 4 + |b.typ| < 4 + NAME_SIZE
    ensures Stamp(stale, b)[i] == stale[i]
  {
    hide Stamp;
    StampBytes(stale, b);
    var r := Stamp(stale, b);
    if i < 4 {
      assert r[i] == r[..4][i] == stale[i..4][0];
    } else {
      assert r[i] == r[4..8][i - 4] == stale[i..8][0];
    }
  }

  lemma FrameByte(fields: ByteString, data: ByteString, i: nat)
    requires i < |fields|
    ensures Frame(fields, data)[4 + i] == fields[i]
  {
    hide SumBytes, Digest, BigEndian;
  }

  /** Decoders that build their chunk on the base they are given. */
  ghost predicate KeepsBase<T(!new)>(codec: Codec<T>) {
    forall b: Base, data: ByteString :: DecodeData(codec, b, data).Some? ==> DecodeData(codec, b, data).value.base == b
  }

  /** A chunk with a short name is never the one decoded. */
  lemma ShortNamesDoNotSurvive<T(!new)>(codec: Codec<T>, mode: Mode, input: ByteString)
    requires KeepsBase(codec) && Decode(codec, mode, input).Ok?
    ensures var b := Decode(codec, mode, input).chunk.base; |b.protocol| == NAME_SIZE && |b.typ| == NAME_SIZE
  {
    hide SumBytes, Digest, DecodeData;
  }

  class EncodeCache {
    const crced: array<byte>
    var compress: ByteString
    var crc: Register

    constructor ()
      ensures crced.Length == COVERED_SIZE && fresh(crced)
    {
      crced := new byte[COVERED_SIZE](i => 0);
      compress := [];
      crc := Constant(true);
    }

    /** Clears the buffer and the running sum, and leaves the scratch array as it was. */
    method Reset()
      modifies this
      ensures compress == [] && crc == Constant(true)
    {
      compress := [];
      crc := Constant(true);
    }

    method WriteCrc(bs: ByteString)
      modifies this`crc
      ensures crc == Feed(old(crc), BitsOf(bs))
    {
      crc := Feed(crc, BitsOf(bs));
    }
  }

  method CopyInto(dst: array<byte>, at: nat, src: ByteString)
    requires at <= dst.Length
    modifies dst
    ensures dst[..] == CopyOver(old(dst[..]), at, src)
  {
    var i := 0;
    while i < |src| && at + i < dst.Length
      invariant i <= |src| && at + i <= dst.Length
      invariant dst[..] == old(dst[..])[..at] + src[..i] + old(dst[..])[at + i..]
    {
      dst[at + i] := src[i];
      i := i + 1;
    }
  }

  method FillFields(crced: array<byte>, b: Base)
    requires crced.Length == COVERED_SIZE
    modifies crced
    ensures crced[..] == Stamp(old(crced[..]), b)
  {
    CopyInto(crced, 0, b.protocol);
    CopyInto(crced, 4, b.typ);
    crced[8] := b.direction;
    CopyInto(crced, 9, Timestamps.Marshal(b.timestamp));
  }

  method Assemble(fields: ByteString, data: ByteString, sum: ByteString) returns (chunk: ByteString)
    requires |fields| == COVERED_SIZE && |sum| == CRC_SIZE
    ensures chunk == BigEndian(|data|, 4) + fields + data + sum
  {
    var buf := new byte[BASE_SIZE + |data| + CRC_SIZE](i => 0);
    var length := BigEndian(|data|, 4);
    CopyInto(buf, 0, length);
    assert buf[..4] == length;
    CopyInto(buf, 4, fields);
    assert buf[..BASE_SIZE] == length + fields;
    CopyInto(buf, BASE_SIZE, data);
    assert buf[..BASE_SIZE + |data|] == length + fields + data;
    CopyInto(buf, BASE_SIZE + |data|, sum);
    chunk := buf[..];
    assert chunk == buf[..BASE_SIZE + |data|] + sum;
  }

  class ChunkEncoder<T> {
    const compression: byte
    var written: ByteString

    constructor (compression: byte)
      ensures written == [] && this.compression == compression
    {
      this.compression := compression;
      written := [];
    }

    /**
      Encodes through whatever cache the pool handed out, to a writer that takes
      `room` more bytes. A marshalling error writes nothing; a writer that runs out
      of room has taken what fits.
     */
    method Encode(codec: Codec<T>, cache: EncodeCache, c: Chunk<T>, room: nat) returns (n: nat, ok: bool)
      requires cache.crced.Length == COVERED_SIZE
      modifies this`written, cache, cache.crced
      ensures MarshalData(codec, c).None? ==> !ok && n == 0 && written == old(written)
      ensures MarshalData(codec, c).Some? ==>
        var data := Compress(codec, compression, c.base.typ, MarshalData(codec, c).value);
        var frame := Frame(Stamp(old(cache.crced[..]), c.base), data);
        && (ok <==> |frame| <= room)
        && n == (if ok then |frame| else room) && written == old(written) + frame[..n]
      ensures ok && |c.base.protocol| == NAME_SIZE && |c.base.typ| == NAME_SIZE ==>
        Chunks.Encode(codec, compression, c).Some? &&
        written == old(written) + Chunks.Encode(codec, compression, c).value
    {
      hide Compress, MarshalData, SumBytes, Stamp, BitsOf, Feed, CoveredFields, BigEndian;
      cache.Reset();
      var marshalled := MarshalData(codec, c);
      if marshalled.None? {
        return 0, false;
      }
      var b := c.base;
      cache.compress := Compress(codec, compression, b.typ, marshalled.value);

      ghost var stale := cache.crced[..];
      FillFields(cache.crced, b);
      var fields := cache.crced[..];
      cache.WriteCrc(fields);
      cache.WriteCrc(cache.compress);
      DigestConcat(fields, cache.compress);
      var chunk := Assemble(fields, cache.compress, SumBytes(cache.crc));
      ok := |chunk| <= room;
      n := if ok then |chunk| else room;
      written := written + chunk[..n];
      assert ok ==> chunk[..n] == chunk;
      if |b.protocol| == NAME_SIZE && |b.typ| == NAME_SIZE {
        StampFull(stale, b);
      }
    }
  }
}
