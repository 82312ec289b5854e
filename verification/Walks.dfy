/** When a walk over a file succeeds, and what success says about the file. */
module Walks {
  import opened Bytes
  import opened Options
  import opened Chunks
  import opened Scanners
  import opened Crc32Seam
  import Crc32
  import Integrity
  import Streams

  /** Where each decoded chunk ends in the file. */
  function Ends<T>(codec: Codec<T>, mode: Mode, content: ByteString, pos: nat): seq<nat>
    requires pos <= |content|
    decreases |content| - pos
  {
    DecodeConsumes(codec, mode, content[pos..]);
    match Decode(codec, mode, content[pos..])
    case Ok(_, next, rest) => [|content| - |rest|] + Ends(codec, next, content, |content| - |rest|)
    case _ => []
  }

  function Upto(content: ByteString, n: nat): ByteString {
    if n <= |content| then content[..n] else content
  }

  /** The callback accepts every chunk, each in the light of those before it. */
  ghost predicate Accepts<T>(f: Callback<T>, seen: seq<Chunk<T>>, cs: seq<Chunk<T>>)
    decreases |cs|
  {
    cs == [] || (f(seen, cs[0]) && Accepts(f, seen + [cs[0]], cs[1..]))
  }

  /** At every closing chunk, the bytes read by then have the expected sum. */
  ghost predicate DoneSums<T>(hash: Hash, expected: ByteString, content: ByteString, cs: seq<Chunk<T>>, ends: seq<nat>)
    requires |cs| == |ends|
  {
    forall k :: 0 <= k < |cs| && cs[k].base.typ == DONE() ==> !Mismatch(hash, expected, Upto(content, ends[k]))
  }

  lemma DoneSumsCons<T>(
    hash: Hash, expected: ByteString, content: ByteString, c: Chunk<T>, q: nat, cs: seq<Chunk<T>>, ends: seq<nat>)
    requires |cs| == |ends| && q <= |content|
    ensures DoneSums(hash, expected, content, [c] + cs, [q] + ends) <==>
      && (c.base.typ == DONE() ==> !Mismatch(hash, expected, content[..q]))
      && DoneSums(hash, expected, content, cs, ends)
  {
    var cs', ends' := [c] + cs, [q] + ends;
    assert cs'[0] == c && ends'[0] == q;
    if DoneSums(hash, expected, content, cs', ends') {
      forall k | 0 <= k < |cs| && cs[k].base.typ == DONE() ensures !Mismatch(hash, expected, Upto(content, ends[k])) {
        assert cs'[k + 1] == cs[k] && ends'[k + 1] == ends[k];
      }
    }
  }

  lemma AcceptsCons<T>(f: Callback<T>, seen: seq<Chunk<T>>, c: Chunk<T>, cs: seq<Chunk<T>>)
    ensures Accepts(f, seen, [c] + cs) <==> f(seen, c) && Accepts(f, seen + [c], cs)
  {
    assert ([c] + cs)[1..] == cs;
  }

  lemma NothingLeft<T>(hash: Hash, expected: ByteString, f: Callback<T>, content: ByteString, calls: seq<Chunk<T>>)
    ensures Accepts(f, calls, []) && DoneSums<T>(hash, expected, content, [], [])
  {
  }

  /** One step at a chunk, seen by the walk, the decoder's run and the list of ends. */
  lemma StepAtChunk<T>(
    codec: Codec<T>, hash: Hash, expected: ByteString, f: Callback<T>,
    mode: Mode, content: ByteString, pos: nat, calls: seq<Chunk<T>>, d: Decoded<T>)
    requires pos <= |content| && d == Decode(codec, mode, content[pos..]) && d.Ok?
    ensures var q := |content| - |d.rest|;
            && pos < q
            && Ends(codec, mode, content, pos) == [q] + Ends(codec, d.mode, content, q)
            && DecodeAll(codec, mode, content[pos..]).chunks ==
               [d.chunk] + DecodeAll(codec, d.mode, content[q..]).chunks
            && DecodeAll(codec, mode, content[pos..]).clean == DecodeAll(codec, d.mode, content[q..]).clean
            && Walk(codec, hash, expected, f, mode, content, pos, calls) ==
               if d.chunk.base.typ == DONE() && Mismatch(hash, expected, content[..q])
               then Walked(calls, Some(BadChecksum))
               else if !f(calls, d.chunk) then Walked(calls + [d.chunk], Some(CallbackFailed))
               else Walk(codec, hash, expected, f, d.mode, content, q, calls + [d.chunk])
  {
    hide Decode, Mismatch;
    DecodeConsumes(codec, mode, content[pos..]);
    assert content[pos..][|content[pos..]| - |d.rest|..] == content[|content| - |d.rest|..];
  }

  lemma StepAtEnd<T>(
    codec: Codec<T>, hash: Hash, expected: ByteString, f: Callback<T>,
    mode: Mode, content: ByteString, pos: nat, calls: seq<Chunk<T>>, d: Decoded<T>)
    requires pos <= |content| && d == Decode(codec, mode, content[pos..]) && !d.Ok?
    ensures Ends(codec, mode, content, pos) == []
    ensures DecodeAll(codec, mode, content[pos..]).chunks == []
    ensures DecodeAll(codec, mode, content[pos..]).clean <==> d.AtEof?
    ensures Walk(codec, hash, expected, f, mode, content, pos, calls) ==
      Walked(calls, if d.Corrupt? then Some(BadChunk)
                    else if Mismatch(hash, expected, content) then Some(BadChecksum) else None)
  {
    hide Decode, Mismatch;
  }

  lemma {:induction false} EndsLength<T>(codec: Codec<T>, mode: Mode, content: ByteString, pos: nat)
    requires pos <= |content|
    ensures |Ends(codec, mode, content, pos)| == |DecodeAll(codec, mode, content[pos..]).chunks|
    ensures forall k :: 0 <= k < |Ends(codec, mode, content, pos)| ==>
              pos < Ends(codec, mode, content, pos)[k] <= |content|
    ensures forall j, k :: 0 <= j < k < |Ends(codec, mode, content, pos)| ==>
              Ends(codec, mode, content, pos)[j] < Ends(codec, mode, content, pos)[k]
    decreases |content| - pos
  {
    hide *;
    var d := Decode(codec, mode, content[pos..]);
    var f := (seen: seq<Chunk<T>>, c: Chunk<T>) => true;
    if d.Ok? {
      StepAtChunk(codec, x => x, [], f, mode, content, pos, [], d);
      EndsLength(codec, d.mode, content, |content| - |d.rest|);
    } else {
      StepAtEnd(codec, x => x, [], f, mode, content, pos, [], d);
    }
  }

  /**
    The walk visits decoded chunks in order, and all of them when it succeeds. It
    succeeds exactly when the file decodes cleanly, the callback accepts every
    chunk, and the sums are right at the end and at every closing chunk.
   */
  lemma {:induction false} WalkMeaning<T>(
    codec: Codec<T>, hash: Hash, expected: ByteString, f: Callback<T>,
    mode: Mode, content: ByteString, pos: nat, calls: seq<Chunk<T>>)
    requires pos <= |content|
    ensures |Ends(codec, mode, content, pos)| == |DecodeAll(codec, mode, content[pos..]).chunks|
    ensures var w := Walk(codec, hash, expected, f, mode, content, pos, calls);
            var run := DecodeAll(codec, mode, content[pos..]);
            && w.calls <= calls + run.chunks
            && (w.error.None? ==> w.calls == calls + run.chunks)
            && (w.error.None? <==>
                  && run.clean && Accepts(f, calls, run.chunks) && !Mismatch(hash, expected, content)
                  && DoneSums(hash, expected, content, run.chunks, Ends(codec, mode, content, pos)))
    decreases |content| - pos
  {
    hide *;
    var d := Decode(codec, mode, content[pos..]);
    EndsLength(codec, mode, content, pos);
    if d.Ok? {
      var c, q := d.chunk, |content| - |d.rest|;
      StepAtChunk(codec, hash, expected, f, mode, content, pos, calls, d);
      var tail := DecodeAll(codec, d.mode, content[q..]).chunks;
      WalkMeaning(codec, hash, expected, f, d.mode, content, q, calls + [c]);
      DoneSumsCons(hash, expected, content, c, q, tail, Ends(codec, d.mode, content, q));
      AcceptsCons(f, calls, c, tail);
      assert calls + [c] + tail == calls + ([c] + tail);
    } else {
      StepAtEnd(codec, hash, expected, f, mode, content, pos, calls, d);
      NothingLeft(hash, expected, f, content, calls);
      assert calls + [] == calls;
    }
  }

  lemma {:induction false} LastEnd<T>(codec: Codec<T>, mode: Mode, content: ByteString, pos: nat)
    requires pos <= |content| && DecodeAll(codec, mode, content[pos..]).clean
    ensures var ends := Ends(codec, mode, content, pos);
            if ends == [] then pos == |content| else ends[|ends| - 1] == |content|
    decreases |content| - pos
  {
    hide *;
    var d := Decode(codec, mode, content[pos..]);
    var f := (seen: seq<Chunk<T>>, c: Chunk<T>) => true;
    DecodeConsumes(codec, mode, content[pos..]);
    if d.Ok? {
      StepAtChunk(codec, x => x, [], f, mode, content, pos, [], d);
      LastEnd(codec, d.mode, content, |content| - |d.rest|);
    } else {
      StepAtEnd(codec, x => x, [], f, mode, content, pos, [], d);
    }
  }

  ghost predicate Injective(hash: Hash) {
    forall a, b :: hash(a) == hash(b) ==> a == b
  }

  /**
    With a sum expected of a collision-free hash, success means the whole file has it,
    and a closing chunk, if any, ends the file.
   */
  lemma SealedFile<T>(
    codec: Codec<T>, hash: Hash, expected: ByteString, f: Callback<T>, mode: Mode, content: ByteString, pos: nat)
    requires pos <= |content| && expected != [] && Injective(hash)
    requires Walk(codec, hash, expected, f, mode, content, pos, []).error.None?
    ensures hash(content) == expected
    ensures var cs := Walk(codec, hash, expected, f, mode, content, pos, []).calls;
            var ends := Ends(codec, mode, content, pos);
            && |ends| == |cs|
            && forall k :: 0 <= k < |cs| && cs[k].base.typ == DONE() ==> k == |cs| - 1 && ends[k] == |content|
  {
    hide Walk, DecodeAll, Ends;
    WalkMeaning(codec, hash, expected, f, mode, content, pos, []);
    EndsLength(codec, mode, content, pos);
    var cs, ends := DecodeAll(codec, mode, content[pos..]).chunks, Ends(codec, mode, content, pos);
    assert [] + cs == cs;
    forall k | 0 <= k < |cs| && cs[k].base.typ == DONE() ensures k == |cs| - 1 && ends[k] == |content| {
      assert ends[k] == |content| by {
        assert !Mismatch(hash, expected, Upto(content, ends[k]));
        assert Upto(content, ends[k]) == content;
      }
      assert ends[|ends| - 1] <= |content|;
    }
  }

  /** A recording file: the magic string and the encoded chunks. */
  function RecordingFile<T>(codec: Codec<T>, compression: byte, cs: seq<Chunk<T>>): ByteString {
    MAGIC() + Streams.EncodeAll(codec, compression, cs)
  }

  lemma OnlyLastDone<T>(hash: Hash, expected: ByteString, file: ByteString, cs: seq<Chunk<T>>, ends: seq<nat>)
    requires |cs| == |ends| && (cs == [] || ends[|cs| - 1] == |file|)
    requires expected == [] || (expected == hash(file) && forall k :: 0 <= k < |cs| - 1 ==> cs[k].base.typ != DONE())
    ensures DoneSums(hash, expected, file, cs, ends) && !Mismatch(hash, expected, file)
  {
    forall k | 0 <= k < |cs| && cs[k].base.typ == DONE() ensures !Mismatch(hash, expected, Upto(file, ends[k])) {
      if expected != [] {
        assert k == |cs| - 1;
        assert Upto(file, ends[k]) == file;
      }
    }
  }

  /**
    Walking a written file calls back with exactly the chunks written and reports
    success, with its own sum expected or none.
   */
  lemma WalkWrittenFile<T>(
    codec: Codec<T>, hash: Hash, expected: ByteString, f: Callback<T>, compression: byte, cs: seq<Chunk<T>>)
    requires codec.GzipInverts()
    requires Streams.AllEncodable(codec, compression, cs) && Streams.AllInStep(INITIAL, compression, cs)
    requires Accepts(f, [], cs)
    requires expected == [] ||
      (&& expected == hash(RecordingFile(codec, compression, cs))
       && forall k :: 0 <= k < |cs| - 1 ==> cs[k].base.typ != DONE())
    ensures MAGIC() <= RecordingFile(codec, compression, cs)
    ensures var file := RecordingFile(codec, compression, cs);
            Walk(codec, hash, expected, f, INITIAL, file, |MAGIC()|, []) == Walked(cs, None)
  {
    hide Walk, DecodeAll, Ends, DoneSums, Mismatch, Streams.EncodeAll, Streams.AllInStep, Accepts;
    var file, n := RecordingFile(codec, compression, cs), |MAGIC()|;
    assert file[n..] == Streams.EncodeAll(codec, compression, cs);
    Streams.StreamRoundTrip(codec, INITIAL, compression, cs);
    WalkMeaning(codec, hash, expected, f, INITIAL, file, n, []);
    LastEnd(codec, INITIAL, file, n);
    OnlyLastDone(hash, expected, file, cs, Ends(codec, INITIAL, file, n));
    assert [] + cs == cs;
  }

  /** The walk stops short of success at bytes that do not decode. */
  lemma WalkCorruptFile<T>(
    codec: Codec<T>, hash: Hash, expected: ByteString, f: Callback<T>, compression: byte,
    cs: seq<Chunk<T>>, bad: ByteString)
    requires codec.GzipInverts()
    requires Streams.AllEncodable(codec, compression, cs) && Streams.AllInStep(INITIAL, compression, cs)
    requires Decode(codec, Streams.ModeAfter(INITIAL, cs), bad).Corrupt?
    ensures |MAGIC()| <= |RecordingFile(codec, compression, cs) + bad|
    ensures var file := RecordingFile(codec, compression, cs) + bad;
            var w := Walk(codec, hash, expected, f, INITIAL, file, |MAGIC()|, []);
            w.calls <= cs && w.error.Some?
  {
    hide *;
    FileTail(codec, compression, cs, bad);
    Integrity.CorruptStream(codec, INITIAL, compression, cs, bad);
    WalkMeaning(codec, hash, expected, f, INITIAL, RecordingFile(codec, compression, cs) + bad, |MAGIC()|, []);
    assert [] + cs == cs;
  }

  /** So it does at a chunk altered within four bytes after its length field, unless by the weak flip. */
  lemma WalkAlteredFile<T>(
    codec: Codec<T>, hash: Hash, expected: ByteString, f: Callback<T>, compression: byte,
    cs: seq<Chunk<T>>, c: Chunk<T>, altered: ByteString, at: nat, rest: ByteString)
    requires codec.GzipInverts()
    requires Streams.AllEncodable(codec, compression, cs) && Streams.AllInStep(INITIAL, compression, cs)
    requires Streams.Encodable(codec, compression, c) && Encode(codec, compression, c).Some?
    requires var frame := Encode(codec, compression, c).value;
             AgreeOutside(frame, altered, at) && at >= 4 && altered != frame && !Integrity.WeakFlip(frame, altered, at)
    ensures |MAGIC()| <= |RecordingFile(codec, compression, cs) + (altered + rest)|
    ensures var file := RecordingFile(codec, compression, cs) + (altered + rest);
            var w := Walk(codec, hash, expected, f, INITIAL, file, |MAGIC()|, []);
            w.calls <= cs && w.error.Some?
  {
    hide *;
    Integrity.AlteredFirst(codec, Streams.ModeAfter(INITIAL, cs), compression, c, altered, at, rest);
    WalkCorruptFile(codec, hash, expected, f, compression, cs, altered + rest);
  }

  /** And at a chunk with a changed length, where that is caught. */
  lemma WalkChangedLength<T>(
    codec: Codec<T>, hash: Hash, expected: ByteString, f: Callback<T>, compression: byte,
    cs: seq<Chunk<T>>, fields: ByteString, data: ByteString, m: nat, rest: ByteString)
    requires codec.GzipInverts()
    requires Streams.AllEncodable(codec, compression, cs) && Streams.AllInStep(INITIAL, compression, cs)
    requires |fields| == COVERED_SIZE && m < Streams.LENGTH_RANGE
    requires !Integrity.LengthPasses(fields, data + Crc32.SumBytes(Crc32.Digest(fields + data)) + rest, m)
    ensures |MAGIC()| <= |RecordingFile(codec, compression, cs) + (Integrity.Relabelled(fields, data, m) + rest)|
    ensures var file := RecordingFile(codec, compression, cs) + (Integrity.Relabelled(fields, data, m) + rest);
            var w := Walk(codec, hash, expected, f, INITIAL, file, |MAGIC()|, []);
            w.calls <= cs && w.error.Some?
  {
    hide *;
    Integrity.ChangedLength(codec, Streams.ModeAfter(INITIAL, cs), fields, data, m, rest);
    WalkCorruptFile(codec, hash, expected, f, compression, cs, Integrity.Relabelled(fields, data, m) + rest);
  }

  lemma FileTail<T>(codec: Codec<T>, compression: byte, cs: seq<Chunk<T>>, rest: ByteString)
    ensures |MAGIC()| <= |RecordingFile(codec, compression, cs)|
    ensures (RecordingFile(codec, compression, cs) + rest)[|MAGIC()|..]
         == Streams.EncodeAll(codec, compression, cs) + rest
  {
    hide Streams.EncodeAll, MAGIC;
    var magic, stream := MAGIC(), Streams.EncodeAll(codec, compression, cs);
    assert magic + stream + rest == magic + (stream + rest);
  }

  /**
    A file cut short. Within the magic string it is not taken for a recording.
    After it, without a sum the walk succeeds, on the chunks that are left, exactly
    when the cut is on a chunk boundary; with the sum of the whole file, and a
    hash free of collisions, never.
   */
  lemma WalkCutFile<T>(
    codec: Codec<T>, hash: Hash, expected: ByteString, f: Callback<T>, compression: byte, cs: seq<Chunk<T>>, cut: nat)
    requires codec.GzipInverts()
    requires Streams.AllEncodable(codec, compression, cs) && Streams.AllInStep(INITIAL, compression, cs)
    requires cut < |RecordingFile(codec, compression, cs)| && Accepts(f, [], cs)
    ensures var file, n := RecordingFile(codec, compression, cs), |MAGIC()|;
            && (MAGIC() <= file[..cut] <==> n <= cut)
            && (n <= cut ==>
                  var k := Streams.WholeChunks(codec, compression, cs, cut - n);
                  var w := Walk(codec, hash, expected, f, INITIAL, file[..cut], n, []);
                  && (expected == [] ==>
                        && w.calls <= cs[..k]
                        && (w.error.None? <==> cut - n == |Streams.EncodeAll(codec, compression, cs[..k])|)
                        && (w.error.None? ==> w.calls == cs[..k]))
                  && (Injective(hash) && expected != [] && expected == hash(file) ==> w.error.Some?))
  {
    hide Walk, DecodeAll, Ends, Accepts, Streams.EncodeAll, Streams.AllInStep, Streams.Encodable, Streams.WholeChunks;
    var file, n := RecordingFile(codec, compression, cs), |MAGIC()|;
    var part := file[..cut];
    if n <= cut {
      var k := Streams.WholeChunks(codec, compression, cs, cut - n);
      assert part[n..] == Streams.EncodeAll(codec, compression, cs)[..cut - n];
      Streams.CutStream(codec, INITIAL, compression, cs, cut - n);
      AcceptsTake(f, [], cs, k);
      WalkMeaning(codec, hash, expected, f, INITIAL, part, n, []);
      assert [] + cs[..k] == cs[..k];
      assert |part| < |file|;
    }
  }

  lemma {:induction false} AcceptsTake<T>(f: Callback<T>, seen: seq<Chunk<T>>, cs: seq<Chunk<T>>, k: nat)
    requires Accepts(f, seen, cs) && k <= |cs|
    ensures Accepts(f, seen, cs[..k])
    decreases k
  {
    if k > 0 {
      AcceptsTake(f, seen + [cs[0]], cs[1..], k - 1);
      assert cs[..k][1..] == cs[1..][..k - 1];
    }
  }
}
