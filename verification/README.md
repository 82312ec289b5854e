# Boundary: session recordings, auth tokens and their neighbours

A Dafny model of the parts of Boundary where the most can go wrong quietly, and proofs
of what those parts promise.

- **Recording format** (`internal/bsr`). `Chunks.dfy` is the chunk format as pure functions, and
  `Wire.dfy` what that comes to byte by byte. `Encoders.dfy`, `Decoders.dfy` and `Scanners.dfy` are the
  objects that run it: the pooled encoder, the decoder that consumes a reader and changes mode at
  headers, and the scanner with its rolling sum. `Streams.dfy`, `Integrity.dfy` and `Walks.dfy` prove what
  whole, cut and altered recordings decode to. `Crc32.dfy` is the CRC-32 of IEEE 802.3 as its bit-serial
  register, `Crc32Residue.dfy` shows which sum it is, and `Crc32Seam.dfy` what bursts it detects.
- **Auth tokens** (`internal/authtoken`). `Tokens.dfy` is the token table as a state machine in which
  validations interleave with everything else. `TokenRuns.dfy` proves its invariants over all
  runs, and `TokenSteps.dfy` what each event does to each row. `Repositories.dfy` is the repository
  object, each method a step of that machine.
- **Transactions** (`internal/db`). `Transactions.dfy` is the retry loop against any behaviour of
  handler and database, and its backoff.
- **Meta files and validation** (`internal/bsr`). `MetaFiles.dfy` and `Validation.dfy`.
- **API helpers** (`api`). `Credentials.dfy` and `CurlQuoting.dfy`.

Assumptions: gzip is a pair of functions with the law `gunzip(gzip(x)) == x`, used where a member
requires it. SHA-256 is a function, taken to be injective only where a member says so. Encryption is a
pair of functions with `decrypt(k, encrypt(k, n, x)) == x`. A transaction is done, not done, or done
although its commit reports an error, as in `Transactions.Db.DoTx`. Controllers and database share
one clock that does not go back; clock readings, delays, random numbers, nonces and the outcomes of
I/O are parameters. The database's part is taken from its schema: the trigger that sets the access
time to the transaction's time, the trigger that keeps an expiration from preceding creation,
the check that an access time is not past the expiration
(`internal/db/schema/migrations/oss/postgres/0/11_auth_token.up.sql`), and the reference
from a row to its key version (`56/02_add_data_key_foreign_key_references.up.sql`).

In one place the code does more than its comment says: times before 1970 are stored and restored too
(`Timestamps.DecodeMarshal`, `Wire.TimestampBytes`).

## Where the code does not keep a promise

Each of these is proved, with the exact condition under which the promise does hold.

- *Bursts across data and sum.* The register sends its low bit first but the sum is stored high byte
  first, so the guarantee of a 32-bit code stops at the seam: flipping the last two covered
  bytes by `61 D8` and the first two of the sum by `F4 EE` passes the check, for every chunk. It is
  the only change confined to four bytes, from the protocol field to the end of the sum, that does
  (`Crc32Seam.BurstChecksIff`, `Integrity.AlteredFrame`).
- *The length field is outside the sum.* Whatever length is written into a chunk, it is caught exactly
  unless that many of the bytes that follow are within the limit and followed by their own sum
  (`Integrity.ChangedLength`); for a shortened length that concerns the chunk's own data only
  (`Integrity.ShortenedLength`, `Integrity.LengthFieldUnprotected`).
- *The comment on `Reset` says it prevents dirty reads.* It leaves the scratch array alone; the bytes written
  are independent of what was there exactly when protocol and type are four bytes long
  (`Encoders.PoolIndependentIff`).
- *Large chunks.* Nothing limits what is encoded; a registered chunk survives exactly when its stored
  data fits and its plain data fits or is unharmed by the silent cut (`Streams.SizesDecide`), a header
  exactly when its session id fits (`Streams.BuiltInSizesDecide`). The constant is
  6,400,000 bytes, not the 64 MB of its comment.
- *No encoding is a proper prefix of another* unless it is longer by a multiple of 4 GiB, where the
  length field wraps, and then one can be (`Streams.PrefixFree`, `Streams.WrappedLengthPrefix`).
- *A cut recording* passes the walk when the cut is on a chunk boundary and no sum is expected
  (`Walks.WalkCutFile`).
- *A name that continues past its suffix* is validated by opening another connection or channel; the
  container validated is the one listed exactly for names that end in the suffix
  (`Validation.LooksUpItself`, `Validation.UnopenedConnectionPasses`, `Validation.UnopenedChannelPasses`).
- *A channel that cannot be opened* is reported in the session's list in place of what was there; the list
  is kept exactly when the channel opens (`Validation.ValidateChannel`). The verdict is right all the
  same (`Validation.Validate`).
- *A meta line over the scanner's limit* ends the reading without an error; a file reads back exactly
  when every value is clean and every line fits (`MetaFiles.MetaRoundTripIff`).
- *A token returned is said to be valid.* Its status is not consulted (`Repositories.ValidationReturnsIff`),
  so a pending token validates (`Repositories.PendingTokenValidates`). A failed one never does
  (`TokenRuns.ReturnedInLife`).
- *A token discarded as stale* is stale or expired at that moment exactly if every access stored since
  it was looked up is the time to stale ago again, or it has expired; two overlapping validations
  can delete a token at the moment one of them returns it
  (`TokenRuns.DiscardRightfulIff`, `TokenRuns.StandoffDiscardsFreshToken`, `TokenRuns.StandoffHappens`).
- *A token unused for the time to stale is discarded*, unless an access to it was stored by a
  transaction that reported an error: the validation failed, but the token lives on. It is discarded
  exactly when that access is as old too (`TokenRuns.LazyAccessTime`, `TokenRuns.LostAccessKeepsToken`).
- *The handler runs at most one time more than the retry count* exactly for counts below 2^64 - 2
  (`Transactions.BoundHoldsIff`). At 2^64 - 2 no attempt number exceeds the bound, and only an attempt
  that is not retried ends the loop (`Transactions.NeverGivesUp`, `Transactions.EndsIff`); at 2^64 - 1
  the handler never runs (`Transactions.NoAttempt`).
- *Backoff* keeps its spread exactly up to attempt 40, and its total up to 39 retries; later ones
  leave the range of a 64-bit duration (`Transactions.ExpBackoffIff`, `Transactions.TotalBackoffIff`).
- *A credential's declared type does not bind.* One declared a key becomes a username and password exactly
  when its attributes fall short and its secret holds one (`Credentials.KeyAsPasswordIff`).
- *Unconsumed credentials.* The mark that says a credential was used is a field that decoding can set, so
  a credential can come out of parsing consumed though nobody used it. Every credential remains after
  parsing exactly if none comes marked (`Credentials.AllRemainIff`), and one does exactly if what was
  decoded into it says so (`Credentials.ComesConsumedIff`, `Credentials.MarkedCredentialIsDropped`).
- *The URL in the printed command* is quoted without escaping; it reads back exactly when it holds no
  single quote (`CurlQuoting.UrlReadsBackIff`).

## Model

| member | source | states |
|---|---|---|
| Timestamps.DecodeMarshal | internal/bsr/timestamp.go:38-47 | every int64 second, negative ones included, and every nanosecond below 10^9 survives the 12 bytes |
| Timestamps.MarshalDecode | internal/bsr/timestamp.go:49-68 | the 12-byte strings accepted are exactly those with a nanosecond field of at most 999999999, and each is the image of what it decodes to |
| Wire.TimestampBytes | internal/bsr/timestamp.go:38-47 | eight bytes of seconds in two's complement, then four of nanoseconds |
| Wire.FourByteNumber | internal/bsr/encode.go:125-128 | numbers stand most significant byte first |
| Wire.EightByteNumber | internal/bsr/timestamp.go:38-47 | and so do those of eight bytes |
| Wire.ByteBits | internal/bsr/encode.go:116-122 | a byte enters the sum low bit first |
| Crc32Residue.ResidueLaw | internal/bsr/encode.go:116-122 | every message followed by its sum, low byte first, leaves the register at 0xDEBB20E3, the residue of the IEEE code |
| Crc32Residue.EmptySum | internal/bsr/encode.go:24-29 | the sum of no bytes is zero, which fixes the start and the final complement |
| Crc32Residue.OneByteSum | internal/bsr/encode.go:116-122 | the sum of the byte 0x61 is E8 B7 BE 43 |
| Crc32.DigestConcat | internal/bsr/encode.go:116-122 | the sum over the encoder's two writes is the decoder's sum of the concatenation |
| Crc32.BurstChangesSum | internal/bsr/decode.go:126-152 | any change confined to 32 consecutive bits of the covered bytes, at any bit offset, changes the sum |
| Crc32Seam.BurstChecksIff | internal/bsr/decode.go:126-152 | over covered bytes and stored sum together, a four-byte change still checks if and only if it is the weak pattern two bytes either side of the seam |
| Wire.FrameBytes | internal/bsr/encode.go:124-128 | a frame is length, fields, data and the sum of fields and data, at their offsets |
| Wire.EncodedBytes | internal/bsr/encode.go:109-128 | where each field of a chunk stands in its encoding, and what its length and sum are over |
| Wire.StoredBytes | internal/bsr/encode.go:85-107 | the stored data of each kind of chunk, compressed for gzip and registered types only |
| Wire.DecodeIff | internal/bsr/decode.go:105-214 | the decoder takes a chunk off its input if and only if a length of at most 6400000, that many bytes and their sum are there and the fields decode; the mode and the rest that leaves |
| Wire.FieldsDecode | internal/bsr/decode.go:154-205 | what fields and data decode to, for headers, ends, and registered types with and without gzip |
| Wire.FieldsRefused | internal/bsr/decode.go:154-170 | a direction other than the two or a nanosecond field out of range is refused |
| Wire.UnreadAfterError | internal/bsr/decode.go:110-152 | where the reader stands after an error |
| Wire.MagicBytes | internal/bsr/magic.go:14-18 | the eight bytes of the magic string |
| Streams.DecodeEncode | internal/bsr/encode.go:75-131 | decoding an encodable chunk followed by anything gives the chunk, the mode it sets, and exactly the rest |
| Streams.StreamRoundTrip | internal/bsr/decode.go:105-214 | repeated decoding of concatenated encodings gives exactly the chunks, then a clean end, in the mode of the last header |
| Streams.HeadersKeepStep | internal/bsr/encode.go:85-100 | headers that name the encoder's compression and come before all content keep decoder and encoder in step |
| Streams.DecodeAllMode | internal/bsr/decode.go:207-211 | on any input, the decoder's mode is that of the last header decoded, or the initial one |
| Streams.WholeChunks | internal/bsr/decode.go:110-148 | for every cut, the number of chunks whose encodings lie whole before it and whose successor's does not |
| Streams.CutStream | internal/bsr/decode.go:110-148 | every prefix of a stream yields exactly the chunks wholly inside it, and ends cleanly if and only if the cut is on a boundary |
| Streams.PrefixFree | internal/bsr/encode.go:124-128 | an encoding is a proper prefix of another only if that is longer by a multiple of 4 GiB |
| Streams.WrappedLengthPrefix | internal/bsr/encode.go:124-125 | and then it can be: every frame is a proper prefix of one 4 GiB longer |
| Streams.SizesDecide | internal/bsr/decode.go:128-195 | a registered chunk of any size survives if and only if its stored data fits and its plain data fits or is unharmed by the silent cut |
| Streams.BuiltInSizesDecide | internal/bsr/decode.go:128-140 | a header survives if and only if its session id fits, and an end always does |
| Integrity.AlteredFrame | internal/bsr/decode.go:121-205 | a four-byte change to an encoded chunk after its length field gives the chunk error and the rest, except the weak flip, which is decoded as written |
| Integrity.AlteredStream | internal/bsr/decode.go:105-152 | in a stream, the chunks before the altered one are returned and then the error |
| Integrity.CorruptStream | internal/bsr/decode.go:105-152 | bytes that do not decode end any stream with an error, after exactly the chunks before them |
| Integrity.ChangedLength | internal/bsr/decode.go:126-152 | with any length written into a chunk, that many of the following bytes are decoded in its place if they fit and their sum follows them, and otherwise the chunk error is reported |
| Integrity.ShortenedLength | internal/bsr/decode.go:126-152 | a shortened length is caught if and only if the chunk's own data does not hold the sum of its start there |
| Integrity.LengthFieldUnprotected | internal/bsr/decode.go:128-140 | data that opens with some data and its sum decodes, once shortened, as that data alone |
| Integrity.ChangedLengthStream | internal/bsr/decode.go:105-152 | where a changed length is caught, the chunks before it are returned and then the error |
| Integrity.Canonical | internal/bsr/decode.go:121-214 | re-encoding an accepted header, end or uncompressed chunk gives back exactly the bytes consumed |
| Integrity.CanonicalStream | internal/bsr/encode.go:109-130 | without gzip, a cleanly decoded stream is the encoding of its chunks |
| Integrity.DecodingInjective | internal/bsr/decode.go:105-214 | two uncompressed streams that decode to the same chunks are the same bytes |
| Encoders.EncodeCache.Reset | internal/bsr/encode.go:24-29 | buffer and running sum start over; the scratch array is kept |
| Encoders.ChunkEncoder.Encode | internal/bsr/encode.go:74-131 | through any cache, the frame over the stale scratch array is appended, or as much of it as the writer takes, with an error; with four-byte names, the pure encoding; a marshalling error writes nothing |
| Encoders.PoolIndependentIff | internal/bsr/encode.go:109-128 | the bytes are the same from every cache if and only if both names are four bytes long |
| Encoders.ShortNamesDoNotSurvive | internal/bsr/decode.go:154-170 | no decoded chunk has a protocol or type shorter than four bytes |
| Decoders.ByteReader.ReadFull | internal/bsr/decode.go:110-119 | a full read, a clean end, or a short read that consumes what was left |
| Decoders.ChunkDecoder.Decode | internal/bsr/decode.go:98-214 | the result, the new mode and the bytes left are those of the pure decoder on the bytes remaining |
| Decoders.Registry.RegisterChunkType | internal/bsr/decode.go:45-67 | a pair is registered once, a second attempt is refused, and no other pair changes |
| Chunks.DecodeConsumes | internal/bsr/decode.go:110-148 | a success consumes 29 bytes and the announced data; the end is reported exactly on empty input |
| Scanners.ReadMagic | internal/bsr/magic.go:31-50 | succeeds exactly on the magic string and then stands after it |
| Scanners.NewChunkScanner | internal/bsr/chunk_scanner.go:31-59 | a scanner after the magic string in initial mode, or none |
| Scanners.ChunkScanner.Scan | internal/bsr/chunk_scanner.go:61-84 | the decoder's outcome, with the sum of the bytes read compared at an end chunk and at the end of input |
| Scanners.ChunkWalk | internal/bsr/chunk_scanner.go:100-120 | terminates on every input with the calls and error of the walk function |
| Walks.StepAtChunk | internal/bsr/chunk_scanner.go:61-120 | at a chunk: a wrong sum at an end chunk is an error, else the callback is called with it and either ends the walk or lets it go on after the chunk |
| Walks.StepAtEnd | internal/bsr/chunk_scanner.go:61-120 | at anything else: the chunk error, a wrong sum, or the end |
| Walks.WalkMeaning | internal/bsr/chunk_scanner.go:104-120 | calls are decoded chunks in order; success if and only if the file decodes cleanly, every call is accepted, and the sums are right at the end and at every end chunk |
| Walks.SealedFile | internal/bsr/chunk_scanner.go:66-84 | with a sum expected and no collisions, success means the whole file has it and an end chunk is the last thing in the file |
| Walks.WalkWrittenFile | internal/bsr/chunk_scanner.go:22-59 | walking a written file calls back with exactly its chunks and succeeds, with its own sum expected or none |
| Walks.WalkCorruptFile | internal/bsr/chunk_scanner.go:104-120 | a walk that comes to bytes that do not decode does not succeed |
| Walks.WalkAlteredFile | internal/bsr/chunk_scanner.go:104-120 | a file altered within four bytes of a chunk is never walked with success, unless by the weak flip |
| Walks.WalkChangedLength | internal/bsr/chunk_scanner.go:104-120 | a file with a changed length that is caught is never walked with success |
| Walks.WalkCutFile | internal/bsr/chunk_scanner.go:22-30 | a file cut anywhere is taken for a recording if and only if the magic string is left; it then succeeds without a sum if and only if cut on a boundary, and never with its sum |
| TokenRuns.RunInv | internal/authtoken/repository.go:66-448 | every interleaving, with every outcome of every transaction, keeps: expiration within the time to live, access time between creation, expiration and now, failed only past expiration, access time less than ten minutes behind the last use and ahead of it only by an unreported access, every row readable |
| TokenRuns.RowLife | internal/authtoken/status.go:9-28 | over any run issued and failed are final, times only advance, and the secret of a row never changes |
| TokenSteps.RowGoneIff | internal/authtoken/repository.go:230-249 | a row goes if and only if it is deleted or a validation that discards it commits |
| TokenSteps.RowNewIff | internal/authtoken/repository.go:92-149 | a row comes if and only if it is created, with these times, status, key and secret |
| TokenSteps.RowAfter | internal/authtoken/repository.go:257-448 | what a row that stays is after each event: every row an event is not about stays as it is, but for those closed |
| TokenSteps.RestAfter | internal/authtoken/rewrapping.go:19-58 | time and keys change only by their own events, and a key in use is not destroyed |
| TokenSteps.Judgement | internal/authtoken/repository.go:226-257 | expired or stale, then the secret, then whether ten minutes have passed |
| TokenSteps.CommitAnswer | internal/authtoken/repository.go:245-290 | what the caller hears of each end of the transaction |
| TokenSteps.RowStays | internal/authtoken/repository.go:230-361 | over any run a row stays until an event removes it |
| TokenSteps.OtherRowsStay | internal/authtoken/repository.go:195-448 | over any run a row that no event is about is unchanged, but that it is failed if and only if it was closed |
| TokenSteps.StatusHistory | internal/authtoken/repository.go:363-448 | over any run a pending row is later issued if and only if an issue found it pending and in life, failed if and only if a closing found it past its expiration |
| TokenRuns.IssuedOnce | internal/authtoken/repository.go:363-420 | between creation and deletion a token is issued at most once, counting issues whose commit reported an error |
| TokenRuns.ReturnedInLife | internal/authtoken/repository.go:195-291 | in any run, a token returned is the row its validation looked up, under the secret presented, at most the time to live old, not expired, not stale and not failed when judged, and if still stored not failed or expired |
| TokenRuns.PhaseOrigin | internal/authtoken/repository.go:204-249 | in any run, a validation under way was looked up and then judged, at moments that its row and its judgement record |
| TokenRuns.NotDiscardedEarly | internal/authtoken/repository.go:226-249 | within the time to stale less ten minutes of the last use, or the time to stale of an unreported access, an unexpired token is not discarded |
| TokenRuns.DiscardedLateIff | internal/authtoken/repository.go:226-249 | at least the time to stale after the last use it is discarded, if and only if expired or the last unreported access is as old |
| TokenRuns.LazyAccessTime | internal/authtoken/repository.go:226-291 | both of these over every run, in terms of its events alone: every use and every unreported access before the lookup, whatever happens between lookup and judgement |
| TokenRuns.LostAccessKeepsToken | internal/authtoken/repository.go:257-288 | a run in which a failed validation keeps a token from being discarded, for every configuration whose time to stale is over ten minutes and at least a second below the time to live |
| TokenRuns.UsesFollow | internal/authtoken/repository.go:257-290 | the record of each row changes only when it is created, issued or returned, or when an access to it is stored without a report, and then to that moment; the records of all other rows stay |
| TokenRuns.RecordBounds | internal/authtoken/repository.go:257-290 | over a run the record of a row bounds every use and every unreported access so far |
| TokenRuns.RecordWitness | internal/authtoken/repository.go:257-290 | and each of its times is that of one of them |
| TokenRuns.AccessSince | internal/authtoken/repository.go:257-276 | between two sights of a row its access time is as it was, or that of the last access stored |
| TokenRuns.DiscardRightfulIff | internal/authtoken/repository.go:230-249 | in any run, a row is expired or stale when its deletion commits if and only if it has expired or every access stored since the lookup is the time to stale ago |
| TokenRuns.DiscardIsOfSpentRow | internal/authtoken/repository.go:230-249 | so a row not accessed since the lookup is |
| TokenRuns.StandoffDiscardsFreshToken | internal/authtoken/repository.go:230-285 | of two overlapping validations one can return and touch a token and the other then delete it |
| TokenRuns.StandoffHappens | internal/authtoken/repository.go:204-249 | a run that gets there, for every configuration whose time to stale is over ten minutes and at least a second below the time to live |
| Repositories.Repository.CreateAuthToken | internal/authtoken/repository.go:92-149 | the create step: expiration truncated to the second from the clock before the transaction, never before creation; the status asked for, the secret under the current key; other rows stay |
| Repositories.Repository.IssueAuthToken | internal/authtoken/repository.go:369-420 | a pending, unexpired row, and no other, is issued and touched, and is what is answered on success; other rows stay |
| Repositories.Repository.CloseExpiredPendingTokens | internal/authtoken/repository.go:422-448 | exactly the pending rows past expiration become failed, all others stay as they are, and the count is of rows changed, or none if an error is reported |
| Repositories.Repository.DeleteAuthToken | internal/authtoken/repository.go:320-361 | the row and no other is gone if the transaction takes effect, and the count is of rows removed, or none if an error is reported |
| Repositories.Repository.ValidateToken | internal/authtoken/repository.go:195-291 | lookup, judgement and transaction as three steps of the machine, for each outcome of the transaction; other rows stay and the invariant is kept |
| Repositories.ValidationSteps | internal/authtoken/repository.go:195-290 | what the three steps come to without interference: answer, table and time in each case |
| Repositories.ValidationDeletesSpent | internal/authtoken/repository.go:226-249 | without interference a validation deletes a row if and only if it is expired or stale when judged and the transaction takes effect, reported or not |
| Repositories.ValidationReturnsIff | internal/authtoken/repository.go:216-291 | without interference a validation returns the row if and only if it is not expired or stale when judged, the secret is its own, and an access that is due is stored and reported within its life, whatever its status |
| Repositories.PendingTokenValidates | internal/authtoken/repository.go:188-194 | a pending token in life is returned |
| Repositories.Repository.RewrapTokens | internal/authtoken/rewrapping.go:19-58 | at success and at every early return each row decrypts to its old secret under its recorded key and other rows are untouched; on success the rows of the old key are under the current one; it succeeds if nothing fails |
| Transactions.Db.DoTx | internal/db/read_writer.go:403-461 | ends at the first turn that gives up or is not a rolled-back redeemed ticket, with 64-bit counters; each error if and only if that attempt's begin, handler, rollback or commit says so; the handler runs at most retries plus one times for counts below 2^64 - 2; an effect is kept exactly on success or with a commit error that applied |
| Transactions.BoundHoldsIff | internal/db/read_writer.go:419-422 | the loop lets exactly retries plus one attempts through if and only if retries is below 2^64 - 2 |
| Transactions.EndsIff | internal/db/read_writer.go:420-444 | the loop ends for every count but 2^64 - 2 whatever happens, and for that one if and only if some attempt is not to be retried |
| Transactions.NeverGivesUp | internal/db/read_writer.go:420-422 | at 2^64 - 2 no attempt number exceeds the bound |
| Transactions.NoAttempt | internal/db/read_writer.go:420-422 | at 2^64 - 1 the first one does |
| Transactions.ExpBackoffIff | internal/db/backoff.go:26-29 | a delay lies between a half and three halves of 5 times 2^attempt milliseconds, whatever the random number, if and only if the attempt is at most 40 |
| Transactions.ExpBackoffIs | internal/db/backoff.go:26-29 | up to attempt 40, the exact delay for each random number |
| Transactions.ExpBackoffGrows | internal/db/backoff.go:26-29 | and it grows with the random number |
| Transactions.ConstBackoffTotal | internal/db/backoff.go:16-22 | constant delays add up to their multiple in 64 bits |
| Transactions.TotalBackoffIff | internal/db/read_writer.go:438-443 | after n retries the total lies between 5(2^n - 1) and 15(2^n - 1) milliseconds, whatever the random numbers, if and only if n is at most 39 |
| MetaFiles.MetaWriter.WriteMeta | internal/bsr/container.go:516-519 | key, colon, space, value and newline are appended; the file is the text of its entries in order |
| MetaFiles.MetaWriter.WriteSession | internal/bsr/meta_recording.go:24-34 | id and protocol lines |
| MetaFiles.MetaWriter.WriteConnection | internal/bsr/bsr.go:436-443 | the connection line of a session |
| MetaFiles.DecodeSessionMeta | internal/bsr/meta_recording.go:37-73 | last id and protocol, and the set of connections, of all entries scanned; an error for a line without a colon |
| MetaFiles.DecodeConnectionMeta | internal/bsr/meta_recording.go:91-121 | last id and the set of channels |
| MetaFiles.DecodeChannelMeta | internal/bsr/meta_recording.go:141-170 | last id and channel type |
| MetaFiles.EntriesFailIff | internal/bsr/meta_recording.go:47-57 | reading fails if and only if some line that is not empty has no colon |
| MetaFiles.LineCut | internal/bsr/meta_recording.go:53-57 | a line is cut at its first colon and the value trimmed |
| MetaFiles.TrimSpaceIs | internal/bsr/meta_recording.go:57-57 | trimming takes off white space at both ends, and all of it |
| MetaFiles.BlankLines | internal/bsr/meta_recording.go:47-52 | an empty line, with or without a carriage return, is skipped |
| MetaFiles.LastLine | internal/bsr/meta_recording.go:47-52 | a last line needs no newline |
| MetaFiles.AsciiLineFitsIff | internal/bsr/meta_recording.go:47-49 | an ASCII line fits if and only if it has fewer than 65536 characters |
| MetaFiles.LastValueOf | internal/bsr/meta_recording.go:58-66 | of several lines with a key the last counts |
| MetaFiles.ReadCleanText | internal/bsr/meta_recording.go:47-68 | with clean values exactly the entries before the first line over the limit are read |
| MetaFiles.ReadValuesClean | internal/bsr/meta_recording.go:53-57 | whatever the text, values read are trimmed and free of newlines |
| MetaFiles.MetaRoundTripIff | internal/bsr/container.go:516-519 | written entries read back if and only if every value is clean and every line fits |
| MetaFiles.SessionFileReads | internal/bsr/meta_recording.go:37-73 | id, protocol and exactly the connections written come back, among any other lines |
| MetaFiles.ConnectionFileReads | internal/bsr/meta_recording.go:91-121 | id and exactly the channels written come back |
| MetaFiles.ChannelFileReads | internal/bsr/meta_recording.go:141-170 | id and channel type come back |
| Validation.ValidateChecksums | internal/bsr/container.go:582-608 | one verdict per file of the table, true exactly for files that are readable with their expected sum; an error exactly for an empty table |
| Validation.GetFailedItems | internal/bsr/container.go:48-58 | exactly the files that failed |
| Validation.ValidateContainer | internal/bsr/bsr.go:378-404 | the verdict stays true exactly if it was and the container is intact; the report has the container's id, a verdict on every file of the table, and an error exactly for an empty table |
| Validation.ValidateChannel | internal/bsr/bsr.go:333-367 | the same for a channel, whose report joins the connection's; one that cannot be reached replaces the session's list |
| Validation.ValidateChannels | internal/bsr/bsr.go:331-367 | the same for all channels of a connection: if all can be reached, one report each |
| Validation.ValidateConnection | internal/bsr/bsr.go:301-373 | the same for a connection and its channels; its report joins the session's and holds those of its channels |
| Validation.Validate | internal/bsr/bsr.go:264-376 | the verdict is true if and only if every listed connection and channel leads to a container that opens and every file of every table has its sum; if every channel opens, the report has exactly one entry per listed connection and channel, each with the right name, checks and error |
| Validation.KeyOfName | internal/bsr/bsr.go:302-315 | the key of a name made from an id is the id, whatever it contains |
| Validation.KeyOfIff | internal/bsr/bsr.go:302-315 | the key is what stands before the last occurrence of the suffix, and none if there is none |
| Validation.LeadsTo | internal/bsr/bsr.go:461-478 | a name leads to the container under its key, if that is not empty, listed and opens |
| Validation.LooksUpItself | internal/bsr/bsr.go:302-318 | the container looked up is the one listed if and only if the name ends in the suffix |
| Validation.VerdictOnListed | internal/bsr/bsr.go:460-478 | with such names of connections and channels the verdict is about the listed containers themselves |
| Validation.ListedIntactIff | internal/bsr/bsr.go:378-404 | that is: every listed container has a table and each file in it is readable with its sum |
| Validation.UnopenedConnectionPasses | internal/bsr/bsr.go:303-327 | with others a recording passes although a listed connection is never opened |
| Validation.UnopenedChannelPasses | internal/bsr/bsr.go:333-357 | and although a listed channel is never opened |
| Credentials.ClassifyOne | api/proxy/credentials.go:73-131 | one turn of the loop computes the kind that the following seven lemmas characterise |
| Credentials.PasswordIff | api/proxy/credentials.go:80-116 | a credential of any declared type becomes a given username and password if and only if its attributes, so declared, give it, or they fall short and its secret over them gives it |
| Credentials.KeyIff | api/proxy/credentials.go:94-128 | and a given key likewise, where the secret leaves the username and password incomplete |
| Credentials.DeclaredTypeDecides | api/proxy/credentials.go:80-105 | complete attributes of the declared type decide, whatever the secret holds |
| Credentials.UnspecifiedIff | api/proxy/credentials.go:107-131 | unspecified if and only if neither attributes nor secret completes either structure |
| Credentials.KeyAsPasswordIff | api/proxy/credentials.go:94-118 | a declared key becomes a username and password if and only if its attributes fall short and its secret holds one |
| Credentials.PasswordAsKeyIff | api/proxy/credentials.go:80-128 | a declared username and password becomes a key if and only if it stays incomplete with the secret on top and the secret holds a key |
| Credentials.ClassifyFailsIff | api/proxy/credentials.go:74-124 | exactly when a credential is an error |
| Credentials.SortAllFailsIff | api/proxy/credentials.go:68-135 | all fail if and only if one does |
| Credentials.ClassesSound | api/proxy/credentials.go:68-135 | each class holds only credentials of its kind, each with the complete structure decoded into it, mark included |
| Credentials.ParseCredentials | api/proxy/credentials.go:68-135 | all credentials sorted in order of arrival, or an error if any gives one |
| Credentials.Conservation | api/proxy/credentials.go:68-135 | the three classes hold exactly the input, each in input order |
| Credentials.UnconsumedSessionCredentials | api/proxy/credentials.go:49-66 | the unspecified ones, the keys and the passwords not consumed, in this order; with the consumed ones, exactly the credentials held, each once |
| Credentials.UnconsumedSnoc | api/proxy/credentials.go:55-64 | the unconsumed are those not marked, in their order |
| Credentials.ComesConsumedIff | api/proxy/credentials.go:19-40 | a parsed credential is consumed if and only if what was decoded into it says so |
| Credentials.AllRemainIff | api/proxy/credentials.go:49-135 | parsing and then asking for the unconsumed ones returns every credential if and only if none comes marked |
| Credentials.MarkedCredentialIsDropped | api/proxy/credentials.go:80-91 | a complete credential whose attributes hold the mark is not returned |
| CurlQuoting.BodyReadsBack | api/output_string.go:67-72 | every body reads back from the shell as itself, as one word |
| CurlQuoting.EscapePlain | api/output_string.go:67-72 | a body without single quotes is put between quotes as it is |
| CurlQuoting.EscapeQuote | api/output_string.go:67-72 | each single quote becomes the five characters of the source |
| CurlQuoting.UrlReadsBackIff | api/output_string.go:74-75 | the URL does if and only if it holds no single quote |

## Left out

- Validation.Validate: the connections' reports are described for runs in which every channel opens; when one does not, the list is overwritten and Go's sharing of slice storage decides what it shows in the end.
- Validation.ValidateChannel: the list that replaces the session's is described as it is at that moment; that later appends may share its storage is not modelled.
- Repositories.Repository.CreateAuthToken: the checks of user and account are not spelled out, a refusal by them is a transaction not done; generation of ids and secrets is not modelled.
- Transactions.Db.DoTx: the three checks for missing arguments are not modelled, and an attempt's effect is one function applied at commit.
- Transactions.ExpBackoffIff: the floating-point product is a real number; its conversion to an integer out of range is any value.
- MetaFiles.MetaRoundTripIff: text is a sequence of Unicode characters; bytes that are not UTF-8 are not modelled.
- Encoders.ChunkEncoder.Encode: the compressor writes to memory and is taken not to fail.
- Opening of containers, key unwrapping, signatures, journals, JSON summaries and session meta: a container opens or does not.
- The contents of gzip and SHA-256, and the marshalling of each SSH chunk type: functions with laws.
- Microsecond rounding of timestamps in the database, and clocks that disagree.
- Listing of tokens and the encryption of tokens for clients: single queries and calls, on which no property of several operations rests.
- The header lines of the printed curl command, the generated API clients, the command line, the user interface and the oplog.
