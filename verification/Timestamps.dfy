/** Chunk timestamps: int64 seconds and nanoseconds, stored as 12 big-endian bytes. */
module Timestamps {
  import opened Bytes
  import opened Options

  const MAX_NANOS := 999_999_999
  const TWO63 := 0x8000_0000_0000_0000
  const TWO64 := 0x1_0000_0000_0000_0000
  const SIZE := 12

  datatype Fields = Fields(seconds: int, nanos: int)

  type Timestamp = t: Fields | -TWO63 <= t.seconds < TWO63 && 0 <= t.nanos <= MAX_NANOS
    witness Fields(0, 0)

  /** Conversion of an int64 to uint64: negative values wrap. */
  function ToUnsigned(n: int): nat
    requires -TWO63 <= n < TWO63
  {
    if n < 0 then n + TWO64 else n
  }

  function ToSigned(n: nat): int
    requires n < TWO64
  {
    if n < TWO63 then n else n - TWO64
  }

  function Marshal(t: Timestamp): (data: ByteString)
    ensures |data| == SIZE
  {
    BigEndian(ToUnsigned(t.seconds), 8) + BigEndian(t.nanos, 4)
  }

  /** Slicing panics on fewer than 12 bytes; more are refused after the nanosecond check. */
  function Decode(data: ByteString): Option<Timestamp>
    requires |data| >= SIZE
  {
    BigEndianCanonical(data[..8]);
    Pow256Values();
    var nanos := FromBigEndian(data[8..12]);
    if nanos > MAX_NANOS then None
    else if |data| > SIZE then None
    else Some(Fields(ToSigned(FromBigEndian(data[..8])), nanos))
  }

  lemma DecodeMarshal(t: Timestamp)
    ensures Decode(Marshal(t)) == Some(t)
  {
    var data := Marshal(t);
    Pow256Values();
    assert data[..8] == BigEndian(ToUnsigned(t.seconds), 8) && data[8..12] == BigEndian(t.nanos, 4);
    BigEndianRoundTrip(ToUnsigned(t.seconds), 8);
    BigEndianRoundTrip(t.nanos, 4);
  }

  /**
    The accepted 12-byte strings are exactly those with a nanosecond field in range,
    and each is the image of what it decodes to.
   */
  lemma MarshalDecode(data: ByteString)
    requires |data| == SIZE
    ensures Decode(data).Some? <==> FromBigEndian(data[8..]) <= MAX_NANOS
    ensures Decode(data).Some? ==> Marshal(Decode(data).value) == data
  {
    assert data[8..] == data[8..12];
    if Decode(data).Some? {
      BigEndianCanonical(data[..8]);
      BigEndianCanonical(data[8..12]);
      Pow256Values();
      assert data == data[..8] + data[8..12];
    }
  }
}
