/** Encoders of the little-endian byte codec (src/binary/write.rs). A writer
    only ever grows: each encoder returns the bytes it appends, so the output
    after a call is the output before it followed by those bytes. The lemmas
    at the end pair each encoder with its decoder in module Read. */
module Write {
  import opened Wrappers
  import opened Bytes
  import Read

  /** `u8`: the byte itself. */
  function U8(value: byte): (r: seq<byte>)
    ensures |r| == 1 && LeValue(r) == value
  {
    [value]
  }

  /** `u32`: four bytes, least significant first. */
  function U32(value: u32): (r: seq<byte>)
    ensures |r| == 4 && LeValue(r) == value
  {
    Pow256Values();
    LeValueOfBytes(value, 4);
    LeBytes(value, 4)
  }

  /** `u64`: eight bytes, least significant first. */
  function U64(value: u64): (r: seq<byte>)
    ensures |r| == 8 && LeValue(r) == value
  {
    Pow256Values();
    LeValueOfBytes(value, 8);
    LeBytes(value, 8)
  }

  /** `string`: the byte length as a u32, then the UTF-8 bytes. The length is
      cast with `as u32`, which keeps the low 32 bits. */
  function String(value: Utf8): (r: seq<byte>)
    ensures |r| == 4 + |value|
    ensures LeValue(r[..4]) == AsU32(|value|) && r[4..] == value
  {
    var prefix := U32(AsU32(|value|));
    assert (prefix + value)[..4] == prefix;
    prefix + value
  }

  /** Below 2^32 bytes the length prefix is exact. */
  lemma StringLayout(value: Utf8)
    requires |value| < U32_LIMIT
    ensures String(value) == LeBytes(|value|, 4) + value
  {
  }

  /** `string_raw`: the UTF-8 bytes with no length in front. */
  function StringRaw(value: Utf8): (r: seq<byte>)
    ensures r == value
  {
    value
  }

  /** `array`: the length as a u32 (low 32 bits), then the bytes. */
  function Array(value: seq<byte>): (r: seq<byte>)
    ensures |r| == 4 + |value|
    ensures LeValue(r[..4]) == AsU32(|value|) && r[4..] == value
  {
    var prefix := U32(AsU32(|value|));
    assert (prefix + value)[..4] == prefix;
    prefix + value
  }

  /** `array_raw`: the bytes with no length in front. */
  function ArrayRaw(value: seq<byte>): (r: seq<byte>)
    ensures r == value
  {
    value
  }

  // ---------------------------------------------------------------------
  // Round trips: a decoder applied to what its encoder wrote, followed by
  // anything, returns the value and leaves exactly what followed.

  lemma U8RoundTrip(value: byte, tail: seq<byte>)
    ensures Read.U8(U8(value) + tail) == Ok((value, tail))
  {
    assert (U8(value) + tail)[1..] == tail;
  }

  lemma U32RoundTrip(value: u32, tail: seq<byte>)
    ensures Read.U32(U32(value) + tail) == Ok((value, tail))
  {
    var r := Read.U32(U32(value) + tail);
    LeBytesOfValue(U32(value));
    assert U32(value) + tail == LeBytes(r.value.0, 4) + r.value.1;
    assert (U32(value) + tail)[..4] == U32(value);
  }

  lemma U64RoundTrip(value: u64, tail: seq<byte>)
    ensures Read.U64(U64(value) + tail) == Ok((value, tail))
  {
    var r := Read.U64(U64(value) + tail);
    LeBytesOfValue(U64(value));
    assert U64(value) + tail == LeBytes(r.value.0, 8) + r.value.1;
    assert (U64(value) + tail)[..8] == U64(value);
  }

  lemma StringRawRoundTrip(value: Utf8, tail: seq<byte>)
    requires |value| < U32_LIMIT
    ensures Read.StringRaw(StringRaw(value) + tail, |value|) == Ok((value, tail))
  {
    assert (value + tail)[..|value|] == value;
  }

  lemma StringRoundTrip(value: Utf8, tail: seq<byte>)
    requires |value| < U32_LIMIT
    ensures Read.String(String(value) + tail) == Ok((value, tail))
  {
    var prefix := U32(|value|);
    assert String(value) + tail == prefix + (value + tail);
    U32RoundTrip(|value|, value + tail);
    StringRawRoundTrip(value, tail);
  }

  lemma ArrayRoundTrip(value: seq<byte>, tail: seq<byte>)
    requires |value| < U32_LIMIT
    ensures Read.Array(Array(value) + tail) == Ok((value, tail))
  {
    var prefix := U32(|value|);
    assert Array(value) + tail == prefix + (value + tail);
    U32RoundTrip(|value|, value + tail);
    assert (value + tail)[..|value|] == value;
  }

  /** Bytes written with `array_raw` are read back by `exact` with their length. */
  lemma ArrayRawRoundTrip(value: seq<byte>, tail: seq<byte>)
    ensures Read.Exact(ArrayRaw(value) + tail, |value|) == Ok((value, tail))
  {
    assert (value + tail)[..|value|] == value;
  }
}
