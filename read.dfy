/** Decoders of the little-endian byte codec (src/binary/read.rs). The reader
    is a cursor over the remaining input: each decoder returns the value it
    read together with the input left after it, or the I/O error it fails with. */
module Read {
  import opened Wrappers
  import opened Bytes
  import opened Binary

  /** A value read and the input that follows it. */
  type Decoded<T> = Result<(T, seq<byte>), IoError>

  /** An I/O error passed on by `?` into a `BinaryError`
      (`From<io::Error>`, src/binary/mod.rs). */
  function Io<T>(r: Decoded<T>): Result<(T, seq<byte>), BinaryError> {
    match r
    case Ok(v) => Ok(v)
    case Err(e) => Err(IOFailed(e))
  }

  /** The size of the scratch buffer `skip` reads into. */
  const SKIP_BUFFER_LEN: nat := 4096

  /** One call of `Read::read` asking for at most `max` bytes: it may deliver
      fewer than asked (any number from 1 up), and 0 only at end of input. */
  method ReadSome(input: seq<byte>, max: nat) returns (n: nat)
    ensures n <= max && n <= |input|
    ensures n == 0 <==> (input == [] || max == 0)
  {
    if input == [] || max == 0 {
      n := 0;
    } else {
      var bound := Min(max, |input|);
      n :| 1 <= n <= bound;
    }
  }

  /** `skip(reader, n)`: drops the next n bytes, or everything that is left
      when the input is shorter; it does not fail at end of input. */
  method Skip(input: seq<byte>, n: u64) returns (r: Result<(), IoError>, rest: seq<byte>)
    ensures r.Ok?
    ensures rest == input[Min(n, |input|)..]
  {
    var toSkip: nat := n;
    rest := input;
    while toSkip > 0
      invariant toSkip <= n
      invariant n - toSkip <= |input|
      invariant rest == input[n - toSkip..]
      decreases toSkip
    {
      var readLen := Min(toSkip, SKIP_BUFFER_LEN);
      var bytesRead := ReadSome(rest, readLen);
      if bytesRead == 0 {
        break;
      }
      rest := rest[bytesRead..];
      toSkip := toSkip - bytesRead;
    }
    r := Ok(());
  }

  /** `exact(reader, buf)` with a buffer of `len` bytes: the whole buffer is
      filled, or the read fails with UnexpectedEof; no partial result. */
  function Exact(input: seq<byte>, len: nat): (r: Decoded<seq<byte>>)
    ensures r.Ok? <==> len <= |input|
    ensures r.Ok? ==> |r.value.0| == len && r.value.0 + r.value.1 == input
    ensures r.Err? ==> r.error == UnexpectedEof
  {
    if |input| < len then Err(UnexpectedEof) else Ok((input[..len], input[len..]))
  }

  /** `u8`: one byte. */
  function U8(input: seq<byte>): (r: Decoded<byte>)
    ensures r.Ok? <==> 1 <= |input|
    ensures r.Ok? ==> input == [r.value.0] + r.value.1
    ensures r.Err? ==> r.error == UnexpectedEof
  {
    var (buf, rest) :- Exact(input, 1);
    Ok((buf[0], rest))
  }

  /** `u32`: four bytes, least significant first. */
  function U32(input: seq<byte>): (r: Decoded<u32>)
    ensures r.Ok? <==> 4 <= |input|
    ensures r.Ok? ==> r.value.0 == LeValue(input[..4]) && r.value.1 == input[4..]
    ensures r.Err? ==> r.error == UnexpectedEof
  {
    var (buf, rest) :- Exact(input, 4);
    Pow256Values();
    Ok((LeValue(buf), rest))
  }

  /** `u64`: eight bytes, least significant first. */
  function U64(input: seq<byte>): (r: Decoded<u64>)
    ensures r.Ok? <==> 8 <= |input|
    ensures r.Ok? ==> r.value.0 == LeValue(input[..8]) && r.value.1 == input[8..]
    ensures r.Err? ==> r.error == UnexpectedEof
  {
    var (buf, rest) :- Exact(input, 8);
    Pow256Values();
    Ok((LeValue(buf), rest))
  }

  /** `string_raw(reader, len)`: exactly `len` bytes, which must be UTF-8. */
  function StringRaw(input: seq<byte>, len: u32): (r: Decoded<Utf8>)
    ensures r.Ok? <==> len <= |input| && ValidUtf8(input[..len])
    ensures r.Ok? ==> |r.value.0| == len && r.value.0 + r.value.1 == input
    ensures r.Err? ==> r.error == if |input| < len then UnexpectedEof else InvalidData
  {
    var (buf, rest) :- Exact(input, len);
    if ValidUtf8(buf) then Ok((buf, rest)) else Err(InvalidData)
  }

  /** `string`: a u32 byte count, then that many bytes of UTF-8. */
  function String(input: seq<byte>): (r: Decoded<Utf8>)
    ensures r.Ok? <==> 4 <= |input| && 4 + LeValue(input[..4]) <= |input|
                       && ValidUtf8(input[4..4 + LeValue(input[..4])])
    ensures r.Ok? ==> var (v, rest) := r.value;
                      |v| == LeValue(input[..4]) && input == input[..4] + v + rest
    ensures r.Err? && |input| < 4 ==> r.error == UnexpectedEof
  {
    var (len, rest) :- U32(input);
    assert len <= |rest| ==> rest[..len] == input[4..4 + len];
    StringRaw(rest, len)
  }

  /** `array`: a u32 byte count, then that many bytes, taken as they are. */
  function Array(input: seq<byte>): (r: Decoded<seq<byte>>)
    ensures r.Ok? <==> 4 <= |input| && 4 + LeValue(input[..4]) <= |input|
    ensures r.Ok? ==> var (v, rest) := r.value;
                      |v| == LeValue(input[..4]) && input == input[..4] + v + rest
    ensures r.Err? ==> r.error == UnexpectedEof
  {
    var (len, rest) :- U32(input);
    Exact(rest, len)
  }
}
