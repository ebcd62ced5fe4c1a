/** One table-of-contents entry (src/format/file.rs): where a stored file's
    bytes start in the payload, how many there are, and its logical path. */
module FileFormat {
  import opened Wrappers
  import opened Bytes
  import opened Binary
  import Read
  import Write

  datatype File = File(path: Utf8, offset: u64, size: u64)

  /** `File::new`: the three fields as given. */
  function New(path: Utf8, offset: u64, size: u64): (f: File)
    ensures f.path == path && f.offset == offset && f.size == size
  {
    File(path, offset, size)
  }

  /** `serialize`: offset as u64, size as u64, then the path with its u32 length. */
  function Serialize(f: File): (r: seq<byte>)
    ensures |r| == 20 + |f.path|
  {
    Write.U64(f.offset) + Write.U64(f.size) + Write.String(f.path)
  }

  /** Where each field of an entry sits in its serialization. */
  lemma SerializeLayout(f: File)
    ensures var r := Serialize(f);
            LeValue(r[..8]) == f.offset && LeValue(r[8..16]) == f.size
            && LeValue(r[16..20]) == AsU32(|f.path|) && r[20..] == f.path
  {
    var r := Serialize(f);
    assert r[..8] == Write.U64(f.offset);
    assert r[8..16] == Write.U64(f.size);
    assert r[16..] == Write.String(f.path);
    assert r[16..20] == Write.String(f.path)[..4];
  }

  /** The byte length the path field of an entry at the start of input declares. */
  function DeclaredPathLen(input: seq<byte>): nat
    requires 20 <= |input|
  {
    LeValue(input[16..20])
  }

  /** The input is long enough for the entry it starts with. */
  predicate Complete(input: seq<byte>) {
    20 <= |input| && 20 + DeclaredPathLen(input) <= |input|
  }

  /** `deserialize`: offset, size, path, in that order. */
  function Deserialize(input: seq<byte>): (r: Result<(File, seq<byte>), BinaryError>)
  {
    var (offset, afterOffset) :- Read.Io(Read.U64(input));
    var (size, afterSize) :- Read.Io(Read.U64(afterOffset));
    var (path, rest) :- Read.Io(Read.String(afterSize));
    Ok((File(path, offset, size), rest))
  }

  /** `deserialize` succeeds exactly on a complete entry with a UTF-8 path.
      It fails with UnexpectedEof when the input ends inside a field and
      with InvalidData when the path is not UTF-8. */
  lemma DeserializeOkIff(input: seq<byte>)
    ensures var r := Deserialize(input);
            (r.Ok? <==> Complete(input) && ValidUtf8(input[20..20 + DeclaredPathLen(input)]))
            && (r.Err? ==> r.error == IOFailed(if Complete(input) then InvalidData else UnexpectedEof))
  {
    if 16 <= |input| {
      var afterSize := input[16..];
      assert Read.U64(input) == Ok((LeValue(input[..8]), input[8..]));
      assert input[8..][..8] == input[8..16] && input[8..][8..] == afterSize;
      assert Read.U64(input[8..]) == Ok((LeValue(input[8..16]), afterSize));
      assert 20 <= |input| ==> afterSize[..4] == input[16..20];
      assert Complete(input) ==> afterSize[4..4 + DeclaredPathLen(input)] == input[20..20 + DeclaredPathLen(input)];
    }
  }

  /** What `deserialize` consumes is exactly the serialization of the entry it
      returns. */
  lemma DeserializeConsumesEntry(input: seq<byte>)
    requires Deserialize(input).Ok?
    ensures input == Serialize(Deserialize(input).value.0) + Deserialize(input).value.1
  {
    var (f, rest) := Deserialize(input).value;
    var afterSize := input[16..];
    assert Read.U64(input) == Ok((LeValue(input[..8]), input[8..]));
    assert input[8..][..8] == input[8..16] && input[8..][8..] == afterSize;
    assert Read.U64(input[8..]) == Ok((LeValue(input[8..16]), afterSize));
    assert Read.String(afterSize).value == (f.path, rest);
    LeBytesOfValue(input[..8]);
    LeBytesOfValue(input[8..16]);
    LeBytesOfValue(afterSize[..4]);
    Write.StringLayout(f.path);
    assert input == input[..8] + input[8..16] + afterSize;
  }

  /** Regrouping three fields followed by a tail. */
  lemma Regroup3(a: seq<byte>, b: seq<byte>, c: seq<byte>, tail: seq<byte>)
    ensures a + b + c + tail == a + (b + (c + tail))
  {
  }

  /** An entry whose path length fits in a u32 reads back as itself. */
  lemma SerializeDeserialize(f: File, tail: seq<byte>)
    requires |f.path| < U32_LIMIT
    ensures Deserialize(Serialize(f) + tail) == Ok((f, tail))
  {
    var pathAndTail := Write.String(f.path) + tail;
    var afterOffset := Write.U64(f.size) + pathAndTail;
    var input := Serialize(f) + tail;
    Regroup3(Write.U64(f.offset), Write.U64(f.size), Write.String(f.path), tail);
    assert input == Write.U64(f.offset) + afterOffset;
    Write.U64RoundTrip(f.offset, afterOffset);
    assert Read.Io(Read.U64(input)) == Ok((f.offset, afterOffset));
    Write.U64RoundTrip(f.size, pathAndTail);
    assert Read.Io(Read.U64(afterOffset)) == Ok((f.size, pathAndTail));
    Write.StringRoundTrip(f.path, tail);
    assert Read.Io(Read.String(pathAndTail)) == Ok((f.path, tail));
  }
}
