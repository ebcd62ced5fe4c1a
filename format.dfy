/** The whole container (src/format/mod.rs): a header, a u32 entry count and
    that many table-of-contents entries. `Format` is an object whose entry
    list `add_file` and `add_files` extend in place. */
module ArchiveFormat {
  import opened Wrappers
  import opened Bytes
  import opened Binary
  import Read
  import Write
  import HeaderFormat
  import FileFormat

  /** The entries' serializations, one after another in list order. */
  function SerializeFiles(files: seq<FileFormat.File>): (r: seq<byte>)
    decreases |files|
  {
    if files == [] then [] else FileFormat.Serialize(files[0]) + SerializeFiles(files[1..])
  }

  /** `count` entries read one after another; the first that fails ends the
      reading with its error. */
  function DecodeFiles(input: seq<byte>, count: nat): (r: Result<(seq<FileFormat.File>, seq<byte>), BinaryError>)
    decreases count
  {
    if count == 0 then Ok(([], input))
    else
      match FileFormat.Deserialize(input)
      case Err(e) => Err(e)
      case Ok((f, afterFirst)) => Prepend([f], DecodeFiles(afterFirst, count - 1))
  }

  /** What a successful DecodeFiles consumed is exactly the serializations
      of the `count` entries it returned. */
  predicate Consumes(input: seq<byte>, count: nat) {
    DecodeFiles(input, count).Ok? ==>
      var (files, rest) := DecodeFiles(input, count).value;
      |files| == count && input == SerializeFiles(files) + rest
  }

  /** On success exactly `count` entries were read, and the bytes consumed
      are their serializations. */
  lemma {:induction false} DecodeFilesConsumes(input: seq<byte>, count: nat)
    ensures Consumes(input, count)
    decreases count
  {
    if count == 0 {
      assert SerializeFiles([]) + input == input;
    } else if DecodeFiles(input, count).Ok? {
      DecodeFilesOk(input, count);
      var afterFirst := FileFormat.Deserialize(input).value.1;
      DecodeFilesConsumes(afterFirst, count - 1);
      DecodeFilesConsumesStep(input, count);
    }
  }

  /** The inductive step of DecodeFilesConsumes. */
  lemma DecodeFilesConsumesStep(input: seq<byte>, count: nat)
    requires 0 < count && DecodeFiles(input, count).Ok?
    requires Consumes(FileFormat.Deserialize(input).value.1, count - 1)
    ensures Consumes(input, count)
  {
    var first := FileFormat.Deserialize(input).value;
    DecodeFilesStep(input, count);
    var others := DecodeFiles(first.1, count - 1).value;
    assert DecodeFiles(input, count).value == ([first.0] + others.0, others.1);
    FileFormat.DeserializeConsumesEntry(input);
    SerializeFilesCons(first.0, others.0);
    Regroup(input, FileFormat.Serialize(first.0), first.1, SerializeFiles(others.0), others.1,
            SerializeFiles([first.0] + others.0));
  }

  /** input = a + after and after = b + rest give input = (a + b) + rest. */
  lemma Regroup(input: seq<byte>, a: seq<byte>, after: seq<byte>, b: seq<byte>, rest: seq<byte>, ab: seq<byte>)
    requires input == a + after && after == b + rest && ab == a + b
    ensures input == ab + rest
  {
  }

  lemma SerializeFilesCons(f: FileFormat.File, more: seq<FileFormat.File>)
    ensures SerializeFiles([f] + more) == FileFormat.Serialize(f) + SerializeFiles(more)
  {
    assert ([f] + more)[1..] == more;
  }

  /** Reading entries is reading the first one, then the others. */
  lemma DecodeFilesStep(input: seq<byte>, count: nat)
    requires 0 < count && FileFormat.Deserialize(input).Ok?
    ensures var first := FileFormat.Deserialize(input).value;
            DecodeFiles(input, count) == Prepend([first.0], DecodeFiles(first.1, count - 1))
  {
  }

  /** Reading entries succeeds only when the first entry and the others do. */
  lemma DecodeFilesOk(input: seq<byte>, count: nat)
    requires 0 < count && DecodeFiles(input, count).Ok?
    ensures FileFormat.Deserialize(input).Ok?
    ensures DecodeFiles(FileFormat.Deserialize(input).value.1, count - 1).Ok?
  {
  }

  lemma PrependNothing(r: Result<(seq<FileFormat.File>, seq<byte>), BinaryError>)
    ensures Prepend([], r) == r
  {
    if r.Ok? {
      assert [] + r.value.0 == r.value.0;
    }
  }

  lemma PrependPrepend(a: seq<FileFormat.File>, b: seq<FileFormat.File>, r: Result<(seq<FileFormat.File>, seq<byte>), BinaryError>)
    ensures Prepend(a, Prepend(b, r)) == Prepend(a + b, r)
  {
    if r.Ok? {
      assert a + (b + r.value.0) == (a + b) + r.value.0;
    }
  }

  /** The entries fs in front of a successful result. */
  function Prepend(fs: seq<FileFormat.File>, r: Result<(seq<FileFormat.File>, seq<byte>), BinaryError>):
    Result<(seq<FileFormat.File>, seq<byte>), BinaryError>
  {
    match r
    case Ok((more, rest)) => Ok((fs + more, rest))
    case Err(e) => Err(e)
  }

  /** What `deserialize` reads from input: header, entry count, entries. */
  function Decode(input: seq<byte>): (r: Result<(HeaderFormat.Header, seq<FileFormat.File>, seq<byte>), BinaryError>)
    ensures r.Ok? ==> HeaderFormat.HEADER_LEN + 4 <= |input|
  {
    var (header, afterHeader) :- HeaderFormat.Deserialize(input);
    var (count, afterCount) :- Read.Io(Read.U32(afterHeader));
    var (files, rest) :- DecodeFiles(afterCount, count);
    Ok((header, files, rest))
  }

  /** The bytes `serialize` writes: the header, the entry count as u32
      (`len() as u32`), then every entry in list order. */
  function Encode(header: HeaderFormat.Header, files: seq<FileFormat.File>): (r: seq<byte>)
    ensures |r| == |HeaderFormat.Serialize(header)| + 4 + |SerializeFiles(files)|
  {
    HeaderFormat.Serialize(header) + Write.U32(AsU32(|files|)) + SerializeFiles(files)
  }

  /** Where the header, the count and the entries sit in the container. */
  lemma EncodeLayout(header: HeaderFormat.Header, files: seq<FileFormat.File>)
    ensures var r, k := Encode(header, files), |HeaderFormat.Serialize(header)|;
            r[..k] == HeaderFormat.Serialize(header)
            && LeValue(r[k..k + 4]) == AsU32(|files|)
            && r[k + 4..] == SerializeFiles(files)
  {
    var h, c, fs := HeaderFormat.Serialize(header), Write.U32(AsU32(|files|)), SerializeFiles(files);
    Slices(h, c, fs);
  }

  /** The three parts of a concatenation, sliced back out. */
  lemma Slices(a: seq<byte>, b: seq<byte>, c: seq<byte>)
    ensures (a + b + c)[..|a|] == a && (a + b + c)[|a|..|a| + |b|] == b && (a + b + c)[|a| + |b|..] == c
  {
  }

  lemma {:induction false} SerializeFilesSnoc(files: seq<FileFormat.File>, f: FileFormat.File)
    ensures SerializeFiles(files + [f]) == SerializeFiles(files) + FileFormat.Serialize(f)
    decreases |files|
  {
    if files == [] {
      assert [f][1..] == [];
    } else {
      assert (files + [f])[1..] == files[1..] + [f];
      SerializeFilesSnoc(files[1..], f);
    }
  }

  /** The entries up to i + 1 serialize as those up to i, then entry i. */
  lemma SerializeFilesPrefix(files: seq<FileFormat.File>, i: nat)
    requires i < |files|
    ensures SerializeFiles(files[..i + 1]) == SerializeFiles(files[..i]) + FileFormat.Serialize(files[i])
  {
    SerializeFilesSnoc(files[..i], files[i]);
    assert files[..i + 1] == files[..i] + [files[i]];
  }

  /** out = prefix + a and ab = a + b give out + b = prefix + ab. */
  lemma Extend(out: seq<byte>, prefix: seq<byte>, a: seq<byte>, b: seq<byte>, ab: seq<byte>)
    requires out == prefix + a && ab == a + b
    ensures out + b == prefix + ab
  {
  }

  class Format {
    var header: HeaderFormat.Header
    var files: seq<FileFormat.File>

    /** `Format::new()`: a fresh header and no entries. */
    constructor (pkg: string)
      ensures header == HeaderFormat.New(pkg) && files == []
    {
      header := HeaderFormat.New(pkg);
      files := [];
    }

    /** The struct literal `Format { header, files }`. */
    constructor Of(header: HeaderFormat.Header, files: seq<FileFormat.File>)
      ensures this.header == header && this.files == files
    {
      this.header := header;
      this.files := files;
    }

    /** `add_file`: one entry at the end; nothing else changes. */
    method AddFile(file: FileFormat.File)
      modifies this
      ensures files == old(files) + [file]
      ensures header == old(header)
    {
      files := files + [file];
    }

    /** `add_files`: the entries, in order, after the existing ones. */
    method AddFiles(more: seq<FileFormat.File>)
      modifies this
      ensures files == old(files) + more
      ensures header == old(header)
    {
      files := files + more;
    }

    /** `serialize`: the header, the entry count and every entry, written
        one after another in list order. */
    method Serialize() returns (out: seq<byte>)
      ensures out == Encode(header, files)
    {
      var prefix := HeaderFormat.Serialize(header) + Write.U32(AsU32(|files|));
      out := prefix;
      for i := 0 to |files|
        invariant out == prefix + SerializeFiles(files[..i])
      {
        SerializeFilesPrefix(files, i);
        Extend(out, prefix, SerializeFiles(files[..i]), FileFormat.Serialize(files[i]), SerializeFiles(files[..i + 1]));
        out := out + FileFormat.Serialize(files[i]);
      }
      assert files[..|files|] == files;
    }

    /** `deserialize`: as Decode reads it, into a new object. */
    static method Deserialize(input: seq<byte>) returns (r: Result<(Format, seq<byte>), BinaryError>)
      ensures r.Ok? <==> Decode(input).Ok?
      ensures r.Ok? ==> fresh(r.value.0)
                        && Decode(input).value == (r.value.0.header, r.value.0.files, r.value.1)
      ensures r.Err? ==> r.error == Decode(input).error
    {
      var headerAndRest := HeaderFormat.Deserialize(input);
      if headerAndRest.Err? {
        return Err(headerAndRest.error);
      }
      var (header, afterHeader) := headerAndRest.value;
      var countAndRest := Read.U32(afterHeader);
      if countAndRest.Err? {
        return Err(IOFailed(countAndRest.error));
      }
      var (count, afterCount) := countAndRest.value;
      var files: seq<FileFormat.File> := [];
      var cur := afterCount;
      var i: nat := 0;
      PrependNothing(DecodeFiles(cur, count));
      while i < count
        invariant i <= count
        invariant DecodeFiles(afterCount, count) == Prepend(files, DecodeFiles(cur, count - i))
      {
        var entry := FileFormat.Deserialize(cur);
        if entry.Err? {
          return Err(entry.error);
        }
        DecodeFilesStep(cur, count - i);
        PrependPrepend(files, [entry.value.0], DecodeFiles(entry.value.1, count - i - 1));
        files := files + [entry.value.0];
        cur := entry.value.1;
        i := i + 1;
      }
      assert DecodeFiles(cur, 0) == Ok(([], cur));
      assert files + [] == files;
      assert Decode(input) == Ok((header, files, cur));
      var format := new Format.Of(header, files);
      r := Ok((format, cur));
    }

    /** `check`: the header's check; the entries are not examined. */
    function Check(pkg: string): (r: Result<(), BinaryError>)
      reads this
      ensures r == HeaderFormat.Check(header, pkg)
    {
      HeaderFormat.Check(header, pkg)
    }
  }

  predicate PathsFit(files: seq<FileFormat.File>) {
    forall i :: 0 <= i < |files| ==> |files[i].path| < U32_LIMIT
  }

  /** Entries written one after another read back in the same order. */
  lemma {:induction false} SerializeFilesDecode(files: seq<FileFormat.File>, tail: seq<byte>)
    requires PathsFit(files)
    ensures ReadsBack(files, tail)
    decreases |files|
  {
    if files == [] {
      assert SerializeFiles(files) + tail == tail;
    } else {
      SerializeFilesDecode(files[1..], tail);
      SerializeFilesDecodeStep(files, tail);
    }
  }

  /** `count` entries serialized in front of tail read back as themselves. */
  predicate ReadsBack(files: seq<FileFormat.File>, tail: seq<byte>) {
    DecodeFiles(SerializeFiles(files) + tail, |files|) == Ok((files, tail))
  }

  /** The inductive step of SerializeFilesDecode. */
  lemma SerializeFilesDecodeStep(files: seq<FileFormat.File>, tail: seq<byte>)
    requires files != [] && PathsFit(files) && ReadsBack(files[1..], tail)
    ensures ReadsBack(files, tail)
  {
    var input := SerializeFiles(files) + tail;
    SerializeFilesHead(files, tail);
    DecodeFilesStep(input, |files|);
    assert [files[0]] + files[1..] == files;
  }

  /** The first entry read from serialized entries is the first entry, and
      the others follow it. */
  lemma SerializeFilesHead(files: seq<FileFormat.File>, tail: seq<byte>)
    requires files != [] && PathsFit(files)
    ensures FileFormat.Deserialize(SerializeFiles(files) + tail) == Ok((files[0], SerializeFiles(files[1..]) + tail))
  {
    var restBytes := SerializeFiles(files[1..]) + tail;
    assert SerializeFiles(files) + tail == FileFormat.Serialize(files[0]) + restBytes;
    FileFormat.SerializeDeserialize(files[0], restBytes);
  }

  /** A container whose header strings have the constants' lengths and whose
      entry count and paths fit in a u32 reads back with the same header and
      the same entries in the same order. */
  lemma SerializeDecode(header: HeaderFormat.Header, files: seq<FileFormat.File>, tail: seq<byte>)
    requires |header.magic| == |HeaderFormat.MAGIC| && |header.github| == |HeaderFormat.GITHUB|
    requires |files| < U32_LIMIT && PathsFit(files)
    ensures Decode(Encode(header, files) + tail) == Ok((header, files, tail))
  {
    var h, c, fs := HeaderFormat.Serialize(header), Write.U32(|files|), SerializeFiles(files);
    assert Encode(header, files) + tail == h + (c + (fs + tail));
    HeaderFormat.SerializeDeserialize(header, c + (fs + tail));
    Write.U32RoundTrip(|files|, fs + tail);
    SerializeFilesDecode(files, tail);
  }

  /** A new container, filled by `add_files`, serializes to bytes that read
      back as that header and those entries, and the header read back passes
      `check`. */
  method NewAddSerialize(pkg: string, entries: seq<FileFormat.File>) returns (bytes: seq<byte>)
    requires |entries| < U32_LIMIT && PathsFit(entries)
    ensures Decode(bytes) == Ok((HeaderFormat.New(pkg), entries, []))
    ensures HeaderFormat.Check(Decode(bytes).value.0, pkg).Ok?
  {
    var format := new Format(pkg);
    format.AddFiles(entries);
    bytes := format.Serialize();
    var header := HeaderFormat.New(pkg);
    assert [] + entries == entries;
    assert bytes == Encode(header, entries);
    assert Decode(bytes) == Ok((header, entries, [])) by {
      HeaderFormat.ConstantsAreUtf8();
      SerializeDecode(header, entries, []);
      assert Encode(header, entries) + [] == bytes;
    }
    HeaderFormat.NewPassesCheck(pkg);
  }
}
