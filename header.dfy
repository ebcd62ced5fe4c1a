/** The archive header (src/format/header.rs): a magic tag, a zero byte, a
    link string and a version triple of three bytes. The running package
    version (Cargo's `CARGO_PKG_VERSION`) is the parameter `pkg`. */
module HeaderFormat {
  import opened Wrappers
  import opened Bytes
  import opened Binary
  import opened Text
  import Read
  import Write

  /** `MAGIC`: "RASS". */
  const MAGIC: seq<byte> := AsciiBytes("RASS")
  /** `GITHUB`: "github.com/levilovie/rdss". */
  const GITHUB: seq<byte> := AsciiBytes("github.com/levilovie/rdss")
  /** The size of a serialized header whose strings are the constants. */
  const HEADER_LEN: nat := |MAGIC| + 1 + |GITHUB| + 3

  lemma ConstantsAreUtf8()
    ensures ValidUtf8(MAGIC) && ValidUtf8(GITHUB)
    ensures |MAGIC| == 4 && |GITHUB| == 25 && HEADER_LEN == 33
  {
    AsciiIsUtf8(MAGIC);
    AsciiIsUtf8(GITHUB);
  }

  datatype Version = Version(major: byte, minor: byte, patch: byte)

  datatype Header = Header(magic: Utf8, github: Utf8, versionMajor: byte, versionMinor: byte, versionPatch: byte)
  {
    function Triple(): Version {
      Version(versionMajor, versionMinor, versionPatch)
    }
  }

  /** Entry i of the split version, parsed as a u8; 0 when it is missing or
      does not parse (`s.parse().unwrap_or(0)`, then `get(i).unwrap_or(&0)`). */
  function Component(parts: seq<string>, i: nat): (b: byte) {
    if i < |parts| then
      match ParseUnsigned(parts[i], 256)
      case Some(n) => n
      case None => 0
    else 0
  }

  /** The version triple that `new` and `check_version` compute from the
      package version by splitting it on '.'. */
  function PackageVersion(pkg: string): (v: Version) {
    var parts := Split(pkg, '.');
    Version(Component(parts, 0), Component(parts, 1), Component(parts, 2))
  }

  /** `format!("{}.{}.{}", …)` of a triple. */
  function VersionString(v: Version): string {
    Decimal(v.major) + "." + Decimal(v.minor) + "." + Decimal(v.patch)
  }

  /** A well-formed "major.minor.patch" yields its three numbers. */
  lemma {:induction false} PackageVersionOfTriple(v: Version)
    ensures PackageVersion(VersionString(v)) == v
  {
    var parts := [Decimal(v.major), Decimal(v.minor), Decimal(v.patch)];
    forall i | 0 <= i < |parts| ensures '.' !in parts[i] {
      assert AllDigits(parts[i]);
    }
    assert Join(parts, '.') == VersionString(v) by {
      assert parts[1..][1..] == [Decimal(v.patch)];
      assert Join(parts[1..], '.') == Decimal(v.minor) + "." + Decimal(v.patch);
    }
    SplitJoin(parts, '.');
    ParseDecimal(v.major, 256);
    ParseDecimal(v.minor, 256);
    ParseDecimal(v.patch, 256);
  }

  /** The triple of a version string made of pieces without '.'. */
  lemma PackageVersionOfParts(parts: seq<string>)
    requires |parts| >= 1
    requires forall i :: 0 <= i < |parts| ==> '.' !in parts[i]
    ensures PackageVersion(Join(parts, '.')) == Version(Component(parts, 0), Component(parts, 1), Component(parts, 2))
  {
    SplitJoin(parts, '.');
  }

  /** A missing component becomes 0. */
  lemma PackageVersionMissingPatch()
    ensures PackageVersion("1.2") == Version(1, 2, 0)
  {
    assert Join(["1", "2"], '.') == "1.2";
    PackageVersionOfParts(["1", "2"]);
  }

  /** A component that is not a number becomes 0. */
  lemma PackageVersionMalformedMinor()
    ensures PackageVersion("1.x.3") == Version(1, 0, 3)
  {
    var parts := ["1", "x", "3"];
    assert Join(parts, '.') == "1.x.3";
    PackageVersionOfParts(parts);
    assert Component(parts, 1) == 0 by {
      assert !IsDigit("x"[0]);
    }
    assert Component(parts, 0) == 1 && Component(parts, 2) == 3;
  }

  /** A component over 255 becomes 0. */
  lemma PackageVersionOversizedMajor()
    ensures PackageVersion("300.1.1") == Version(0, 1, 1)
  {
    var parts := ["300", "1", "1"];
    assert Join(parts, '.') == "300.1.1";
    PackageVersionOfParts(parts);
    assert Component(parts, 0) == 0 by {
      assert "300"[..2] == "30" && "30"[..1] == "3";
      assert DigitsValue("300") == 300;
    }
    assert Component(parts, 1) == 1 && Component(parts, 2) == 1;
  }

  /** `Header::new()`: the constants and the package's version triple. */
  function New(pkg: string): (h: Header)
    ensures h.magic == MAGIC && h.github == GITHUB
    ensures h.Triple() == PackageVersion(pkg)
  {
    ConstantsAreUtf8();
    var v := PackageVersion(pkg);
    Header(MAGIC, GITHUB, v.major, v.minor, v.patch)
  }

  /** `check_version`: all three bytes must equal the package's. */
  function CheckVersion(h: Header, pkg: string): (r: Result<(), BinaryError>)
    ensures r.Ok? <==> h.Triple() == PackageVersion(pkg)
    ensures r.Err? ==> r.error == IncorrectVersion(VersionString(PackageVersion(pkg)), VersionString(h.Triple()))
  {
    var v := PackageVersion(pkg);
    if h.versionMajor != v.major || h.versionMinor != v.minor || h.versionPatch != v.patch then
      Err(IncorrectVersion(VersionString(v), VersionString(h.Triple())))
    else
      Ok(())
  }

  /** `serialize`: magic, a zero byte, link, major, minor, patch. */
  function Serialize(h: Header): (r: seq<byte>)
    ensures |r| == |h.magic| + 1 + |h.github| + 3
  {
    Write.StringRaw(h.magic) + Write.U8(0) + Write.StringRaw(h.github)
    + Write.U8(h.versionMajor) + Write.U8(h.versionMinor) + Write.U8(h.versionPatch)
  }

  /** Where each field sits in a serialized header. */
  lemma SerializeLayout(h: Header)
    ensures var r := Serialize(h);
            r[..|h.magic|] == h.magic && r[|h.magic|] == 0
            && r[|h.magic| + 1..|h.magic| + 1 + |h.github|] == h.github
            && r[|r| - 3..] == [h.versionMajor, h.versionMinor, h.versionPatch]
  {
    var a := h.magic + [0];
    assert Serialize(h) == a + h.github + [h.versionMajor, h.versionMinor, h.versionPatch];
    assert (a + h.github)[..|h.magic|] == h.magic;
  }

  /** A field's I/O error turned into `SyntaxError` naming the field. */
  function Field<T>(r: Read.Decoded<T>, context: string): Result<(T, seq<byte>), BinaryError> {
    match r
    case Ok(v) => Ok(v)
    case Err(_) => Err(SyntaxError(context))
  }

  /** The input holds a header: long enough, with UTF-8 where the two strings go. */
  predicate HeaderBytes(input: seq<byte>) {
    HEADER_LEN <= |input| && ValidUtf8(input[..|MAGIC|]) && ValidUtf8(input[|MAGIC| + 1..|MAGIC| + 1 + |GITHUB|])
  }

  /** `deserialize`: the fields in the order `serialize` writes them, the two
      strings at the constants' lengths; the separator byte is read and not
      looked at. The first field that fails names the error. */
  function Deserialize(input: seq<byte>): (r: Result<(Header, seq<byte>), BinaryError>)
    ensures r.Ok? ==> |r.value.0.magic| == |MAGIC| && |r.value.0.github| == |GITHUB|
    ensures r.Ok? ==> HEADER_LEN <= |input| && r.value.1 == input[HEADER_LEN..]
  {
    var (magic, afterMagic) :- Field(Read.StringRaw(input, |MAGIC|), "Failed to read magic");
    var (_, afterSeparator) :- Read.Io(Read.U8(afterMagic));
    DeserializeFields(magic, afterSeparator)
  }

  /** The part of `deserialize` after the separator byte: the link and the
      three version bytes. */
  function DeserializeFields(magic: Utf8, input: seq<byte>): (r: Result<(Header, seq<byte>), BinaryError>)
    ensures r.Ok? ==> r.value.0.magic == magic && |r.value.0.github| == |GITHUB|
    ensures r.Ok? ==> |GITHUB| + 3 <= |input| && r.value.1 == input[|GITHUB| + 3..]
  {
    var (github, afterLink) :- Field(Read.StringRaw(input, |GITHUB|), "Failed to read GitHub link");
    var (major, afterMajor) :- Field(Read.U8(afterLink), "Failed to read major version");
    var (minor, afterMinor) :- Field(Read.U8(afterMajor), "Failed to read minor version");
    var (patch, rest) :- Field(Read.U8(afterMinor), "Failed to read patch version");
    Ok((Header(magic, github, major, minor, patch), rest))
  }

  /** On input that holds a header, `deserialize` returns its fields and the
      bytes after it. */
  lemma DeserializeHeaderBytes(input: seq<byte>)
    requires HeaderBytes(input)
    ensures Deserialize(input).Ok?
    ensures var (h, rest) := Deserialize(input).value;
            rest == input[HEADER_LEN..]
            && h.magic == input[..|MAGIC|]
            && h.github == input[|MAGIC| + 1..|MAGIC| + 1 + |GITHUB|]
            && h.Triple() == Version(input[HEADER_LEN - 3], input[HEADER_LEN - 2], input[HEADER_LEN - 1])
  {
    ConstantsAreUtf8();
    var afterMagic := input[4..];
    assert Read.StringRaw(input, 4) == Ok((input[..4], afterMagic));
    var afterSeparator := input[5..];
    assert Read.U8(afterMagic) == Ok((input[4], afterSeparator));
    assert afterSeparator[..25] == input[5..30];
    var afterLink := input[30..];
    assert Read.StringRaw(afterSeparator, 25) == Ok((input[5..30], afterLink));
    assert Read.U8(afterLink) == Ok((input[30], input[31..]));
    assert Read.U8(input[31..]) == Ok((input[31], input[32..]));
    assert Read.U8(input[32..]) == Ok((input[32], input[33..]));
  }

  /** A magic field that is cut short or is not UTF-8 is reported as such. */
  lemma DeserializeBadMagic(input: seq<byte>)
    requires !(|MAGIC| <= |input| && ValidUtf8(input[..|MAGIC|]))
    ensures Deserialize(input) == Err(SyntaxError("Failed to read magic"))
  {
  }

  /** Input that ends right after the magic fails on the separator byte with
      the plain I/O error (`?` on `read::u8`). */
  lemma DeserializeNoSeparator(input: seq<byte>)
    requires |input| == |MAGIC| && ValidUtf8(input)
    ensures Deserialize(input) == Err(IOFailed(UnexpectedEof))
  {
    ConstantsAreUtf8();
    assert input[..4] == input;
    assert Read.StringRaw(input, 4) == Ok((input, []));
  }

  /** A link field that is cut short or is not UTF-8 is reported as such,
      whatever the separator byte. */
  lemma DeserializeBadLink(input: seq<byte>)
    requires |MAGIC| < |input| && ValidUtf8(input[..|MAGIC|])
    requires !(|MAGIC| + 1 + |GITHUB| <= |input| && ValidUtf8(input[|MAGIC| + 1..|MAGIC| + 1 + |GITHUB|]))
    ensures Deserialize(input) == Err(SyntaxError("Failed to read GitHub link"))
  {
    ConstantsAreUtf8();
    assert Read.StringRaw(input, 4) == Ok((input[..4], input[4..]));
    assert Read.U8(input[4..]) == Ok((input[4], input[5..]));
    assert 30 <= |input| ==> input[5..][..25] == input[5..30];
  }

  /** Input that ends inside the version triple names the missing part. */
  lemma DeserializeShortVersion(input: seq<byte>)
    requires HEADER_LEN - 3 <= |input| < HEADER_LEN
    requires ValidUtf8(input[..|MAGIC|]) && ValidUtf8(input[|MAGIC| + 1..|MAGIC| + 1 + |GITHUB|])
    ensures Deserialize(input) == Err(SyntaxError(
              if |input| == HEADER_LEN - 3 then "Failed to read major version"
              else if |input| == HEADER_LEN - 2 then "Failed to read minor version"
              else "Failed to read patch version"))
  {
    ConstantsAreUtf8();
    assert Read.StringRaw(input, 4) == Ok((input[..4], input[4..]));
    assert Read.U8(input[4..]) == Ok((input[4], input[5..]));
    assert input[5..][..25] == input[5..30];
    assert Read.StringRaw(input[5..], 25) == Ok((input[5..30], input[30..]));
    if 31 <= |input| {
      assert Read.U8(input[30..]) == Ok((input[30], input[31..]));
      if 32 <= |input| {
        assert Read.U8(input[31..]) == Ok((input[31], input[32..]));
      }
    }
  }

  /** `deserialize` succeeds exactly on input that holds a header. */
  lemma DeserializeOkIff(input: seq<byte>)
    ensures Deserialize(input).Ok? <==> HeaderBytes(input)
  {
    ConstantsAreUtf8();
    if HeaderBytes(input) {
      DeserializeHeaderBytes(input);
    } else if !(|MAGIC| <= |input| && ValidUtf8(input[..|MAGIC|])) {
      DeserializeBadMagic(input);
    } else if |input| == |MAGIC| {
      assert input[..|MAGIC|] == input;
      DeserializeNoSeparator(input);
    } else if !(|MAGIC| + 1 + |GITHUB| <= |input| && ValidUtf8(input[|MAGIC| + 1..|MAGIC| + 1 + |GITHUB|])) {
      DeserializeBadLink(input);
    } else {
      DeserializeShortVersion(input);
    }
  }

  /** `check`: the magic first, then the link, then the version. */
  function Check(h: Header, pkg: string): (r: Result<(), BinaryError>)
    ensures r.Ok? <==> h.magic == MAGIC && h.github == GITHUB && h.Triple() == PackageVersion(pkg)
    ensures h.magic != MAGIC ==> r == Err(SyntaxError("Invalid magic number"))
    ensures h.magic == MAGIC && h.github != GITHUB ==> r == Err(SyntaxError("Invalid GitHub link"))
    ensures h.magic == MAGIC && h.github == GITHUB && h.Triple() != PackageVersion(pkg) ==>
              r == Err(IncorrectVersion(VersionString(PackageVersion(pkg)), VersionString(h.Triple())))
  {
    if h.magic != MAGIC then Err(SyntaxError("Invalid magic number"))
    else if h.github != GITHUB then Err(SyntaxError("Invalid GitHub link"))
    else CheckVersion(h, pkg)
  }

  // ---------------------------------------------------------------------

  /** A header whose strings have the constants' lengths reads back as itself,
      and the bytes after it are left untouched. */
  lemma SerializeDeserialize(h: Header, tail: seq<byte>)
    requires |h.magic| == |MAGIC| && |h.github| == |GITHUB|
    ensures Deserialize(Serialize(h) + tail) == Ok((h, tail))
  {
    var s := Serialize(h) + tail;
    SerializeLayout(h);
    assert s[..|MAGIC|] == h.magic;
    assert s[|MAGIC| + 1..|MAGIC| + 1 + |GITHUB|] == h.github;
    assert s[HEADER_LEN..] == tail;
    DeserializeHeaderBytes(s);
  }

  /** The byte after the magic does not matter to `deserialize`. */
  lemma SeparatorIgnored(input: seq<byte>, other: seq<byte>)
    requires |MAGIC| < |input| == |other|
    requires other[..|MAGIC|] == input[..|MAGIC|] && other[|MAGIC| + 1..] == input[|MAGIC| + 1..]
    ensures Deserialize(other) == Deserialize(input)
  {
    SeparatorStep(other);
    SeparatorStep(input);
  }

  /** `deserialize` reads the magic and skips one byte, whatever it holds. */
  lemma SeparatorStep(input: seq<byte>)
    requires |MAGIC| < |input|
    ensures Deserialize(input) ==
            if ValidUtf8(input[..|MAGIC|]) then DeserializeFields(input[..|MAGIC|], input[|MAGIC| + 1..])
            else Err(SyntaxError("Failed to read magic"))
  {
    ConstantsAreUtf8();
    if ValidUtf8(input[..4]) {
      assert Read.StringRaw(input, 4) == Ok((input[..4], input[4..]));
      assert Read.U8(input[4..]) == Ok((input[4], input[5..]));
    }
  }

  /** A fresh header passes `check`. */
  lemma NewPassesCheck(pkg: string)
    ensures Check(New(pkg), pkg) == Ok(())
  {
  }

  /** A fresh header survives serialization and still passes `check`. */
  lemma NewRoundTripPassesCheck(pkg: string, tail: seq<byte>)
    ensures Deserialize(Serialize(New(pkg)) + tail) == Ok((New(pkg), tail))
    ensures Check(Deserialize(Serialize(New(pkg)) + tail).value.0, pkg) == Ok(())
  {
    ConstantsAreUtf8();
    SerializeDeserialize(New(pkg), tail);
  }
}
