/** The loader of the text archive (src/loader.rs). An archive is a banner
    "RASS v<version> (github.com/LeviLovie/rass)\n", a run of records
    `<name:offset:len>` with the name in base64, a '&', and then the
    base64 contents of the stored files one after another. `load` checks the
    banner and fills the index from the records; `read` finds one file's
    contents by skipping past the '&' and then `offset` characters.

    The archive is a sequence of characters each one byte long, as the
    compiler writes it. Opening the file is a parameter of type
    Option<string>: None when the path does not exist or cannot be opened. */
module TextLoader {
  import opened Wrappers
  import opened Bytes
  import opened Text
  import opened Base64
  import Binary

  datatype LoaderError =
    | BinaryDoesNotExist(path: string)
    | SyntaxError(context: string)
    | FileNotFound(name: Utf8)

  /** The start of the banner, up to the version. */
  const MAGIC_TEXT: string := "RASS v"
  /** The rest of the banner, after the version. */
  const LINK_TEXT: string := " (github.com/LeviLovie/rass)\n"

  predicate IsPrefix(p: string, s: string) {
    |p| <= |s| && s[..|p|] == p
  }

  // ---------------------------------------------------------------------
  // Reading the character stream

  /** How many characters `read_until(d)` takes: through the first d, or
      everything when there is none. */
  function UntilLen(s: string, d: char): (n: nat)
    ensures n <= |s|
    ensures forall i :: 0 <= i < n - 1 ==> s[i] != d
    ensures (0 < n && s[n - 1] == d) || (n == |s| && d !in s)
    decreases |s|
  {
    if s == [] then 0 else if s[0] == d then 1 else 1 + UntilLen(s[1..], d)
  }

  /** `read_next_chars(count)`: the next count characters, or all that are
      left at end of input; never an error. */
  method ReadNextChars(s: string, count: nat) returns (result: string, rest: string)
    ensures result + rest == s
    ensures |result| == Min(count, |s|)
  {
    result, rest := [], s;
    while |result| < count && rest != []
      invariant result + rest == s && |result| <= count
      decreases |rest|
    {
      assert (result + [rest[0]]) + rest[1..] == result + rest;
      result, rest := result + [rest[0]], rest[1..];
    }
  }

  /** `peek_next_chars(count)`: the next count characters (fewer at end of
      input), leaving the stream where it is. */
  method PeekNextChars(s: string, count: nat) returns (peeked: string)
    ensures peeked == s[..Min(count, |s|)]
  {
    peeked := [];
    if s == [] {
      return;
    }
    for i := 0 to count
      invariant |peeked| == Min(i, |s|) && peeked == s[..|peeked|]
    {
      if i < |s| {
        assert s[..i + 1] == s[..i] + [s[i]];
        peeked := peeked + [s[i]];
      } else {
        break;
      }
    }
  }

  /** `expect_next_chars(expected)`: reads as many characters as expected
      has and fails, with a message naming both, unless they are expected. */
  method ExpectNextChars(s: string, expected: string) returns (r: Result<(), string>, rest: string)
    ensures r.Ok? <==> IsPrefix(expected, s)
    ensures r.Err? ==> r.error == "Expected '" + expected + "', found '" + s[..Min(|expected|, |s|)] + "'"
    ensures rest == s[Min(|expected|, |s|)..]
  {
    var actual;
    actual, rest := ReadNextChars(s, |expected|);
    assert actual == s[..|actual|];
    if actual != expected {
      r := Err("Expected '" + expected + "', found '" + actual + "'");
    } else {
      r := Ok(());
    }
  }

  /** `read_until(d)`: the characters through the first d inclusive, or the
      whole remainder when d does not occur. */
  method ReadUntil(s: string, d: char) returns (result: string, rest: string)
    ensures result == s[..UntilLen(s, d)] && rest == s[UntilLen(s, d)..]
  {
    result := [];
    var i := 0;
    while i < |s|
      invariant i <= |s| && result == s[..i]
      invariant UntilLen(s, d) == i + UntilLen(s[i..], d)
      decreases |s| - i
    {
      var c := s[i];
      assert s[i..][1..] == s[i + 1..];
      assert s[..i + 1] == result + [c];
      result := result + [c];
      i := i + 1;
      if c == d {
        break;
      }
    }
    rest := s[i..];
  }

  /** `skip_after(d)`: drops everything through the first d; when there is
      no d the whole input is consumed and the result is UnexpectedEof. */
  method SkipAfter(s: string, d: char) returns (r: Result<(), Binary.IoError>, rest: string)
    ensures r.Ok? <==> d in s
    ensures r.Ok? ==> rest == s[UntilLen(s, d)..]
    ensures r.Err? ==> r.error == Binary.UnexpectedEof && rest == []
  {
    rest := s;
    ghost var taken: nat := 0;
    while rest != []
      invariant taken <= |s| && rest == s[taken..]
      invariant d !in s[..taken]
      invariant UntilLen(s, d) == taken + UntilLen(rest, d)
      decreases |rest|
    {
      var c := rest[0];
      assert s[..taken + 1] == s[..taken] + [c];
      rest, taken := rest[1..], taken + 1;
      if c == d {
        return Ok(()), rest;
      }
    }
    assert s[..taken] == s;
    r := Err(Binary.UnexpectedEof);
  }

  /** `read_file(start, len)`: skips start characters and then reads exactly
      len bytes; it fails with UnexpectedEof when the input runs out first. */
  method ReadFile(s: string, start: u32, len: u32) returns (r: Result<string, Binary.IoError>)
    ensures r.Ok? <==> start + len <= |s|
    ensures r.Ok? ==> r.value == s[start..start + len]
    ensures r.Err? ==> r.error == Binary.UnexpectedEof
  {
    var skipped: nat := 0;
    var rest := s;
    while skipped < start
      invariant skipped <= start && skipped <= |s| && rest == s[skipped..]
    {
      if rest == [] {
        return Err(Binary.UnexpectedEof);
      }
      rest, skipped := rest[1..], skipped + 1;
    }
    if |rest| < len {
      return Err(Binary.UnexpectedEof);
    }
    r := Ok(rest[..len]);
  }

  // ---------------------------------------------------------------------
  // What `load` computes

  /** The index `load` fills: a file name (the decoded bytes of a record's
      first field) to its (offset, length). */
  type Index = map<Utf8, (u32, u32)>

  /** The result of `load` and the index it leaves behind, which on an error
      still holds the records accepted before it. */
  datatype Outcome = Outcome(result: Result<(), LoaderError>, files: Index)

  /** One record as the text `read_until('>')` returned: every leading '<'
      and trailing '>' trimmed, three ':'-separated fields, a base64 name
      that decodes to UTF-8 and is not yet in the index, and two u32
      numbers. The checks come in this order, and the first that fails
      gives the error. */
  function Record(files: Index, header: string, e: Engine): Result<Index, LoaderError> {
    var parts := Split(TrimEnd(TrimStart(header, '<'), '>'), ':');
    if |parts| != 3 then Err(SyntaxError("Invalid source header format"))
    else match e.decode(parts[0])
      case None => Err(SyntaxError("Failed to decode source name"))
      case Some(name) =>
        if !ValidUtf8(name) then Err(SyntaxError("Failed to convert source name to UTF-8"))
        else if name in files then Err(SyntaxError("Duplicate source file found"))
        else match ParseUnsigned(parts[1], U32_LIMIT)
          case None => Err(SyntaxError("Failed to parse source offset"))
          case Some(offset) =>
            match ParseUnsigned(parts[2], U32_LIMIT)
            case None => Err(SyntaxError("Failed to parse source length"))
            case Some(length) => Ok(files[name := (offset, length)])
  }

  /** A record is accepted exactly when it has three fields, the first
      decodes to a UTF-8 name not yet in the index, and the other two parse
      as u32; the index then gains that name and nothing else changes. */
  lemma RecordAccepts(files: Index, header: string, e: Engine)
    ensures var parts := Split(TrimEnd(TrimStart(header, '<'), '>'), ':');
            var r := Record(files, header, e);
            r.Ok? <==> |parts| == 3 && e.decode(parts[0]).Some? && ValidUtf8(e.decode(parts[0]).value)
                       && e.decode(parts[0]).value !in files
                       && ParseUnsigned(parts[1], U32_LIMIT).Some? && ParseUnsigned(parts[2], U32_LIMIT).Some?
    ensures var parts := Split(TrimEnd(TrimStart(header, '<'), '>'), ':');
            |parts| != 3 ==> Record(files, header, e) == Err(SyntaxError("Invalid source header format"))
  {
  }

  /** An empty record text is never accepted, so the record loop always
      makes progress. */
  lemma RecordNeedsText(files: Index, header: string, e: Engine)
    ensures Record(files, header, e).Ok? ==> |header| > 0
  {
    if header == [] {
      assert TrimEnd(TrimStart(header, '<'), '>') == [];
    }
  }

  /** `read_until` runs past text without the delimiter. */
  lemma {:induction false} UntilLenSkip(a: string, b: string, d: char)
    requires d !in a
    ensures UntilLen(a + b, d) == |a| + UntilLen(b, d)
    decreases |a|
  {
    if a != [] {
      assert (a + b)[0] == a[0] && (a + b)[1..] == a[1..] + b;
      UntilLenSkip(a[1..], b, d);
    } else {
      assert a + b == b;
    }
  }

  /** An accepted record adds exactly one name that was not there before
      and changes nothing else. */
  lemma RecordOnlyAdds(files: Index, header: string, e: Engine)
    ensures var r := Record(files, header, e);
            r.Ok? ==> |r.value.Keys - files.Keys| == 1 && forall k :: k in files ==> k in r.value && r.value[k] == files[k]
  {
    if Record(files, header, e).Ok? {
      var parts := Split(TrimEnd(TrimStart(header, '<'), '>'), ':');
      var name := e.decode(parts[0]).value;
      var entry := (ParseUnsigned(parts[1], U32_LIMIT).value, ParseUnsigned(parts[2], U32_LIMIT).value);
      assert name !in files && Record(files, header, e).value == files[name := entry];
      AddOne(files, name, entry);
    }
  }

  /** Adding a new key to an index adds that key alone. */
  lemma AddOne(files: Index, name: Utf8, entry: (u32, u32))
    requires name !in files
    ensures |files[name := entry].Keys - files.Keys| == 1
    ensures forall k :: k in files ==> k in files[name := entry] && files[name := entry][k] == files[k]
  {
    assert files[name := entry].Keys - files.Keys == {name};
  }

  /** The record loop of `load`: stop before a '&', otherwise read a record
      through '>' and add it; the first record that fails ends the loop. */
  function RecordLoop(files: Index, s: string, e: Engine): Outcome
    decreases |s|
  {
    if s != [] && s[0] == '&' then Outcome(Ok(()), files)
    else
      var n := UntilLen(s, '>');
      match Record(files, s[..n], e)
      case Err(err) => Outcome(Err(err), files)
      case Ok(next) =>
        RecordNeedsText(files, s[..n], e);
        RecordLoop(next, s[n..], e)
  }

  /** The entries already in the index survive the record loop unchanged,
      also when it stops on an error. */
  lemma {:induction false} RecordLoopKeepsEntries(files: Index, s: string, e: Engine)
    ensures forall k :: k in files ==> k in RecordLoop(files, s, e).files && RecordLoop(files, s, e).files[k] == files[k]
    decreases |s|
  {
    if !(s != [] && s[0] == '&') {
      var n := UntilLen(s, '>');
      var next := Record(files, s[..n], e);
      if next.Ok? {
        RecordOnlyAdds(files, s[..n], e);
        RecordNeedsText(files, s[..n], e);
        RecordLoopKeepsEntries(next.value, s[n..], e);
      }
    }
  }

  /** `load` reading `width` characters for the version: the banner's three
      parts are checked in order, then the record loop runs. */
  function LoadWithWidth(files: Index, binary: string, archive: Option<string>, e: Engine,
                         version: string, width: nat): Outcome
  {
    if archive.None? then Outcome(Err(BinaryDoesNotExist(binary)), files)
    else
      var s := archive.value;
      if !IsPrefix(MAGIC_TEXT, s) then Outcome(Err(SyntaxError("Failed to read magic number")), files)
      else
        var afterMagic := s[|MAGIC_TEXT|..];
        var found := afterMagic[..Min(width, |afterMagic|)];
        var afterVersion := afterMagic[Min(width, |afterMagic|)..];
        if found != version then
          Outcome(Err(SyntaxError("Unsupported version: " + found + ", expected: " + version)), files)
        else if !IsPrefix(LINK_TEXT, afterVersion) then Outcome(Err(SyntaxError("Failed to read link")), files)
        else RecordLoop(files, afterVersion[|LINK_TEXT|..], e)
  }

  /** `load` accepts nothing but an archive that starts with the banner:
      whatever the version width, an archive without it is a SyntaxError
      that leaves the index as it was. */
  lemma LoadNeedsBanner(files: Index, binary: string, archive: Option<string>, e: Engine, version: string, width: nat)
    ensures var out := LoadWithWidth(files, binary, archive, e, version, width);
            archive.Some? && !IsPrefix(MAGIC_TEXT + version + LINK_TEXT, archive.value) ==>
              out.result.Err? && out.result.error.SyntaxError? && out.files == files
    ensures LoadWithWidth(files, binary, archive, e, version, width).result.Ok? ==>
              archive.Some? && IsPrefix(MAGIC_TEXT + version + LINK_TEXT, archive.value)
  {
    if archive.Some? && !IsPrefix(MAGIC_TEXT + version + LINK_TEXT, archive.value) {
      var s := archive.value;
      if IsPrefix(MAGIC_TEXT, s) {
        var afterMagic := s[|MAGIC_TEXT|..];
        var found := afterMagic[..Min(width, |afterMagic|)];
        if found == version {
          BannerParts(s, version, Min(width, |afterMagic|));
        }
      }
    }
  }

  /** Magic, then the version read with the width it has, then the link,
      make the banner. */
  lemma BannerParts(s: string, version: string, k: nat)
    requires IsPrefix(MAGIC_TEXT, s) && k <= |s| - |MAGIC_TEXT| && s[|MAGIC_TEXT|..][..k] == version
    ensures IsPrefix(MAGIC_TEXT + version + LINK_TEXT, s) <==> IsPrefix(LINK_TEXT, s[|MAGIC_TEXT|..][k..])
    ensures IsPrefix(LINK_TEXT, s[|MAGIC_TEXT|..][k..]) ==>
              s[|MAGIC_TEXT|..][k..][|LINK_TEXT|..] == s[|MAGIC_TEXT + version + LINK_TEXT|..]
  {
    var m := |MAGIC_TEXT|;
    assert s[m..][k..] == s[m + k..];
    assert s[m..m + k] == version;
    PrefixOfThree(s, MAGIC_TEXT, version, LINK_TEXT);
  }

  /** s starts with a, b, c exactly when it starts with a and b and what
      follows them starts with c. */
  lemma PrefixOfThree(s: string, a: string, b: string, c: string)
    requires |a| + |b| <= |s| && s[..|a|] == a && s[|a|..|a| + |b|] == b
    ensures IsPrefix(a + b + c, s) <==> IsPrefix(c, s[|a| + |b|..])
    ensures IsPrefix(c, s[|a| + |b|..]) ==> s[|a| + |b|..][|c|..] == s[|a + b + c|..]
  {
    var n := |a| + |b|;
    if IsPrefix(c, s[n..]) {
      assert s[..n + |c|] == s[..|a|] + s[|a|..n] + s[n..][..|c|];
    }
    if IsPrefix(a + b + c, s) {
      assert s[n..][..|c|] == s[..|a + b + c|][n..];
      assert (a + b + c)[n..] == c;
    }
  }

  /** Reading as many characters as the version has, the banner is exactly
      what `load` skips before the record loop. */
  lemma LoadSkipsBanner(files: Index, binary: string, s: string, e: Engine, version: string)
    requires IsPrefix(MAGIC_TEXT + version + LINK_TEXT, s)
    ensures LoadSpec(files, binary, Some(s), e, version) == RecordLoop(files, s[|MAGIC_TEXT + version + LINK_TEXT|..], e)
  {
    var banner := MAGIC_TEXT + version + LINK_TEXT;
    assert s[..|banner|][..|MAGIC_TEXT|] == MAGIC_TEXT;
    assert s[..|banner|][|MAGIC_TEXT|..|MAGIC_TEXT| + |version|] == version;
    BannerParts(s, version, |version|);
  }

  /** How many characters of version `load` reads (`read_next_chars(5)`). */
  const VERSION_WIDTH: nat := 5

  /** `load` as written: it reads exactly five characters of version. */
  function LoadAsWritten(files: Index, binary: string, archive: Option<string>, e: Engine, version: string): Outcome {
    LoadWithWidth(files, binary, archive, e, version, VERSION_WIDTH)
  }

  /** `load` reading as many characters as the version has, which is what the
      compiler writes. */
  function LoadSpec(files: Index, binary: string, archive: Option<string>, e: Engine, version: string): Outcome {
    LoadWithWidth(files, binary, archive, e, version, |version|)
  }

  /** What `read(name)` returns for the given index. */
  function ReadEntry(files: Index, binary: string, archive: Option<string>, e: Engine, name: Utf8): (r: Result<Utf8, LoaderError>)
    ensures name !in files ==> r == Err(FileNotFound(name))
    ensures name in files && archive.None? ==> r == Err(BinaryDoesNotExist(binary))
    ensures r.Ok? ==> name in files && archive.Some? && '&' in archive.value
                      && files[name].0 as nat + files[name].1 as nat <= |archive.value| - UntilLen(archive.value, '&')
  {
    if name !in files then Err(FileNotFound(name))
    else if archive.None? then Err(BinaryDoesNotExist(binary))
    else
      var s := archive.value;
      if '&' !in s then Err(SyntaxError("Failed to read until end of header"))
      else
        Stored(s[UntilLen(s, '&')..], files[name].0, files[name].1, e)
  }

  /** The part of `read` after the '&': `len` characters from `start` on,
      decoded from base64 and then taken as UTF-8. */
  function Stored(payload: string, start: u32, len: u32, e: Engine): (r: Result<Utf8, LoaderError>)
    ensures r.Ok? ==> start as nat + len as nat <= |payload|
  {
    if |payload| < start as nat + len as nat then Err(SyntaxError("Failed to read binary data"))
    else match e.decode(payload[start..start as nat + len as nat])
      case None => Err(SyntaxError("Failed to decode base64"))
      case Some(data) =>
        if ValidUtf8(data) then Ok(data) else Err(SyntaxError("Failed to convert to UTF-8"))
  }

  // ---------------------------------------------------------------------
  // The loader object

  class Loader {
    const binary: string
    var files: Index

    /** `Loader::new(binary)`: the path and an empty index. */
    constructor (binary: string)
      ensures this.binary == binary && files == map[]
    {
      this.binary := binary;
      files := map[];
    }

    /** `files()`: the index. */
    function Files(): Index
      reads this
    {
      files
    }

    /** `load` as written: the version is read as five characters. The
        index is not cleared first, so a second load reports the names
        already there as duplicates. */
    method Load(archive: Option<string>, e: Engine, version: string) returns (r: Result<(), LoaderError>)
      modifies this
      ensures Outcome(r, files) == LoadAsWritten(old(files), binary, archive, e, version)
    {
      r := LoadReading(archive, e, version, VERSION_WIDTH);
    }

    /** `load` reading as many version characters as the version has, which
        is what `compile` writes. */
    method LoadCorrected(archive: Option<string>, e: Engine, version: string) returns (r: Result<(), LoaderError>)
      modifies this
      ensures Outcome(r, files) == LoadSpec(old(files), binary, archive, e, version)
    {
      r := LoadReading(archive, e, version, |version|);
    }

    /** The steps of `load` with the version read as `width` characters:
        checks the banner and adds every record before the '&' to the index. */
    method LoadReading(archive: Option<string>, e: Engine, version: string, width: nat) returns (r: Result<(), LoaderError>)
      modifies this
      ensures Outcome(r, files) == LoadWithWidth(old(files), binary, archive, e, version, width)
    {
      if archive.None? {
        return Err(BinaryDoesNotExist(binary));
      }
      ghost var s := archive.value;
      var check, rest := ExpectNextChars(archive.value, MAGIC_TEXT);
      if check.Err? {
        return Err(SyntaxError("Failed to read magic number"));
      }
      ghost var afterMagic := rest;
      var found;
      found, rest := ReadNextChars(rest, width);
      assert found == afterMagic[..Min(width, |afterMagic|)] by {
        assert afterMagic[..|found|] == (found + rest)[..|found|];
      }
      if found != version {
        return Err(SyntaxError("Unsupported version: " + found + ", expected: " + version));
      }
      assert rest == afterMagic[Min(width, |afterMagic|)..] by {
        assert afterMagic[|found|..] == (found + rest)[|found|..];
      }
      check, rest := ExpectNextChars(rest, LINK_TEXT);
      if check.Err? {
        return Err(SyntaxError("Failed to read link"));
      }
      while true
        invariant LoadWithWidth(old(files), binary, archive, e, version, width) == RecordLoop(files, rest, e)
        decreases |rest|
      {
        var next := PeekNextChars(rest, 1);
        if next == "&" {
          assert rest != [] && rest[0] == '&' by { assert next[0] == rest[0]; }
          break;
        }
        assert rest == [] || rest[0] != '&' by {
          if rest != [] { assert next == [rest[0]]; }
        }
        ghost var before := rest;
        var header;
        header, rest := ReadUntil(rest, '>');
        var updated := Record(files, header, e);
        if updated.Err? {
          assert RecordLoop(files, before, e) == Outcome(Err(updated.error), files);
          return Err(updated.error);
        }
        RecordNeedsText(files, header, e);
        assert RecordLoop(files, before, e) == RecordLoop(updated.value, rest, e);
        files := updated.value;
      }
      r := Ok(());
    }

    /** `read(name)`: the decoded contents of the file the index places at
        (offset, length) after the '&'. */
    method Read(archive: Option<string>, e: Engine, name: Utf8) returns (r: Result<Utf8, LoaderError>)
      ensures r == ReadEntry(files, binary, archive, e, name)
    {
      if name !in files {
        return Err(FileNotFound(name));
      }
      var (start, len) := files[name];
      if archive.None? {
        return Err(BinaryDoesNotExist(binary));
      }
      var skipped, payload := SkipAfter(archive.value, '&');
      if skipped.Err? {
        return Err(SyntaxError("Failed to read until end of header"));
      }
      var data := ReadFile(payload, start, len);
      if data.Err? {
        return Err(SyntaxError("Failed to read binary data"));
      }
      var decoded := e.decode(data.value);
      if decoded.None? {
        return Err(SyntaxError("Failed to decode base64"));
      }
      if !ValidUtf8(decoded.value) {
        return Err(SyntaxError("Failed to convert to UTF-8"));
      }
      r := Ok(decoded.value);
    }
  }
}
