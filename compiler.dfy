/** The compiler of the text archive (src/compiler.rs). `compile` writes the
    banner, then one record `<name:offset:len>` per source, a '&', and the
    base64 contents of the sources in the same order; each offset counts
    the content characters written before it.

    The directory walk that lists the sources is not part of this model: the
    sources arrive as a sequence of (path, bytes), and `read_to_string`
    fails exactly when the bytes are not UTF-8. The file being written is
    the string the method returns. */
module TextCompiler {
  import opened Wrappers
  import opened Bytes
  import opened Text
  import opened Base64
  import TextLoader

  // ---------------------------------------------------------------------
  // The builder

  datatype BuilderError = NoSourcesPath | NoBinaryPath

  datatype CompilerBuilder = CompilerBuilder(sources: Option<string>, binary: Option<string>)

  /** The two paths a built compiler holds. */
  datatype Compiler = Compiler(sources: string, binary: string)

  /** `Compiler::builder()`, the builder's `Default`: neither path set. */
  function Builder(): (b: CompilerBuilder)
    ensures b.sources.None? && b.binary.None?
  {
    CompilerBuilder(None, None)
  }

  /** `from_sources`: sets the sources path and nothing else. */
  function FromSources(b: CompilerBuilder, sources: string): (r: CompilerBuilder)
    ensures r.sources == Some(sources) && r.binary == b.binary
  {
    b.(sources := Some(sources))
  }

  /** `save_to`: sets the binary path and nothing else. */
  function SaveTo(b: CompilerBuilder, binary: string): (r: CompilerBuilder)
    ensures r.binary == Some(binary) && r.sources == b.sources
  {
    b.(binary := Some(binary))
  }

  /** `build`: succeeds exactly when both paths are set; a missing sources
      path is reported before a missing binary path. */
  function Build(b: CompilerBuilder): (r: Result<Compiler, BuilderError>)
    ensures r.Ok? <==> b.sources.Some? && b.binary.Some?
    ensures r.Ok? ==> r.value == Compiler(b.sources.value, b.binary.value)
    ensures r.Err? ==> (r.error == NoSourcesPath <==> b.sources.None?)
  {
    if b.sources.None? then Err(NoSourcesPath)
    else if b.binary.None? then Err(NoBinaryPath)
    else Ok(Compiler(b.sources.value, b.binary.value))
  }

  /** Both setters, in either order, give a compiler holding both paths;
      either one alone is not enough. */
  lemma BuildAfterSetters(sources: string, binary: string)
    ensures Build(SaveTo(FromSources(Builder(), sources), binary)) == Ok(Compiler(sources, binary))
    ensures Build(FromSources(SaveTo(Builder(), binary), sources)) == Ok(Compiler(sources, binary))
    ensures Build(FromSources(Builder(), sources)) == Err(NoBinaryPath)
    ensures Build(SaveTo(Builder(), binary)) == Err(NoSourcesPath)
    ensures Build(Builder()) == Err(NoSourcesPath)
  {
  }

  // ---------------------------------------------------------------------
  // What `compile` writes

  datatype CompilerError = FailedToReadSource(path: Utf8)

  /** A source file: the path (its `display()` text) and its bytes. */
  datatype Source = Source(path: Utf8, data: seq<byte>)

  /** `read_to_string` succeeds on the source. */
  predicate Readable(s: Source) {
    ValidUtf8(s.data)
  }

  /** One `(name, offset, len)` record, with the path not yet encoded. */
  datatype Entry = Entry(path: Utf8, offset: u32, length: u32)

  /** The banner: magic, the package version, the link. */
  function Banner(version: string): string {
    TextLoader.MAGIC_TEXT + version + TextLoader.LINK_TEXT
  }

  /** The base64 text of every source, in order. */
  function Contents(sources: seq<Source>, e: Engine): (cs: seq<string>)
    ensures |cs| == |sources|
  {
    seq(|sources|, i requires 0 <= i < |sources| => e.encode(sources[i].data))
  }

  /** The texts one after another. */
  function Concat(cs: seq<string>): (s: string)
    decreases |cs|
  {
    if cs == [] then [] else Concat(cs[..|cs| - 1]) + cs[|cs| - 1]
  }

  /** The records: source i sits after the contents of sources 0 .. i-1
      and is as long as its own content, both counted modulo 2^32 as the
      `as u32` casts do. */
  function Entries(sources: seq<Source>, e: Engine): (es: seq<Entry>)
    ensures |es| == |sources|
  {
    var cs := Contents(sources, e);
    seq(|sources|, i requires 0 <= i < |sources| => Entry(sources[i].path, AsU32(|Concat(cs[..i])|), AsU32(|cs[i]|)))
  }

  /** `format!("<{}:{}:{}>", name, offset, len)` with the name in base64. */
  function RecordText(x: Entry, e: Engine): string {
    "<" + e.encode(x.path) + ":" + Decimal(x.offset) + ":" + Decimal(x.length) + ">"
  }

  function RecordsText(xs: seq<Entry>, e: Engine): string
    decreases |xs|
  {
    if xs == [] then [] else RecordText(xs[0], e) + RecordsText(xs[1..], e)
  }

  /** The whole archive when every source reads. */
  function Archive(version: string, sources: seq<Source>, e: Engine): string {
    Banner(version) + RecordsText(Entries(sources, e), e) + "&" + Concat(Contents(sources, e))
  }

  /** The first source whose bytes are not UTF-8, if any. */
  function Unreadable(sources: seq<Source>): Option<Utf8>
    decreases |sources|
  {
    if sources == [] then None
    else if !Readable(sources[0]) then Some(sources[0].path)
    else Unreadable(sources[1..])
  }

  /** No source is reported exactly when every source reads; one that is
      reported does not read, and every source before it does. */
  lemma {:induction false} UnreadableFirst(sources: seq<Source>)
    ensures Unreadable(sources).None? <==> forall i :: 0 <= i < |sources| ==> Readable(sources[i])
    ensures Unreadable(sources).Some? ==>
              exists i :: 0 <= i < |sources| && !Readable(sources[i]) && Unreadable(sources) == Some(sources[i].path)
                          && forall j :: 0 <= j < i ==> Readable(sources[j])
    decreases |sources|
  {
    if sources != [] && Readable(sources[0]) {
      UnreadableFirst(sources[1..]);
      assert forall i :: 1 <= i < |sources| ==> sources[i] == sources[1..][i - 1];
      if Unreadable(sources).Some? {
        var k :| 0 <= k < |sources[1..]| && !Readable(sources[1..][k]) && Unreadable(sources[1..]) == Some(sources[1..][k].path)
                 && forall j :: 0 <= j < k ==> Readable(sources[1..][j]);
        assert !Readable(sources[k + 1]) && Unreadable(sources) == Some(sources[k + 1].path);
        assert forall j :: 0 <= j < k + 1 ==> Readable(sources[j]);
      }
    } else if sources != [] {
      assert !Readable(sources[0]);
    }
  }

  /** The outcome of `compile` and what the binary file then holds. */
  datatype Written = Written(result: Result<(), CompilerError>, file: string)

  /** `compile`: the banner is written before the sources are read, so a
      source that does not read leaves the banner alone in the file. */
  function CompileSpec(version: string, sources: seq<Source>, e: Engine): Written {
    match Unreadable(sources)
    case Some(path) => Written(Err(FailedToReadSource(path)), Banner(version))
    case None => Written(Ok(()), Archive(version, sources, e))
  }

  // ---------------------------------------------------------------------
  // Arithmetic of the running index

  lemma ModAddMultiple(x: nat, k: nat)
    ensures (x + k * U32_LIMIT) % U32_LIMIT == x % U32_LIMIT
  {
    var q, r := x / U32_LIMIT, x % U32_LIMIT;
    assert x + k * U32_LIMIT == (q + k) * U32_LIMIT + r;
  }

  /** Adding truncated lengths and truncating the sum is truncating the sum
      of the lengths. */
  lemma AsU32Add(a: nat, b: nat)
    ensures AsU32(AsU32(a) + b) == AsU32(a + b)
  {
    var q := a / U32_LIMIT;
    assert a + b == (AsU32(a) + b) + q * U32_LIMIT;
    ModAddMultiple(AsU32(a) + b, q);
  }

  // ---------------------------------------------------------------------
  // The compiler

  /** `write_bin`: appends content to the file and adds its length to the
      index (`+= len as u32`, wrapping), so an index that counts the file's
      length modulo 2^32 still does. */
  method WriteBin(file: string, index: u32, content: string) returns (file': string, index': u32)
    ensures file' == file + content
    ensures index' == AsU32(index + |content|)
    ensures index == AsU32(|file|) ==> index' == AsU32(|file'|)
  {
    AsU32Add(index, |content|);
    AsU32Add(|content|, index);
    index' := AsU32(index + AsU32(|content|));
    file' := file + content;
    if index == AsU32(|file|) {
      AsU32Add(|file|, |content|);
    }
  }

  lemma ConcatSnoc(cs: seq<string>, c: string)
    ensures Concat(cs + [c]) == Concat(cs) + c
  {
    assert (cs + [c])[..|cs|] == cs;
  }

  lemma {:induction false} RecordsTextSnoc(xs: seq<Entry>, x: Entry, e: Engine)
    ensures RecordsText(xs + [x], e) == RecordsText(xs, e) + RecordText(x, e)
    decreases |xs|
  {
    if xs == [] {
      assert RecordsText([x], e) == RecordText(x, e) + RecordsText([], e);
    } else {
      assert (xs + [x])[1..] == xs[1..] + [x];
      RecordsTextSnoc(xs[1..], x, e);
    }
  }

  /** The loop of `compile` over the sources: each is read and encoded, and
      its record gets the running offset `sources_index`, which grows by
      the content's length (`as u32`, wrapping). The first source that does
      not read ends the loop. */
  method ReadSources(sources: seq<Source>, e: Engine) returns (failed: Option<Utf8>, contents: seq<string>, entries: seq<Entry>)
    ensures failed == Unreadable(sources)
    ensures failed.None? ==> contents == Contents(sources, e) && entries == Entries(sources, e)
  {
    ghost var cs := Contents(sources, e);
    contents, entries := [], [];
    var sourcesIndex: u32 := 0;
    for i := 0 to |sources|
      invariant Unreadable(sources) == Unreadable(sources[i..])
      invariant contents == cs[..i]
      invariant entries == Entries(sources, e)[..i]
      invariant sourcesIndex == AsU32(|Concat(contents)|)
    {
      assert sources[i..][1..] == sources[i + 1..];
      if !Readable(sources[i]) {
        return Some(sources[i].path), contents, entries;
      }
      var content := e.encode(sources[i].data);
      ReadSourcesStep(sources, e, i, contents, entries, sourcesIndex);
      entries := entries + [Entry(sources[i].path, sourcesIndex, AsU32(|content|))];
      sourcesIndex := AsU32(sourcesIndex + AsU32(|content|));
      contents := contents + [content];
    }
    assert sources[|sources|..] == [];
    assert contents == cs && entries == Entries(sources, e);
    failed := None;
  }

  /** One turn of the loop over the sources keeps its invariant. */
  lemma ReadSourcesStep(sources: seq<Source>, e: Engine, i: nat, contents: seq<string>, entries: seq<Entry>, sourcesIndex: u32)
    requires i < |sources|
    requires contents == Contents(sources, e)[..i] && entries == Entries(sources, e)[..i]
    requires sourcesIndex == AsU32(|Concat(contents)|)
    ensures var content := e.encode(sources[i].data);
            contents + [content] == Contents(sources, e)[..i + 1]
            && entries + [Entry(sources[i].path, sourcesIndex, AsU32(|content|))] == Entries(sources, e)[..i + 1]
            && AsU32(sourcesIndex + AsU32(|content|)) == AsU32(|Concat(contents + [content])|)
  {
    ContentsStep(Contents(sources, e), i);
    EntriesStep(sources, e, i);
    IndexStep(contents, e.encode(sources[i].data));
  }

  /** A prefix of the contents grows by the next content. */
  lemma ContentsStep(cs: seq<string>, i: nat)
    requires i < |cs|
    ensures cs[..i] + [cs[i]] == cs[..i + 1]
  {
  }

  /** A prefix of the records grows by the record of the next source. */
  lemma EntriesStep(sources: seq<Source>, e: Engine, i: nat)
    requires i < |sources|
    ensures var cs := Contents(sources, e);
            Entries(sources, e)[..i] + [Entry(sources[i].path, AsU32(|Concat(cs[..i])|), AsU32(|e.encode(sources[i].data)|))]
            == Entries(sources, e)[..i + 1]
  {
    var es := Entries(sources, e);
    assert es[..i + 1] == es[..i] + [es[i]];
  }

  /** The running offset follows the length of the contents written so far. */
  lemma IndexStep(contents: seq<string>, content: string)
    ensures AsU32(AsU32(|Concat(contents)|) + AsU32(|content|)) == AsU32(|Concat(contents + [content])|)
  {
    ConcatSnoc(contents, content);
    AsU32Add(|Concat(contents)|, AsU32(|content|));
    AsU32Add(|content|, |Concat(contents)|);
  }

  /** The loop of `compile` that writes one record per entry. */
  method WriteRecords(file: string, index: u32, entries: seq<Entry>, e: Engine) returns (file': string, index': u32)
    ensures file' == file + RecordsText(entries, e)
    ensures index == AsU32(|file|) ==> index' == AsU32(|file'|)
  {
    file', index' := file, index;
    for i := 0 to |entries|
      invariant file' == file + RecordsText(entries[..i], e)
      invariant index == AsU32(|file|) ==> index' == AsU32(|file'|)
    {
      RecordsStep(file, entries, i, e);
      file', index' := WriteBin(file', index', RecordText(entries[i], e));
    }
    assert entries[..|entries|] == entries;
  }

  /** The records written so far grow by the next record. */
  lemma RecordsStep(file: string, entries: seq<Entry>, i: nat, e: Engine)
    requires i < |entries|
    ensures file + RecordsText(entries[..i], e) + RecordText(entries[i], e) == file + RecordsText(entries[..i + 1], e)
  {
    RecordsTextSnoc(entries[..i], entries[i], e);
    assert entries[..i + 1] == entries[..i] + [entries[i]];
  }

  /** The loop of `compile` that writes the contents. */
  method WriteContents(file: string, index: u32, contents: seq<string>) returns (file': string, index': u32)
    ensures file' == file + Concat(contents)
    ensures index == AsU32(|file|) ==> index' == AsU32(|file'|)
  {
    file', index' := file, index;
    for i := 0 to |contents|
      invariant file' == file + Concat(contents[..i])
      invariant index == AsU32(|file|) ==> index' == AsU32(|file'|)
    {
      ConcatSnoc(contents[..i], contents[i]);
      assert contents[..i + 1] == contents[..i] + [contents[i]];
      file', index' := WriteBin(file', index', contents[i]);
    }
    assert contents[..|contents|] == contents;
  }

  /** `compile`, from the banner on: the banner, then the sources are read,
      then the records, the '&' and the contents are written. The index
      counts the characters written, modulo 2^32. */
  method Compile(version: string, sources: seq<Source>, e: Engine) returns (r: Result<(), CompilerError>, file: string)
    ensures Written(r, file) == CompileSpec(version, sources, e)
  {
    file := [];
    var index: u32 := 0;
    file, index := WriteBin(file, index, TextLoader.MAGIC_TEXT);
    file, index := WriteBin(file, index, version);
    file, index := WriteBin(file, index, TextLoader.LINK_TEXT);
    assert file == Banner(version);
    var failed, contents, entries := ReadSources(sources, e);
    if failed.Some? {
      return Err(FailedToReadSource(failed.value)), file;
    }
    file, index := WriteRecords(file, index, entries, e);
    file, index := WriteBin(file, index, "&");
    file, index := WriteContents(file, index, contents);
    assert index == AsU32(|file|);
    r := Ok(());
  }

  // ---------------------------------------------------------------------
  // Properties of the layout

  /** Without wrap-around the records pack the contents tightly: the first
      starts at 0, each next one where the previous ends, each as long as
      its own content. */
  lemma TightPacking(sources: seq<Source>, e: Engine)
    requires |Concat(Contents(sources, e))| < U32_LIMIT
    ensures var es := Entries(sources, e);
            (|es| > 0 ==> es[0].offset == 0)
            && (forall i :: 0 <= i < |es| ==> es[i].length == |e.encode(sources[i].data)|)
            && (forall i :: 0 <= i < |es| - 1 ==> es[i + 1].offset == es[i].offset + es[i].length)
  {
    var cs, es := Contents(sources, e), Entries(sources, e);
    forall i | 0 <= i < |es|
      ensures es[i].length == |e.encode(sources[i].data)|
    {
      ConcatStep(cs, i);
    }
    forall i | 0 <= i < |es| - 1
      ensures es[i + 1].offset == es[i].offset + es[i].length
    {
      ConcatStep(cs, i);
      ConcatStep(cs, i + 1);
    }
  }

  lemma ConcatStep(cs: seq<string>, i: nat)
    requires i < |cs|
    ensures |Concat(cs[..i + 1])| == |Concat(cs[..i])| + |cs[i]| <= |Concat(cs)|
  {
    assert cs[..i + 1] == cs[..i] + [cs[i]];
    ConcatSnoc(cs[..i], cs[i]);
    ConcatPrefix(cs, i + 1);
  }

  /** The contents of the first k sources are the start of all the
      contents. */
  lemma {:induction false} ConcatPrefix(cs: seq<string>, k: nat)
    requires k <= |cs|
    ensures |Concat(cs[..k])| <= |Concat(cs)| && Concat(cs)[..|Concat(cs[..k])|] == Concat(cs[..k])
    decreases |cs|
  {
    if k < |cs| {
      var front := cs[..|cs| - 1];
      assert front[..k] == cs[..k];
      ConcatPrefix(front, k);
      assert Concat(cs) == Concat(front) + cs[|cs| - 1];
    } else {
      assert cs[..k] == cs;
    }
  }
}
