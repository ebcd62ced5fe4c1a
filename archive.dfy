/** What the text compiler and the text loader promise each other: the
    archive `compile` writes is one `load` accepts, with an index that maps
    every source path to its record, and `read` then gives back each
    source's text. Also the version mismatch between the two: the loader as
    written reads five characters of version whatever the version is. */
module TextArchive {
  import opened Wrappers
  import opened Bytes
  import opened Text
  import opened Base64
  import opened TextLoader
  import opened TextCompiler

  /** No two sources share a path. */
  predicate DistinctPaths(xs: seq<Entry>) {
    forall i, j :: 0 <= i < j < |xs| ==> xs[i].path != xs[j].path
  }

  /** The index after the records xs are inserted one after another. */
  function Insert(files: Index, xs: seq<Entry>): Index
    decreases |xs|
  {
    if xs == [] then files else Insert(files[xs[0].path := (xs[0].offset, xs[0].length)], xs[1..])
  }

  /** With distinct paths every record's path maps to its own offset and
      length, and nothing but the old names and the paths is a key. */
  lemma {:induction false} InsertLookup(files: Index, xs: seq<Entry>)
    requires DistinctPaths(xs)
    ensures forall i :: 0 <= i < |xs| ==> xs[i].path in Insert(files, xs) && Insert(files, xs)[xs[i].path] == (xs[i].offset, xs[i].length)
    ensures forall k :: k in Insert(files, xs) ==> k in files || exists i :: 0 <= i < |xs| && xs[i].path == k
    decreases |xs|
  {
    if xs != [] {
      var x := xs[0];
      var next := files[x.path := (x.offset, x.length)];
      assert DistinctPaths(xs[1..]) by {
        forall i, j | 0 <= i < j < |xs[1..]| ensures xs[1..][i].path != xs[1..][j].path {
          assert xs[1..][i] == xs[i + 1] && xs[1..][j] == xs[j + 1];
        }
      }
      InsertLookup(next, xs[1..]);
      InsertKeepsKey(next, xs[1..], x.path);
      forall i | 1 <= i < |xs|
        ensures xs[i].path in Insert(files, xs) && Insert(files, xs)[xs[i].path] == (xs[i].offset, xs[i].length)
      {
        assert xs[i] == xs[1..][i - 1];
      }
      forall k | k in Insert(files, xs)
        ensures k in files || exists i :: 0 <= i < |xs| && xs[i].path == k
      {
        if k !in files && k != x.path {
          var i :| 0 <= i < |xs[1..]| && xs[1..][i].path == k;
          assert xs[i + 1].path == k;
        }
      }
    }
  }

  /** A key none of the records uses keeps its entry. */
  lemma {:induction false} InsertKeepsKey(files: Index, xs: seq<Entry>, k: Utf8)
    requires k in files && forall i :: 0 <= i < |xs| ==> xs[i].path != k
    ensures k in Insert(files, xs) && Insert(files, xs)[k] == files[k]
    decreases |xs|
  {
    if xs != [] {
      InsertKeepsKey(files[xs[0].path := (xs[0].offset, xs[0].length)], xs[1..], k);
    }
  }

  // ---------------------------------------------------------------------
  // Records the compiler writes, read back

  lemma DigitsNoDelimiters(d: string)
    requires AllDigits(d)
    ensures '<' !in d && '>' !in d && ':' !in d && '&' !in d
  {
    forall i | 0 <= i < |d| ensures d[i] != '<' && d[i] != '>' && d[i] != ':' && d[i] != '&' {
      assert IsDigit(d[i]);
    }
  }

  /** A record's text between its '<' and its '>'. */
  function Inner(x: Entry, e: Engine): string {
    e.encode(x.path) + ":" + Decimal(x.offset) + ":" + Decimal(x.length)
  }

  lemma InnerShape(x: Entry, e: Engine)
    requires Sound(e)
    ensures RecordText(x, e) == ['<'] + Inner(x, e) + ['>']
    ensures Inner(x, e)[0] != '<' && Inner(x, e)[|Inner(x, e)| - 1] != '>'
    ensures '&' !in Inner(x, e) && '>' !in Inner(x, e)
  {
    var name, d1, d2 := e.encode(x.path), Decimal(x.offset), Decimal(x.length);
    var inner := Inner(x, e);
    assert IsBase64Text(name);
    NoDelimiters(name);
    DigitsNoDelimiters(d1);
    DigitsNoDelimiters(d2);
    assert inner[0] != '<' by {
      if name != [] { assert inner[0] == name[0]; } else { assert inner[0] == ':'; }
    }
    assert inner[|inner| - 1] == d2[|d2| - 1];
    assert IsDigit(d2[|d2| - 1]);
  }

  /** The trims of `load` strip exactly the '<' and the '>'. */
  lemma RecordTextTrim(x: Entry, e: Engine)
    requires Sound(e)
    ensures TrimEnd(TrimStart(RecordText(x, e), '<'), '>') == Inner(x, e)
  {
    var inner := Inner(x, e);
    InnerShape(x, e);
    TrimStartOne('<', inner + ['>']);
    assert ['<'] + (inner + ['>']) == RecordText(x, e);
    TrimEndOne(inner, '>');
  }

  /** The three fields split apart. */
  lemma InnerSplit(x: Entry, e: Engine)
    requires Sound(e)
    ensures Split(Inner(x, e), ':') == [e.encode(x.path), Decimal(x.offset), Decimal(x.length)]
  {
    var name, d1, d2 := e.encode(x.path), Decimal(x.offset), Decimal(x.length);
    assert IsBase64Text(name);
    NoDelimiters(name);
    DigitsNoDelimiters(d1);
    DigitsNoDelimiters(d2);
    SplitAfterSep(name, ':', d1 + ":" + d2);
    SplitAfterSep(d1, ':', d2);
    SplitWithoutSep(d2, ':');
    assert Inner(x, e) == name + [':'] + (d1 + [':'] + d2);
  }

  /** A record's text holds no '&' and no '>' before its last character. */
  lemma RecordTextDelimiters(x: Entry, e: Engine)
    requires Sound(e)
    ensures var h := RecordText(x, e);
            '&' !in h && h[|h| - 1] == '>' && '>' !in h[..|h| - 1]
  {
    InnerShape(x, e);
    var h := RecordText(x, e);
    assert h[..|h| - 1] == ['<'] + Inner(x, e);
  }

  /** Each record `compile` writes is one `load` accepts: the path is added
      with the record's offset and length, unless it is already in the
      index, which is the duplicate error. */
  lemma RecordTextParses(files: Index, x: Entry, e: Engine)
    requires Sound(e)
    ensures Record(files, RecordText(x, e), e) ==
              if x.path in files then Err(SyntaxError("Duplicate source file found"))
              else Ok(files[x.path := (x.offset, x.length)])
  {
    RecordTextTrim(x, e);
    InnerSplit(x, e);
    assert e.decode(e.encode(x.path)) == Some(x.path);
    ParseDecimal(x.offset, U32_LIMIT);
    ParseDecimal(x.length, U32_LIMIT);
  }

  /** `read_until('>')` takes exactly one record. */
  lemma RecordTextUntil(x: Entry, e: Engine, rest: string)
    requires Sound(e)
    ensures var h := RecordText(x, e);
            UntilLen(h + rest, '>') == |h| && (h + rest)[..|h|] == h && (h + rest)[|h|..] == rest
  {
    RecordTextDelimiters(x, e);
    var h := RecordText(x, e);
    UntilLenSkip(h[..|h| - 1], [h[|h| - 1]] + rest, '>');
    assert h + rest == h[..|h| - 1] + ([h[|h| - 1]] + rest);
  }

  /** The record loop over the records `compile` writes inserts them all
      and stops at the '&', whatever follows it. */
  lemma {:induction false} LoadRecords(files: Index, xs: seq<Entry>, tail: string, e: Engine)
    requires Sound(e) && DistinctPaths(xs)
    requires forall i :: 0 <= i < |xs| ==> xs[i].path !in files
    ensures RecordLoop(files, RecordsText(xs, e) + "&" + tail, e) == Outcome(Ok(()), Insert(files, xs))
    decreases |xs|
  {
    if xs == [] {
      assert RecordsText(xs, e) + "&" + tail == "&" + tail;
    } else {
      var x, more := xs[0], xs[1..];
      var h, rest := RecordText(x, e), RecordsText(more, e) + "&" + tail;
      assert RecordsText(xs, e) + "&" + tail == h + rest;
      RecordTextUntil(x, e, rest);
      RecordTextParses(files, x, e);
      assert (h + rest)[0] == '<';
      var next := files[x.path := (x.offset, x.length)];
      forall i | 0 <= i < |more| ensures more[i].path !in next {
        assert more[i] == xs[i + 1];
      }
      assert DistinctPaths(more) by {
        forall i, j | 0 <= i < j < |more| ensures more[i].path != more[j].path {
          assert more[i] == xs[i + 1] && more[j] == xs[j + 1];
        }
      }
      LoadRecords(next, more, tail, e);
    }
  }

  lemma {:induction false} RecordsTextNoTerminator(xs: seq<Entry>, e: Engine)
    requires Sound(e)
    ensures '&' !in RecordsText(xs, e)
    decreases |xs|
  {
    if xs != [] {
      RecordTextDelimiters(xs[0], e);
      RecordsTextNoTerminator(xs[1..], e);
    }
  }

  // ---------------------------------------------------------------------
  // Compile, then load and read

  /** The path of record i is the path of source i. */
  lemma EntriesPaths(sources: seq<Source>, e: Engine)
    ensures forall i :: 0 <= i < |sources| ==> Entries(sources, e)[i].path == sources[i].path
  {
  }

  /** No two sources share a path. */
  predicate DistinctSources(sources: seq<Source>) {
    forall i, j :: 0 <= i < j < |sources| ==> sources[i].path != sources[j].path
  }

  lemma DistinctEntries(sources: seq<Source>, e: Engine)
    requires DistinctSources(sources)
    ensures DistinctPaths(Entries(sources, e))
  {
    EntriesPaths(sources, e);
  }

  /** The index `load` builds from a compiled archive. */
  function IndexOf(sources: seq<Source>, e: Engine): Index {
    Insert(map[], Entries(sources, e))
  }

  /** The text after the banner: the records, the '&' and the contents. */
  function Body(sources: seq<Source>, e: Engine): string {
    RecordsText(Entries(sources, e), e) + "&" + Concat(Contents(sources, e))
  }

  /** What `load` does with a compiled archive: the banner passes and the
      record loop runs over the rest. */
  lemma LoadArchive(files: Index, binary: string, version: string, sources: seq<Source>, e: Engine)
    ensures LoadSpec(files, binary, Some(Archive(version, sources, e)), e, version) == RecordLoop(files, Body(sources, e), e)
  {
    var banner := MAGIC_TEXT + version + LINK_TEXT;
    assert Archive(version, sources, e) == banner + Body(sources, e);
    LoadSkipsBanner(files, binary, Archive(version, sources, e), e, version);
  }

  /** Compiling succeeds, and writes the archive, exactly when every source
      reads. */
  lemma CompileWrites(version: string, sources: seq<Source>, e: Engine)
    ensures CompileSpec(version, sources, e).result.Ok? <==> forall i :: 0 <= i < |sources| ==> Readable(sources[i])
    ensures CompileSpec(version, sources, e).result.Ok? ==> CompileSpec(version, sources, e).file == Archive(version, sources, e)
  {
    UnreadableFirst(sources);
  }

  /** Compile, then load into an empty index: the load succeeds and the
      index maps each source path, and nothing else, to its record's
      offset and length. */
  lemma CompileThenLoad(binary: string, version: string, sources: seq<Source>, e: Engine)
    requires Sound(e) && DistinctSources(sources)
    requires CompileSpec(version, sources, e).result.Ok?
    ensures var out := LoadSpec(map[], binary, Some(CompileSpec(version, sources, e).file), e, version);
            out == Outcome(Ok(()), IndexOf(sources, e))
            && (forall i :: 0 <= i < |sources| ==>
                  sources[i].path in out.files
                  && out.files[sources[i].path] == (Entries(sources, e)[i].offset, Entries(sources, e)[i].length))
            && (forall k :: k in out.files ==> exists i :: 0 <= i < |sources| && sources[i].path == k)
  {
    CompiledLoads(binary, version, sources, e);
    IndexOfContents(sources, e);
  }

  /** Loading a compiled archive into an empty index yields `IndexOf`. */
  lemma CompiledLoads(binary: string, version: string, sources: seq<Source>, e: Engine)
    requires Sound(e) && DistinctSources(sources)
    requires CompileSpec(version, sources, e).result.Ok?
    ensures LoadSpec(map[], binary, Some(CompileSpec(version, sources, e).file), e, version) == Outcome(Ok(()), IndexOf(sources, e))
  {
    CompileWrites(version, sources, e);
    LoadArchive(map[], binary, version, sources, e);
    DistinctEntries(sources, e);
    LoadRecords(map[], Entries(sources, e), Concat(Contents(sources, e)), e);
  }

  /** `IndexOf` maps each source path, and nothing else, to its record. */
  lemma IndexOfContents(sources: seq<Source>, e: Engine)
    requires DistinctSources(sources)
    ensures var index := IndexOf(sources, e);
            (forall i :: 0 <= i < |sources| ==>
               sources[i].path in index
               && index[sources[i].path] == (Entries(sources, e)[i].offset, Entries(sources, e)[i].length))
            && (forall k :: k in index ==> exists i :: 0 <= i < |sources| && sources[i].path == k)
  {
    DistinctEntries(sources, e);
    InsertLookup(map[], Entries(sources, e));
    EntriesPaths(sources, e);
  }

  /** The contents of source i sit at its offset and length in the text after
      the '&'. */
  lemma ConcatSlice(cs: seq<string>, i: nat)
    requires i < |cs|
    ensures var start := |Concat(cs[..i])|;
            start + |cs[i]| <= |Concat(cs)| && Concat(cs)[start..start + |cs[i]|] == cs[i]
  {
    ConcatPrefix(cs, i + 1);
    ConcatSnoc(cs[..i], cs[i]);
    assert cs[..i + 1] == cs[..i] + [cs[i]];
    var whole, upto := Concat(cs), Concat(cs[..i + 1]);
    assert whole[|Concat(cs[..i])|..|upto|] == upto[|Concat(cs[..i])|..];
  }

  /** With no '&' in the version, the first '&' of the archive is the
      terminator, so `read` finds the contents right after it. */
  lemma ArchivePayload(version: string, sources: seq<Source>, e: Engine)
    requires Sound(e) && '&' !in version
    ensures var s := Archive(version, sources, e);
            '&' in s && s[UntilLen(s, '&')..] == Concat(Contents(sources, e))
  {
    var records := RecordsText(Entries(sources, e), e);
    RecordsTextNoTerminator(Entries(sources, e), e);
    assert '&' !in MAGIC_TEXT + version + LINK_TEXT + records;
    FirstTerminator(MAGIC_TEXT + version + LINK_TEXT + records, Concat(Contents(sources, e)));
  }

  /** The first '&' after text without one. */
  lemma FirstTerminator(front: string, tail: string)
    requires '&' !in front
    ensures var s := front + "&" + tail;
            '&' in s && s[UntilLen(s, '&')..] == tail
  {
    var s := front + "&" + tail;
    assert s == front + ("&" + tail);
    UntilLenSkip(front, "&" + tail, '&');
    assert s[|front|] == '&';
  }

  /** Without wrap-around, record i holds where source i's content starts
      after the '&', and how long it is. */
  lemma EntryPlacesContent(sources: seq<Source>, e: Engine, i: nat)
    requires |Concat(Contents(sources, e))| < U32_LIMIT && i < |sources|
    ensures var x, payload := Entries(sources, e)[i], Concat(Contents(sources, e));
            x.offset as nat + x.length as nat <= |payload|
            && payload[x.offset..x.offset as nat + x.length as nat] == e.encode(sources[i].data)
  {
    var cs := Contents(sources, e);
    ConcatSlice(cs, i);
    assert Entries(sources, e)[i].offset == |Concat(cs[..i])| && Entries(sources, e)[i].length == |cs[i]|;
  }

  /** Compile, load, then read any source: `read` gives back that source's
      text, provided the version holds no '&' (the first '&' must be the
      terminator) and the contents fit the u32 offsets. */
  lemma CompileThenRead(binary: string, version: string, sources: seq<Source>, e: Engine, i: nat)
    requires Sound(e) && DistinctSources(sources)
    requires CompileSpec(version, sources, e).result.Ok?
    requires '&' !in version && |Concat(Contents(sources, e))| < U32_LIMIT
    requires i < |sources|
    ensures ReadEntry(IndexOf(sources, e), binary, Some(CompileSpec(version, sources, e).file), e, sources[i].path)
              == Ok(sources[i].data)
  {
    var x := Entries(sources, e)[i];
    CompiledSource(version, sources, e, i);
    IndexOfLookup(sources, e, i);
    ArchivePayload(version, sources, e);
    EntryPlacesContent(sources, e, i);
    assert e.decode(e.encode(sources[i].data)) == Some(sources[i].data);
    ReadFound(IndexOf(sources, e), binary, Archive(version, sources, e), e, sources[i].path,
              Concat(Contents(sources, e)), e.encode(sources[i].data), sources[i].data);
  }

  /** A compile that succeeds read every source and wrote the archive. */
  lemma CompiledSource(version: string, sources: seq<Source>, e: Engine, i: nat)
    requires CompileSpec(version, sources, e).result.Ok? && i < |sources|
    ensures Readable(sources[i]) && CompileSpec(version, sources, e).file == Archive(version, sources, e)
  {
    CompileWrites(version, sources, e);
  }

  /** Source i's path maps to record i. */
  lemma IndexOfLookup(sources: seq<Source>, e: Engine, i: nat)
    requires DistinctSources(sources) && i < |sources|
    ensures var x := Entries(sources, e)[i];
            sources[i].path in IndexOf(sources, e) && IndexOf(sources, e)[sources[i].path] == (x.offset, x.length)
  {
    DistinctEntries(sources, e);
    InsertLookup(map[], Entries(sources, e));
    EntriesPaths(sources, e);
  }

  /** `read` of an indexed name whose stored text is found after the '&'
      and decodes to UTF-8 gives the decoded bytes. */
  lemma ReadFound(files: Index, binary: string, s: string, e: Engine, name: Utf8, payload: string, text: string, data: Utf8)
    requires '&' in s && s[UntilLen(s, '&')..] == payload
    requires name in files && files[name].0 as nat + files[name].1 as nat <= |payload|
    requires payload[files[name].0..files[name].0 as nat + files[name].1 as nat] == text
    requires e.decode(text) == Some(data)
    ensures ReadEntry(files, binary, Some(s), e, name) == Ok(data)
  {
  }

  // ---------------------------------------------------------------------
  // Loading twice

  /** A record whose path is already in the index stops the loop with the
      duplicate error and leaves the index as it was. */
  lemma DuplicateRecordStops(files: Index, x: Entry, rest: string, e: Engine)
    requires Sound(e) && x.path in files
    ensures RecordLoop(files, RecordText(x, e) + rest, e) == Outcome(Err(SyntaxError("Duplicate source file found")), files)
  {
    RecordTextUntil(x, e, rest);
    RecordTextParses(files, x, e);
    assert (RecordText(x, e) + rest)[0] == '<';
  }

  /** Loading the same archive twice reports the first source as a
      duplicate: `load` does not clear the index. */
  lemma LoadTwiceRejects(binary: string, version: string, sources: seq<Source>, e: Engine)
    requires Sound(e) && DistinctSources(sources)
    requires CompileSpec(version, sources, e).result.Ok? && |sources| > 0
    ensures LoadSpec(IndexOf(sources, e), binary, Some(CompileSpec(version, sources, e).file), e, version)
              == Outcome(Err(SyntaxError("Duplicate source file found")), IndexOf(sources, e))
  {
    var xs := Entries(sources, e);
    var files := IndexOf(sources, e);
    CompiledSource(version, sources, e, 0);
    LoadArchive(files, binary, version, sources, e);
    IndexOfLookup(sources, e, 0);
    assert xs[0].path == sources[0].path;
    var first, others, contents := RecordText(xs[0], e), RecordsText(xs[1..], e), Concat(Contents(sources, e));
    assert RecordsText(xs, e) == first + others;
    Regroup(first, others, contents);
    DuplicateRecordStops(files, xs[0], others + "&" + contents, e);
  }

  lemma Regroup(first: string, others: string, contents: string)
    ensures first + others + "&" + contents == first + (others + "&" + contents)
  {
  }

  // ---------------------------------------------------------------------
  // The version width

  /** As written, `load` rejects every archive `compile` writes unless the
      version is exactly five characters long. */
  lemma AsWrittenRejectsOtherVersions(files: Index, binary: string, version: string, sources: seq<Source>, e: Engine)
    requires |version| != 5
    ensures var out := LoadAsWritten(files, binary, Some(Archive(version, sources, e)), e, version);
            out.result.Err? && out.result.error.SyntaxError? && out.files == files
  {
    var s := Archive(version, sources, e);
    assert s == MAGIC_TEXT + version + LINK_TEXT + Body(sources, e);
    var afterMagic := s[|MAGIC_TEXT|..];
    assert |afterMagic| >= |version| + |LINK_TEXT|;
    assert |afterMagic[..Min(5, |afterMagic|)]| == 5;
  }

  /** The smallest case: version "0.10.0" with no sources. The loader reads
      "0.10." and reports the version as unsupported. */
  lemma AsWrittenExample(binary: string, e: Engine)
    ensures LoadAsWritten(map[], binary, Some(Archive("0.10.0", [], e)), e, "0.10.0")
              == Outcome(Err(SyntaxError("Unsupported version: 0.10., expected: 0.10.0")), map[])
  {
    var s := Archive("0.10.0", [], e);
    assert Entries([], e) == [] && Contents([], e) == [];
    assert s == MAGIC_TEXT + "0.10.0" + LINK_TEXT + "&";
    var afterMagic := s[|MAGIC_TEXT|..];
    assert afterMagic == "0.10.0" + LINK_TEXT + "&";
    assert afterMagic[..5] == "0.10.";
    assert IsPrefix(MAGIC_TEXT, s);
    assert Min(5, |afterMagic|) == 5;
    assert "Unsupported version: " + "0.10." + ", expected: " + "0.10.0" == "Unsupported version: 0.10., expected: 0.10.0";
  }

  /** For a five-character version the loader as written and the corrected
      one agree. */
  lemma AsWrittenAgreesOnFiveCharacters(files: Index, binary: string, archive: Option<string>, e: Engine, version: string)
    requires |version| == 5
    ensures LoadAsWritten(files, binary, archive, e, version) == LoadSpec(files, binary, archive, e, version)
  {
  }
}
