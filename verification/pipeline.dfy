/**
 * The batch pipeline of the theme converter: which archive entries are
 * text, how one text is converted (the Chinese converter, then the term
 * dictionary), and the loop that walks the archive entries, fills the
 * conversion statistics and builds the list of output entries.
 */
module Pipeline {
  import opened Wrappers
  import opened JsString
  import opened Dictionary

  // ---------------------------------------------------------------------
  // shouldConvertFile
  // ---------------------------------------------------------------------

  /** The extensions of the files that are converted; every other file is copied as bytes. */
  const TextExtensions: seq<string> :=
    [".php", ".html", ".htm", ".css", ".js", ".txt", ".md", ".json", ".xml", ".po", ".pot"]

  /** `name.substring(name.lastIndexOf('.'))`: the part from the last '.' on, or the whole name when it has none. */
  function Extension(name: string): string {
    Substring(name, LastIndexOf(name, '.'))
  }

  /**
   * The extension is a suffix of the name; it starts at a '.' and holds no
   * other one when the name has a '.', and is the whole name otherwise.
   */
  lemma ExtensionShape(name: string)
    ensures var ext := Extension(name);
      && |ext| <= |name| && ext == name[|name| - |ext|..]
      && ('.' in name ==> ext != [] && ext[0] == '.' && '.' !in ext[1..])
      && ('.' !in name ==> ext == name)
  {
    var i := LastIndexOf(name, '.');
    LastIndexOfIsLast(name, '.');
    if i < 0 {
      assert '.' !in name by {
        forall j | 0 <= j < |name| ensures name[j] != '.' { }
      }
    } else {
      assert name[i..][1..] == name[i + 1..];
    }
  }

  /** `shouldConvertFile`: the lower-cased extension is one of the listed ones. */
  predicate ShouldConvertFile(name: string) {
    Includes(TextExtensions, ToLowerAscii(Extension(name)))
  }

  /** `name` ends with `ext`, letters compared without regard to case. */
  ghost predicate HasSuffixIgnoringCase(name: string, ext: string) {
    |ext| <= |name| && ToLowerAscii(name[|name| - |ext|..]) == ext
  }

  /** Every listed extension is a '.' followed by at least one character that is not a '.'. */
  lemma ExtensionsAreDotted()
    ensures forall e :: e in TextExtensions ==> |e| >= 2 && e[0] == '.' && '.' !in e[1..]
  {
  }

  lemma LowerDot(c: char)
    ensures LowerChar(c) == '.' <==> c == '.'
  {
  }

  /**
   * A file is converted exactly when its name ends with one of the listed
   * extensions, compared without regard to case.
   */
  lemma ShouldConvertIffSuffix(name: string)
    ensures ShouldConvertFile(name) <==> exists e :: e in TextExtensions && HasSuffixIgnoringCase(name, e)
  {
    var x := Extension(name);
    ExtensionShape(name);
    IncludesIsMembership(TextExtensions, ToLowerAscii(x));
    if ShouldConvertFile(name) {
      assert HasSuffixIgnoringCase(name, ToLowerAscii(x));
    }
    if e :| e in TextExtensions && HasSuffixIgnoringCase(name, e) {
      ExtensionsAreDotted();
      var p := |name| - |e|;
      var lowered := ToLowerAscii(name[p..]);
      ToLowerAsciiPointwise(name[p..]);
      assert name[p] == '.' by {
        assert lowered[0] == LowerChar(name[p]);
        LowerDot(name[p]);
      }
      forall j | p < j < |name| ensures name[j] != '.' {
        assert lowered[j - p] == LowerChar(name[j]);
        assert e[j - p] in e[1..];
        LowerDot(name[j]);
      }
      var i := LastIndexOf(name, '.');
      LastIndexOfIsLast(name, '.');
      assert i == p;
      assert x == name[p..];
    }
  }

  /** A name without a '.' is never converted, even when it is spelled like an extension ("php"). */
  lemma NoDotIsNotConverted(name: string)
    requires '.' !in name
    ensures !ShouldConvertFile(name)
  {
    ExtensionShape(name);
    IncludesIsMembership(TextExtensions, ToLowerAscii(name));
    if ToLowerAscii(name) in TextExtensions {
      ExtensionsAreDotted();
      ToLowerAsciiPointwise(name);
      LowerDot(name[0]);
    }
  }

  /** The extension of a name whose last '.' is at `p`. */
  lemma ExtensionAt(name: string, p: nat)
    requires p < |name| && name[p] == '.' && '.' !in name[p + 1..]
    ensures Extension(name) == name[p..]
  {
    LastIndexOfIsLast(name, '.');
  }

  /** A name is converted exactly when its lower-cased extension is listed. */
  lemma ShouldConvertByExtension(name: string, ext: string, lowered: string)
    requires Extension(name) == ext
    requires |lowered| == |ext| && forall i :: 0 <= i < |ext| ==> LowerChar(ext[i]) == lowered[i]
    ensures ShouldConvertFile(name) <==> lowered in TextExtensions
  {
    ToLowerAsciiPointwise(ext);
    assert ToLowerAscii(ext) == lowered;
    IncludesIsMembership(TextExtensions, lowered);
  }

  /** "style.css" is converted. */
  lemma StylesheetIsConverted()
    ensures ShouldConvertFile("style.css")
  {
    ExtensionAt("style.css", 5);
    ShouldConvertByExtension("style.css", ".css", ".css");
  }

  /** "INDEX.PHP" is converted: the extension is compared in lower case. */
  lemma UpperCaseExtensionIsConverted()
    ensures ShouldConvertFile("INDEX.PHP")
  {
    ExtensionAt("INDEX.PHP", 5);
    ShouldConvertByExtension("INDEX.PHP", ".PHP", ".php");
  }

  /** "logo.png" is copied as bytes. */
  lemma ImageIsCopied()
    ensures !ShouldConvertFile("logo.png")
  {
    ExtensionAt("logo.png", 4);
    ShouldConvertByExtension("logo.png", ".png", ".png");
  }

  /** "noext" is copied as bytes. */
  lemma NameWithoutDotIsCopied()
    ensures !ShouldConvertFile("noext")
  {
    NoDotIsNotConverted("noext");
  }

  // ---------------------------------------------------------------------
  // convertContent
  // ---------------------------------------------------------------------

  /** What a call into the Chinese converter gives: the converted text, or the message of what it threw. */
  datatype Attempt = Ok(text: string) | Threw(message: string)

  /** The converter stage: the converter's answer, or the text itself when no converter is loaded. */
  function Staged(content: string, converter: Option<string -> Attempt>): (a: Attempt)
    ensures converter.None? ==> a == Ok(content)
  {
    match converter
    case None => Ok(content)
    case Some(f) => f(content)
  }

  /** Whether converting `content` reaches the dictionary with a non-empty text (and so reads its key order). */
  predicate UsesDictionary(content: string, converter: Option<string -> Attempt>) {
    content != [] && Staged(content, converter).Ok? && Staged(content, converter).text != []
  }

  /**
   * The value of `convertContent(content)` when the dictionary holds
   * `terms` and applies them in `order`: an empty text is returned as it
   * is; a converter that throws gives back the original text; otherwise the
   * converter's output goes through the dictionary.
   */
  function ConvertedContent(content: string, converter: Option<string -> Attempt>,
                            order: seq<string>, terms: map<string, string>): (r: string)
    ensures content == [] ==> r == content
    ensures Staged(content, converter).Threw? ==> r == content
    ensures content != [] && Staged(content, converter) == Ok([]) ==> r == []
  {
    if content == [] then content
    else
      match Staged(content, converter)
      case Threw(_) => content
      case Ok(t) => if t == [] then t else ApplyTerms(t, order, terms)
  }

  /** The result is the original text or the full two-stage conversion; a partial conversion is never kept. */
  lemma ConvertedIsOriginalOrComplete(content: string, converter: Option<string -> Attempt>,
                                      order: seq<string>, terms: map<string, string>)
    ensures var r := ConvertedContent(content, converter, order, terms);
      r == content
      || (Staged(content, converter).Ok? && r == ApplyTerms(Staged(content, converter).text, order, terms))
  {
    var r := ConvertedContent(content, converter, order, terms);
    if content != [] && Staged(content, converter).Ok? && Staged(content, converter).text == [] {
      ApplyTermsEmptyText(order, terms);
    }
  }

  /** With no converter loaded only the dictionary is applied; with an empty dictionary as well, nothing changes. */
  lemma NoConverterAppliesOnlyDictionary(content: string, order: seq<string>, terms: map<string, string>)
    ensures ConvertedContent(content, None, order, terms) == ApplyTerms(content, order, terms)
    ensures terms == map[] ==> ConvertedContent(content, None, order, terms) == content
  {
    if content == [] {
      ApplyTermsEmptyText(order, terms);
    }
    ApplyTermsEmptyDictionary(content, order);
  }

  /** A conversion that does not reach the dictionary does not depend on its key order. */
  lemma OrderIrrelevantWithoutDictionary(content: string, converter: Option<string -> Attempt>,
                                         o1: seq<string>, o2: seq<string>, terms: map<string, string>)
    requires !UsesDictionary(content, converter)
    ensures ConvertedContent(content, converter, o1, terms) == ConvertedContent(content, converter, o2, terms)
  {
  }

  /** The key order a dictionary object uses: its cache, or none when nothing is cached. */
  function CacheOrder(cache: Option<seq<string>>): seq<string> {
    if cache.Some? then cache.value else []
  }

  /**
   * `convertContent`: the converter and then the dictionary object's own
   * conversion, which may fill the dictionary's key-order cache.
   */
  method ConvertContent(content: string, converter: Option<string -> Attempt>, dict: TermDictionary)
    returns (r: string)
    requires dict.Valid()
    modifies dict`sortedCache
    ensures dict.Valid()
    ensures r == ConvertedContent(content, converter, CacheOrder(dict.sortedCache), dict.entries)
    ensures old(dict.sortedCache).Some? ==> dict.sortedCache == old(dict.sortedCache)
    ensures UsesDictionary(content, converter) ==> dict.sortedCache.Some?
    ensures !UsesDictionary(content, converter) ==> dict.sortedCache == old(dict.sortedCache)
    ensures old(dict.CacheFresh()) ==> dict.CacheFresh()
  {
    if content == [] {
      return content;
    }
    var staged := content;
    if converter.Some? {
      var answer := converter.value(content);
      match answer
      case Threw(_) =>
        return content;
      case Ok(t) =>
        staged := t;
    }
    r := dict.ConvertWithDictionary(staged);
  }

  // ---------------------------------------------------------------------
  // Archive entries and the statistics of a run
  // ---------------------------------------------------------------------

  newtype byte = x: int | 0 <= x < 256

  /** The outcome of one read of an entry's data: the data, or the message of the failure. */
  datatype ReadResult<T> = Read(value: T) | ReadFailed(message: string)

  /**
   * One archive member: whether it is a directory, its uncompressed size
   * (0 when unknown), and what reading it as text and as bytes gives.
   */
  datatype ZipFile = ZipFile(isDir: bool, size: nat, asText: ReadResult<string>, asBytes: ReadResult<seq<byte>>)

  /** A name listed by the archive and the member stored under it, if any. */
  datatype ZipEntry = ZipEntry(name: string, file: Option<ZipFile>)

  datatype Content = Folder | Bytes(data: seq<byte>) | Text(text: string)

  /** An entry added to the output archive. */
  datatype OutEntry = OutEntry(name: string, content: Content)

  /** One `{filename, error}` record. */
  datatype FileError = FileError(filename: string, error: string)

  /** The counters and error list of a run together with the output entries built so far. */
  datatype Tally = Tally(processed: nat, converted: nat, totalSize: nat, convertedSize: nat,
                         errors: seq<FileError>, output: seq<OutEntry>)

  /** The converter, the dictionary's terms and the key order the dictionary applies them in. */
  datatype Conversion = Conversion(converter: Option<string -> Attempt>, order: seq<string>, terms: map<string, string>)

  /**
   * One turn of the entry loop: a listed name with no member is skipped;
   * otherwise the entry counts as processed; a directory becomes a folder;
   * a file adds its size, and is then copied as bytes, or converted as
   * text (counted as converted when the text changed), falling back to its
   * bytes with one error record when it cannot be read as text. A read of
   * bytes that fails records its message and adds no output.
   */
  function Step(t: Tally, e: ZipEntry, c: Conversion): Tally {
    match e.file
    case None => t
    case Some(f) =>
      if f.isDir then t.(processed := t.processed + 1, output := t.output + [OutEntry(e.name, Folder)])
      else HandleFile(Counted(t, f), e.name, f, c)
  }

  /** The tally once a file has been counted: one more processed entry and its size. */
  function Counted(t: Tally, f: ZipFile): Tally {
    t.(processed := t.processed + 1, totalSize := t.totalSize + f.size)
  }

  /** A file, once counted: copied as bytes, or converted as text. */
  function HandleFile(t: Tally, name: string, f: ZipFile, c: Conversion): Tally {
    if ShouldConvertFile(name) then HandleText(t, name, f, c) else CopyBytes(t, name, f.asBytes)
  }

  /** A copy of the bytes under the same name, or the read's error message recorded. */
  function CopyBytes(t: Tally, name: string, bytes: ReadResult<seq<byte>>): Tally {
    match bytes
    case Read(b) => t.(output := t.output + [OutEntry(name, Bytes(b))])
    case ReadFailed(m) => t.(errors := t.errors + [FileError(name, m)])
  }

  /** The converted text under the same name, or the fallback to the bytes with the text read's error recorded. */
  function HandleText(t: Tally, name: string, f: ZipFile, c: Conversion): Tally {
    match f.asText
    case Read(s) =>
      var r := ConvertedContent(s, c.converter, c.order, c.terms);
      var t := if r != s then t.(converted := t.converted + 1, convertedSize := t.convertedSize + f.size) else t;
      t.(output := t.output + [OutEntry(name, Text(r))])
    case ReadFailed(m) =>
      match f.asBytes
      case Read(b) => t.(output := t.output + [OutEntry(name, Bytes(b))], errors := t.errors + [FileError(name, m)])
      case ReadFailed(m') => t.(errors := t.errors + [FileError(name, m')])
  }

  /** The tally after the loop has handled `es`, one after the other, starting from `t0`. */
  function RunFrom(t0: Tally, es: seq<ZipEntry>, c: Conversion): Tally
    decreases |es|
  {
    if es == [] then t0 else Step(RunFrom(t0, es[..|es| - 1], c), es[|es| - 1], c)
  }

  /** Whether an entry's text goes through the dictionary during the loop. */
  predicate EntryUsesDictionary(e: ZipEntry, converter: Option<string -> Attempt>) {
    e.file.Some? && !e.file.value.isDir && FileUsesDictionary(e.name, e.file.value, converter)
  }

  /** Whether a file's text goes through the dictionary. */
  predicate FileUsesDictionary(name: string, f: ZipFile, converter: Option<string -> Attempt>) {
    ShouldConvertFile(name) && f.asText.Read? && UsesDictionary(f.asText.value, converter)
  }

  // ---------------------------------------------------------------------
  // What the loop promises, entry by entry and for a whole run
  // ---------------------------------------------------------------------

  /** A listed name without a member is skipped: nothing is counted, written or recorded. */
  lemma MissingEntrySkipped(t: Tally, e: ZipEntry, c: Conversion)
    requires e.file.None?
    ensures Step(t, e, c) == t
  {
  }

  /** A directory is counted as processed and becomes a folder of the same name; no size is counted. */
  lemma DirectoryBecomesFolder(t: Tally, e: ZipEntry, c: Conversion)
    requires e.file.Some? && e.file.value.isDir
    ensures Step(t, e, c) == t.(processed := t.processed + 1, output := t.output + [OutEntry(e.name, Folder)])
  {
  }

  /** A file is counted and then handled. */
  lemma FileStep(t: Tally, e: ZipEntry, c: Conversion)
    requires e.file.Some? && !e.file.value.isDir
    ensures Step(t, e, c) == HandleFile(Counted(t, e.file.value), e.name, e.file.value, c)
  {
  }

  /** A file that is not text is copied byte for byte under its own name, and nothing counts it as converted. */
  lemma BinaryCopiedVerbatim(t: Tally, e: ZipEntry, c: Conversion)
    requires e.file.Some? && !e.file.value.isDir && !ShouldConvertFile(e.name) && e.file.value.asBytes.Read?
    ensures var u := Counted(t, e.file.value);
      Step(t, e, c) == u.(output := t.output + [OutEntry(e.name, Bytes(e.file.value.asBytes.value))])
  {
  }

  /** A file that is not text and cannot be read adds no output and one error record with the read's message. */
  lemma UnreadableBinaryRecorded(t: Tally, e: ZipEntry, c: Conversion)
    requires e.file.Some? && !e.file.value.isDir && !ShouldConvertFile(e.name) && e.file.value.asBytes.ReadFailed?
    ensures var u := Counted(t, e.file.value);
      Step(t, e, c) == u.(errors := t.errors + [FileError(e.name, e.file.value.asBytes.message)])
  {
  }

  /**
   * A text file is written under its own name with its converted content;
   * the converted counters grow, by one file and by its size, exactly when
   * the content changed.
   */
  lemma TextWrittenConverted(t: Tally, e: ZipEntry, c: Conversion)
    requires e.file.Some? && !e.file.value.isDir && ShouldConvertFile(e.name) && e.file.value.asText.Read?
    ensures var s := e.file.value.asText.value;
      var r := ConvertedContent(s, c.converter, c.order, c.terms);
      var u := Counted(t, e.file.value);
      var t' := Step(t, e, c);
      && t'.processed == u.processed && t'.totalSize == u.totalSize
      && t'.output == t.output + [OutEntry(e.name, Text(r))]
      && t'.errors == t.errors
      && t'.converted == t.converted + (if r != s then 1 else 0)
      && t'.convertedSize == t.convertedSize + (if r != s then e.file.value.size else 0)
  {
  }

  /** A text file that cannot be read as text is copied as bytes, with exactly one error record naming it. */
  lemma UnreadableTextFallsBackToBytes(t: Tally, e: ZipEntry, c: Conversion)
    requires e.file.Some? && !e.file.value.isDir && ShouldConvertFile(e.name)
    requires e.file.value.asText.ReadFailed? && e.file.value.asBytes.Read?
    ensures var u := Counted(t, e.file.value);
      Step(t, e, c) == u.(output := t.output + [OutEntry(e.name, Bytes(e.file.value.asBytes.value))],
                          errors := t.errors + [FileError(e.name, e.file.value.asText.message)])
  {
  }

  /** A text file that can be read neither as text nor as bytes adds no output and one error record, with the second read's message. */
  lemma UnreadableTextAndBytesRecorded(t: Tally, e: ZipEntry, c: Conversion)
    requires e.file.Some? && !e.file.value.isDir && ShouldConvertFile(e.name)
    requires e.file.value.asText.ReadFailed? && e.file.value.asBytes.ReadFailed?
    ensures var u := Counted(t, e.file.value);
      Step(t, e, c) == u.(errors := t.errors + [FileError(e.name, e.file.value.asBytes.message)])
  {
  }

  /** The counters of a tally are ordered: converted files among processed ones, converted bytes among all bytes. */
  ghost predicate CountersOrdered(t: Tally) {
    t.converted <= t.processed && t.convertedSize <= t.totalSize
  }

  /** The number of listed names that have a member. */
  function CountPresent(es: seq<ZipEntry>): (n: nat)
    ensures n <= |es|
    decreases |es|
  {
    if es == [] then 0 else CountPresent(es[..|es| - 1]) + (if es[|es| - 1].file.Some? then 1 else 0)
  }

  /** The sizes of the members that are files, added up. */
  function FileSizes(es: seq<ZipEntry>): nat
    decreases |es|
  {
    if es == [] then 0
    else
      var e := es[|es| - 1];
      FileSizes(es[..|es| - 1]) + (if e.file.Some? && !e.file.value.isDir then e.file.value.size else 0)
  }

  /** One entry moves the counters by at most itself: one processed entry, and its size when it is a file. */
  lemma StepCounters(t: Tally, e: ZipEntry, c: Conversion)
    ensures var t' := Step(t, e, c);
      && t'.processed == t.processed + (if e.file.Some? then 1 else 0)
      && t'.totalSize == t.totalSize + (if e.file.Some? && !e.file.value.isDir then e.file.value.size else 0)
      && (CountersOrdered(t) ==> CountersOrdered(t'))
  {
    match e.file
    case None =>
    case Some(f) =>
      if !f.isDir {
        var u := t.(processed := t.processed + 1, totalSize := t.totalSize + f.size);
        if ShouldConvertFile(e.name) {
          HandleTextCounters(u, e.name, f, c);
        }
      }
  }

  lemma HandleTextCounters(t: Tally, name: string, f: ZipFile, c: Conversion)
    ensures var t' := HandleText(t, name, f, c);
      && t'.processed == t.processed && t'.totalSize == t.totalSize
      && t'.converted <= t.converted + 1 && t'.convertedSize <= t.convertedSize + f.size
  {
  }

  /**
   * Over a whole run, `processedFiles` counts exactly the entries that have
   * a member (directories included), `totalSize` adds up exactly the file
   * sizes, and the counters stay ordered.
   */
  lemma {:induction false} RunCounters(t0: Tally, es: seq<ZipEntry>, c: Conversion)
    requires CountersOrdered(t0)
    ensures var t := RunFrom(t0, es, c);
      && t.processed == t0.processed + CountPresent(es)
      && t.processed <= t0.processed + |es|
      && t.totalSize == t0.totalSize + FileSizes(es)
      && CountersOrdered(t)
    decreases |es|
  {
    if es != [] {
      var front := es[..|es| - 1];
      RunCounters(t0, front, c);
      StepCounters(RunFrom(t0, front, c), es[|es| - 1], c);
    }
  }

  /** The names of some entries, in order. */
  function OutNames(out: seq<OutEntry>): (names: seq<string>)
    ensures |names| == |out|
    ensures forall i :: 0 <= i < |out| ==> names[i] == out[i].name
    decreases |out|
  {
    if out == [] then [] else OutNames(out[..|out| - 1]) + [out[|out| - 1].name]
  }

  function ErrorNames(errors: seq<FileError>): (names: seq<string>)
    ensures |names| == |errors|
    ensures forall i :: 0 <= i < |errors| ==> names[i] == errors[i].filename
    decreases |errors|
  {
    if errors == [] then [] else ErrorNames(errors[..|errors| - 1]) + [errors[|errors| - 1].filename]
  }

  lemma OutNamesAppend(out: seq<OutEntry>, x: OutEntry)
    ensures OutNames(out + [x]) == OutNames(out) + [x.name]
  {
    assert (out + [x])[..|out|] == out;
  }

  lemma ErrorNamesAppend(errors: seq<FileError>, x: FileError)
    ensures ErrorNames(errors + [x]) == ErrorNames(errors) + [x.filename]
  {
    assert (errors + [x])[..|errors|] == errors;
  }

  /** Whether handling `e` adds an entry to the output archive. */
  predicate YieldsOutput(e: ZipEntry) {
    match e.file
    case None => false
    case Some(f) =>
      f.isDir || f.asBytes.Read? || (ShouldConvertFile(e.name) && f.asText.Read?)
  }

  /** Whether handling `e` records an error. */
  predicate RecordsError(e: ZipEntry) {
    match e.file
    case None => false
    case Some(f) =>
      !f.isDir && (if ShouldConvertFile(e.name) then f.asText.ReadFailed? else f.asBytes.ReadFailed?)
  }

  /** The names of the entries of `es` that yield output, in order. */
  function OutputNames(es: seq<ZipEntry>): (names: seq<string>)
    ensures |names| <= |es|
    decreases |es|
  {
    if es == [] then []
    else OutputNames(es[..|es| - 1]) + (if YieldsOutput(es[|es| - 1]) then [es[|es| - 1].name] else [])
  }

  /** The names of the entries of `es` that record an error, in order. */
  function FailedNames(es: seq<ZipEntry>): (names: seq<string>)
    ensures |names| <= |es|
    decreases |es|
  {
    if es == [] then []
    else FailedNames(es[..|es| - 1]) + (if RecordsError(es[|es| - 1]) then [es[|es| - 1].name] else [])
  }

  /** One entry adds at most one output entry and at most one error record, each under its own name. */
  lemma StepAppends(t: Tally, e: ZipEntry, c: Conversion)
    ensures var t' := Step(t, e, c);
      && (YieldsOutput(e) ==> |t'.output| == |t.output| + 1 && t'.output[..|t.output|] == t.output
                              && t'.output[|t.output|].name == e.name)
      && (!YieldsOutput(e) ==> t'.output == t.output)
      && (RecordsError(e) ==> |t'.errors| == |t.errors| + 1 && t'.errors[..|t.errors|] == t.errors
                              && t'.errors[|t.errors|].filename == e.name)
      && (!RecordsError(e) ==> t'.errors == t.errors)
  {
    match e.file
    case None =>
    case Some(f) =>
      if !f.isDir {
        var u := t.(processed := t.processed + 1, totalSize := t.totalSize + f.size);
        if ShouldConvertFile(e.name) {
          HandleTextAppends(u, e.name, f, c);
        } else {
          CopyBytesAppends(u, e.name, f.asBytes);
        }
      }
  }

  lemma CopyBytesAppends(t: Tally, name: string, bytes: ReadResult<seq<byte>>)
    ensures var t' := CopyBytes(t, name, bytes);
      && (bytes.Read? ==> t'.output == t.output + [OutEntry(name, Bytes(bytes.value))] && t'.errors == t.errors)
      && (bytes.ReadFailed? ==> t'.output == t.output && t'.errors == t.errors + [FileError(name, bytes.message)])
  {
  }

  lemma HandleTextAppends(t: Tally, name: string, f: ZipFile, c: Conversion)
    ensures var t' := HandleText(t, name, f, c);
      && (f.asText.Read? || f.asBytes.Read? ==>
            |t'.output| == |t.output| + 1 && t'.output[..|t.output|] == t.output && t'.output[|t.output|].name == name)
      && (f.asText.ReadFailed? && f.asBytes.ReadFailed? ==> t'.output == t.output)
      && (f.asText.ReadFailed? ==> |t'.errors| == |t.errors| + 1 && t'.errors[..|t.errors|] == t.errors
                                   && t'.errors[|t.errors|].filename == name)
      && (f.asText.Read? ==> t'.errors == t.errors)
  {
  }

  /** One entry adds its own name to the output names exactly when it yields output. */
  lemma StepOutNames(t: Tally, e: ZipEntry, c: Conversion)
    ensures OutNames(Step(t, e, c).output) == OutNames(t.output) + (if YieldsOutput(e) then [e.name] else [])
  {
    var out' := Step(t, e, c).output;
    StepAppends(t, e, c);
    if YieldsOutput(e) {
      assert out' == t.output + [out'[|t.output|]];
      OutNamesAppend(t.output, out'[|t.output|]);
    }
  }

  /** One entry adds its own name to the error names exactly when it records an error. */
  lemma StepErrorNames(t: Tally, e: ZipEntry, c: Conversion)
    ensures ErrorNames(Step(t, e, c).errors) == ErrorNames(t.errors) + (if RecordsError(e) then [e.name] else [])
  {
    var errors' := Step(t, e, c).errors;
    StepAppends(t, e, c);
    if RecordsError(e) {
      assert errors' == t.errors + [errors'[|t.errors|]];
      ErrorNamesAppend(t.errors, errors'[|t.errors|]);
    }
  }

  /**
   * Names are preserved and nothing is reordered: the output gains one
   * entry per entry that yields output, under its own name, in the order
   * of the archive.
   */
  lemma {:induction false} RunOutputNames(t0: Tally, es: seq<ZipEntry>, c: Conversion)
    ensures OutNames(RunFrom(t0, es, c).output) == OutNames(t0.output) + OutputNames(es)
    decreases |es|
  {
    if es != [] {
      var front := es[..|es| - 1];
      var e := es[|es| - 1];
      RunOutputNames(t0, front, c);
      StepOutNames(RunFrom(t0, front, c), e, c);
      var a, b, x := OutNames(t0.output), OutputNames(front), if YieldsOutput(e) then [e.name] else [];
      assert OutputNames(es) == b + x;
      assert (a + b) + x == a + (b + x);
    }
  }

  /** The error list gains one record per failing entry, naming it, in processing order. */
  lemma {:induction false} RunErrorNames(t0: Tally, es: seq<ZipEntry>, c: Conversion)
    ensures ErrorNames(RunFrom(t0, es, c).errors) == ErrorNames(t0.errors) + FailedNames(es)
    decreases |es|
  {
    if es != [] {
      var front := es[..|es| - 1];
      var e := es[|es| - 1];
      RunErrorNames(t0, front, c);
      StepErrorNames(RunFrom(t0, front, c), e, c);
      var a, b, x := ErrorNames(t0.errors), FailedNames(front), if RecordsError(e) then [e.name] else [];
      assert FailedNames(es) == b + x;
      assert (a + b) + x == a + (b + x);
    }
  }

  /** The folders of the given entries' names. */
  function Folders(es: seq<ZipEntry>): (out: seq<OutEntry>)
    ensures |out| == |es|
    ensures forall i :: 0 <= i < |es| ==> out[i] == OutEntry(es[i].name, Folder)
    decreases |es|
  {
    if es == [] then [] else Folders(es[..|es| - 1]) + [OutEntry(es[|es| - 1].name, Folder)]
  }

  /** An archive of directories only is copied as its folders, with every directory processed and nothing else counted. */
  lemma {:induction false} DirectoriesOnly(es: seq<ZipEntry>, c: Conversion)
    requires forall e :: e in es ==> e.file.Some? && e.file.value.isDir
    ensures RunFrom(Tally(0, 0, 0, 0, [], []), es, c) == Tally(|es|, 0, 0, 0, [], Folders(es))
    decreases |es|
  {
    if es != [] {
      var front := es[..|es| - 1];
      assert forall e :: e in front ==> e in es;
      DirectoriesOnly(front, c);
      assert es[|es| - 1] in es;
    }
  }

  /** Whether none of the entries sends its text through the dictionary. */
  predicate NoneUsesDictionary(es: seq<ZipEntry>, converter: Option<string -> Attempt>)
    decreases |es|
  {
    es == [] || (NoneUsesDictionary(es[..|es| - 1], converter) && !EntryUsesDictionary(es[|es| - 1], converter))
  }

  /** Entries that do not reach the dictionary give the same run whatever its key order. */
  lemma {:induction false} RunOrderIrrelevant(t0: Tally, es: seq<ZipEntry>, converter: Option<string -> Attempt>,
                                              o1: seq<string>, o2: seq<string>, terms: map<string, string>)
    requires NoneUsesDictionary(es, converter)
    ensures RunFrom(t0, es, Conversion(converter, o1, terms)) == RunFrom(t0, es, Conversion(converter, o2, terms))
    decreases |es|
  {
    if es != [] {
      var front := es[..|es| - 1];
      var e := es[|es| - 1];
      RunOrderIrrelevant(t0, front, converter, o1, o2, terms);
      if e.file.Some? && !e.file.value.isDir && ShouldConvertFile(e.name) && e.file.value.asText.Read? {
        OrderIrrelevantWithoutDictionary(e.file.value.asText.value, converter, o1, o2, terms);
      }
    }
  }

  // ---------------------------------------------------------------------
  // The error summary
  // ---------------------------------------------------------------------

  const MaxShownErrors: nat := 10

  /** What the results panel says about errors: how many, the ones listed, and how many are not listed. */
  datatype ErrorSummary = ErrorSummary(count: nat, shown: seq<FileError>, notShown: Option<nat>)

  /**
   * The error part of `displayConversionResults`: nothing without errors;
   * otherwise the first ten errors, and a note of how many more there are
   * when there are more than ten.
   */
  function SummarizeErrors(errors: seq<FileError>): (s: Option<ErrorSummary>)
    ensures s.None? <==> errors == []
    ensures s.Some? ==> s.value.count == |errors|
    ensures s.Some? ==> |s.value.shown| == (if |errors| < MaxShownErrors then |errors| else MaxShownErrors)
    ensures s.Some? ==> (s.value.notShown.Some? <==> |errors| > MaxShownErrors)
  {
    if errors == [] then None
    else
      var shown := if |errors| < MaxShownErrors then errors else errors[..MaxShownErrors];
      Some(ErrorSummary(|errors|, shown,
                        if |errors| > MaxShownErrors then Some(|errors| - MaxShownErrors) else None))
  }

  /** Every error is accounted for: the listed ones are the first ones, in order, and the rest are counted. */
  lemma SummaryAccountsForEveryError(errors: seq<FileError>)
    requires errors != []
    ensures var s := SummarizeErrors(errors).value;
      && s.shown + errors[|s.shown|..] == errors
      && |s.shown| + (if s.notShown.Some? then s.notShown.value else 0) == |errors|
  {
  }

  // ---------------------------------------------------------------------
  // The statistics object and processZipFiles
  // ---------------------------------------------------------------------

  /** `conversionStats` without its two timestamps. */
  class ConversionStats {
    var totalFiles: nat
    var processedFiles: nat
    var convertedFiles: nat
    var totalSize: nat
    var convertedSize: nat
    var errors: seq<FileError>

    /** The reset done when a conversion starts: every counter zero, no errors. */
    constructor ()
      ensures totalFiles == 0 && processedFiles == 0 && convertedFiles == 0
      ensures totalSize == 0 && convertedSize == 0 && errors == []
    {
      totalFiles, processedFiles, convertedFiles := 0, 0, 0;
      totalSize, convertedSize := 0, 0;
      errors := [];
    }

    /** The counters and errors, together with the given output entries. */
    function Tallied(output: seq<OutEntry>): (t: Tally)
      reads this
      ensures t.output == output && t.errors == errors
    {
      Tally(processedFiles, convertedFiles, totalSize, convertedSize, errors, output)
    }

    /** `convertedFiles <= processedFiles <= totalFiles` and `convertedSize <= totalSize`. */
    ghost predicate Ordered()
      reads this
    {
      convertedFiles <= processedFiles <= totalFiles && convertedSize <= totalSize
    }
  }

  /** Copies a file's bytes into the output, or records the failed read's message. */
  method CopyFileBytes(stats: ConversionStats, name: string, bytes: ReadResult<seq<byte>>, output: seq<OutEntry>)
    returns (output': seq<OutEntry>)
    modifies stats`errors
    ensures stats.Tallied(output') == CopyBytes(old(stats.Tallied(output)), name, bytes)
  {
    output' := output;
    match bytes {
      case Read(b) =>
        output' := output' + [OutEntry(name, Bytes(b))];
      case ReadFailed(m) =>
        stats.errors := stats.errors + [FileError(name, m)];
    }
  }

  /**
   * Converts a text file into the output, counting it as converted when
   * its text changed, or falls back to its bytes when it cannot be read as
   * text.
   */
  method ConvertTextFile(stats: ConversionStats, dict: TermDictionary, converter: Option<string -> Attempt>,
                         name: string, f: ZipFile, output: seq<OutEntry>) returns (output': seq<OutEntry>)
    requires dict.Valid()
    modifies stats`convertedFiles, stats`convertedSize, stats`errors, dict`sortedCache
    ensures dict.Valid()
    ensures stats.Tallied(output')
            == HandleText(old(stats.Tallied(output)), name, f, Conversion(converter, CacheOrder(dict.sortedCache), dict.entries))
    ensures old(dict.sortedCache).Some? ==> dict.sortedCache == old(dict.sortedCache)
    ensures f.asText.Read? && UsesDictionary(f.asText.value, converter) ==> dict.sortedCache.Some?
    ensures !(f.asText.Read? && UsesDictionary(f.asText.value, converter)) ==> dict.sortedCache == old(dict.sortedCache)
    ensures old(dict.CacheFresh()) ==> dict.CacheFresh()
  {
    match f.asText {
      case Read(s) =>
        var r := ConvertContent(s, converter, dict);
        if r != s {
          stats.convertedFiles := stats.convertedFiles + 1;
          stats.convertedSize := stats.convertedSize + f.size;
        }
        output' := output + [OutEntry(name, Text(r))];
      case ReadFailed(m) =>
        // The bytes are read first; the text read's error is recorded only once that read succeeded.
        output' := CopyFileBytes(stats, name, f.asBytes, output);
        if f.asBytes.Read? {
          stats.errors := stats.errors + [FileError(name, m)];
        }
    }
  }

  /** A file, once counted: converted as text when its extension says so, copied as bytes otherwise. */
  method ProcessFile(stats: ConversionStats, dict: TermDictionary, converter: Option<string -> Attempt>,
                     name: string, f: ZipFile, output: seq<OutEntry>) returns (output': seq<OutEntry>)
    requires dict.Valid()
    modifies stats`convertedFiles, stats`convertedSize, stats`errors, dict`sortedCache
    ensures dict.Valid()
    ensures stats.Tallied(output')
            == HandleFile(old(stats.Tallied(output)), name, f, Conversion(converter, CacheOrder(dict.sortedCache), dict.entries))
    ensures old(dict.sortedCache).Some? ==> dict.sortedCache == old(dict.sortedCache)
    ensures FileUsesDictionary(name, f, converter) ==> dict.sortedCache.Some?
    ensures !FileUsesDictionary(name, f, converter) ==> dict.sortedCache == old(dict.sortedCache)
    ensures old(dict.CacheFresh()) ==> dict.CacheFresh()
  {
    if ShouldConvertFile(name) {
      output' := ConvertTextFile(stats, dict, converter, name, f, output);
    } else {
      output' := CopyFileBytes(stats, name, f.asBytes, output);
    }
  }

  /**
   * The body of the entry loop: handles one entry, updating the statistics,
   * and returns the output entries with what it added.
   */
  method ProcessEntry(stats: ConversionStats, dict: TermDictionary, converter: Option<string -> Attempt>,
                      e: ZipEntry, output: seq<OutEntry>) returns (output': seq<OutEntry>)
    requires dict.Valid()
    modifies stats`processedFiles, stats`totalSize, stats`convertedFiles, stats`convertedSize, stats`errors
    modifies dict`sortedCache
    ensures dict.Valid()
    ensures stats.Tallied(output')
            == Step(old(stats.Tallied(output)), e, Conversion(converter, CacheOrder(dict.sortedCache), dict.entries))
    ensures old(dict.sortedCache).Some? ==> dict.sortedCache == old(dict.sortedCache)
    ensures EntryUsesDictionary(e, converter) ==> dict.sortedCache.Some?
    ensures !EntryUsesDictionary(e, converter) ==> dict.sortedCache == old(dict.sortedCache)
    ensures old(dict.CacheFresh()) ==> dict.CacheFresh()
  {
    ghost var t := stats.Tallied(output);
    output' := output;
    if e.file.None? {
      MissingEntrySkipped(t, e, Conversion(converter, CacheOrder(dict.sortedCache), dict.entries));
      return;
    }
    var f := e.file.value;
    stats.processedFiles := stats.processedFiles + 1;
    if f.isDir {
      output' := output' + [OutEntry(e.name, Folder)];
      DirectoryBecomesFolder(t, e, Conversion(converter, CacheOrder(dict.sortedCache), dict.entries));
      return;
    }
    stats.totalSize := stats.totalSize + f.size;
    ghost var u := stats.Tallied(output');
    output' := ProcessFile(stats, dict, converter, e.name, f, output');
    assert u == Counted(t, f);
    FileStep(t, e, Conversion(converter, CacheOrder(dict.sortedCache), dict.entries));
  }

  /** Why a run ends without an archive other than by cancellation. */
  datatype Failure = NoEntries | PackagingFailed

  /** How a run of `processZipFiles` ends. */
  datatype RunOutcome = Failed(reason: Failure) | Cancelled | Completed(archive: seq<OutEntry>, errorSummary: Option<ErrorSummary>)

  /**
   * Whether the cancel flag is set when it is checked the `j`-th time:
   * `cancelAt == Some(c)` means it was set before check `c`, and a set
   * flag stays set for the rest of the run.
   */
  predicate CancelSeen(cancelAt: Option<nat>, j: nat) {
    cancelAt.Some? && cancelAt.value <= j
  }

  /** How many entries the loop visits before it sees the flag, or all of them. */
  function Visited(n: nat, cancelAt: Option<nat>): (v: nat)
    ensures v <= n
    ensures forall j :: 0 <= j < v ==> !CancelSeen(cancelAt, j)
    ensures v < n ==> CancelSeen(cancelAt, v)
  {
    if cancelAt.Some? && cancelAt.value < n then cancelAt.value else n
  }

  /** One more entry handled: the run over the first `i + 1` entries is one step past the run over the first `i`. */
  lemma RunFromNext(t0: Tally, zip: seq<ZipEntry>, i: nat, c: Conversion)
    requires i < |zip|
    ensures RunFrom(t0, zip[..i + 1], c) == Step(RunFrom(t0, zip[..i], c), zip[i], c)
  {
    assert zip[..i + 1][..i] == zip[..i];
  }

  /**
   * The loop's tally stays the run over the visited entries when the key
   * order changes during the step: it can only change when the entries
   * before never reached the dictionary.
   */
  lemma RunAdvances(t0: Tally, zip: seq<ZipEntry>, i: nat, order: seq<string>, c: Conversion, before: Tally, after: Tally)
    requires i < |zip|
    requires before == RunFrom(t0, zip[..i], Conversion(c.converter, order, c.terms))
    requires after == Step(before, zip[i], c)
    requires order == c.order || NoneUsesDictionary(zip[..i], c.converter)
    ensures after == RunFrom(t0, zip[..i + 1], c)
  {
    if order != c.order {
      RunOrderIrrelevant(t0, zip[..i], c.converter, order, c.order, c.terms);
    }
    RunFromNext(t0, zip, i, c);
  }

  lemma NoneUsesNext(zip: seq<ZipEntry>, i: nat, converter: Option<string -> Attempt>)
    requires i < |zip|
    ensures NoneUsesDictionary(zip[..i + 1], converter)
            <==> NoneUsesDictionary(zip[..i], converter) && !EntryUsesDictionary(zip[i], converter)
  {
    assert zip[..i + 1][..i] == zip[..i];
  }

  /**
   * The entry loop of `processZipFiles`: the entries are handled in order
   * until the cancel flag is seen; the statistics end as the run over the
   * visited entries says, with the key order the dictionary has cached by
   * then.
   */
  method RunEntries(stats: ConversionStats, dict: TermDictionary, zip: seq<ZipEntry>,
                    converter: Option<string -> Attempt>, cancelAt: Option<nat>) returns (output: seq<OutEntry>)
    requires dict.Valid()
    modifies stats`processedFiles, stats`totalSize, stats`convertedFiles, stats`convertedSize, stats`errors
    modifies dict`sortedCache
    ensures dict.Valid()
    ensures stats.Tallied(output)
            == RunFrom(old(stats.Tallied([])), zip[..Visited(|zip|, cancelAt)],
                       Conversion(converter, CacheOrder(dict.sortedCache), dict.entries))
    ensures old(dict.sortedCache).Some? ==> dict.sortedCache == old(dict.sortedCache)
    ensures old(dict.CacheFresh()) ==> dict.CacheFresh()
  {
    ghost var t0 := stats.Tallied([]);
    output := [];
    var i := 0;
    while i < |zip|
      invariant 0 <= i <= Visited(|zip|, cancelAt)
      invariant dict.Valid()
      invariant old(dict.sortedCache).Some? ==> dict.sortedCache == old(dict.sortedCache)
      invariant old(dict.CacheFresh()) ==> dict.CacheFresh()
      invariant dict.sortedCache.None? ==> NoneUsesDictionary(zip[..i], converter)
      invariant stats.Tallied(output) == RunFrom(t0, zip[..i], Conversion(converter, CacheOrder(dict.sortedCache), dict.entries))
    {
      if CancelSeen(cancelAt, i) {
        break;
      }
      ghost var order := CacheOrder(dict.sortedCache);
      ghost var before := stats.Tallied(output);
      output := ProcessEntry(stats, dict, converter, zip[i], output);
      RunAdvances(t0, zip, i, order, Conversion(converter, CacheOrder(dict.sortedCache), dict.entries),
                  before, stats.Tallied(output));
      NoneUsesNext(zip, i, converter);
      i := i + 1;
    }
    assert i == Visited(|zip|, cancelAt);
  }

  /**
   * `processZipFiles`: an archive without entries fails before any entry
   * is touched; otherwise `totalFiles` becomes the number of entries and
   * the entries are handled in order until the cancel flag is seen. A run
   * that sees the flag, at an entry or after the last one, produces no
   * archive; otherwise the output entries are packaged, and the error
   * summary of the results panel is built.
   */
  method ProcessZipFiles(stats: ConversionStats, dict: TermDictionary, zip: seq<ZipEntry>,
                         converter: Option<string -> Attempt>, cancelAt: Option<nat>, packagingOk: bool)
    returns (outcome: RunOutcome)
    requires dict.Valid()
    modifies stats, dict`sortedCache
    ensures dict.Valid()
    ensures zip == [] ==> outcome == Failed(NoEntries)
    ensures zip == [] ==> stats.Tallied([]) == old(stats.Tallied([])) && stats.totalFiles == old(stats.totalFiles)
    ensures zip == [] ==> dict.sortedCache == old(dict.sortedCache)
    ensures zip != [] ==> stats.totalFiles == |zip|
    ensures zip != [] ==>
      var c := Conversion(converter, CacheOrder(dict.sortedCache), dict.entries);
      var t := RunFrom(old(stats.Tallied([])), zip[..Visited(|zip|, cancelAt)], c);
      && stats.Tallied(t.output) == t
      && (CancelSeen(cancelAt, |zip|) ==> outcome == Cancelled)
      && (!CancelSeen(cancelAt, |zip|) && !packagingOk ==> outcome == Failed(PackagingFailed))
      && (!CancelSeen(cancelAt, |zip|) && packagingOk ==> outcome == Completed(t.output, SummarizeErrors(stats.errors)))
    ensures old(stats.processedFiles == 0 && stats.convertedFiles == 0 && stats.totalSize == 0 && stats.convertedSize == 0)
            ==> stats.Ordered()
    ensures old(dict.sortedCache).Some? ==> dict.sortedCache == old(dict.sortedCache)
    ensures old(dict.CacheFresh()) ==> dict.CacheFresh()
  {
    if |zip| == 0 {
      return Failed(NoEntries);
    }
    stats.totalFiles := |zip|;
    ghost var t0 := stats.Tallied([]);
    var output := RunEntries(stats, dict, zip, converter, cancelAt);
    ghost var c := Conversion(converter, CacheOrder(dict.sortedCache), dict.entries);
    ghost var visited := zip[..Visited(|zip|, cancelAt)];
    if t0.processed == 0 && t0.converted == 0 && t0.totalSize == 0 && t0.convertedSize == 0 {
      RunCounters(t0, visited, c);
    }
    if CancelSeen(cancelAt, |zip|) {
      return Cancelled;
    }
    if !packagingOk {
      return Failed(PackagingFailed);
    }
    return Completed(output, SummarizeErrors(stats.errors));
  }
}
