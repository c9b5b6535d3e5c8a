/** The decision logic of the command-line application: which directory
    entries are ingested, how each document flows from its text to the
    upserts, the yes/no and quit tests of the prompts, and the query loop.
    Reading the directory, parsing a PDF, embedding, searching and
    generating an answer are collaborators passed in as functions. */
module App {
  import opened Wrappers
  import opened Sequences
  import opened JsString
  import opened Chunker
  import opened VectorDb

  // ---------------------------------------------------------------------
  // Which directory entries are PDF files

  /** The last position of `c` in `s`. */
  function LastIndexOf(s: string, c: char): (r: Option<nat>)
    ensures r.None? ==> c !in s
    ensures r.Some? ==> r.value < |s| && s[r.value] == c && c !in s[r.value + 1..]
  {
    if s == [] then None
    else if s[|s| - 1] == c then Some(|s| - 1)
    else
      var r := LastIndexOf(s[..|s| - 1], c);
      assert forall i :: 0 <= i < |s| - 1 ==> s[..|s| - 1][i] == s[i];
      r
  }

  /** `path.extname` of a directory entry: from its last '.' to the end,
      or empty when there is no '.' or the only one opens the name. */
  function ExtName(file: string): string
  {
    match LastIndexOf(file, '.')
    case None => ""
    case Some(k) => if k == 0 then "" else file[k..]
  }

  /** The extension is empty, or a proper suffix of the name that starts
      with its only '.'. */
  lemma ExtNameSuffix(file: string)
    ensures var r := ExtName(file);
      |r| == 0 || (0 < |file| - |r| && r == file[|file| - |r|..] && r[0] == '.' && '.' !in r[1..])
  {
    var k := LastIndexOf(file, '.');
    if k.Some? && k.value > 0 {
      assert file[k.value..][1..] == file[k.value + 1..];
    }
  }

  /** `path.extname(file).toLowerCase() === ".pdf"`. */
  predicate IsPdf(file: string)
  {
    ToLower(ExtName(file)) == ".pdf"
  }

  lemma {:induction false} LastIndexOfBefore(a: string, c: char, b: string)
    requires c !in b
    ensures LastIndexOf(a + [c] + b, c) == Some(|a|)
  {
    if b != [] {
      var s := a + [c] + b;
      assert s[..|s| - 1] == a + [c] + b[..|b| - 1];
      assert b[|b| - 1] in b;
      LastIndexOfBefore(a, c, b[..|b| - 1]);
    }
  }

  /** A PDF entry is a name of at least one character followed by ".pdf"
      in any mix of upper and lower case. */
  lemma IsPdfSuffix(file: string)
    ensures IsPdf(file) <==> |file| >= 5 && ToLower(file[|file| - 4..]) == ".pdf"
  {
    if |file| >= 5 && ToLower(file[|file| - 4..]) == ".pdf" {
      SuffixIsPdf(file);
    }
    if IsPdf(file) {
      PdfHasSuffix(file);
    }
  }

  lemma SuffixIsPdf(file: string)
    requires |file| >= 5 && ToLower(file[|file| - 4..]) == ".pdf"
    ensures IsPdf(file)
  {
    var n := |file|;
    var ext := file[n - 4..];
    assert LowerChar(ext[0]) == '.';
    forall i | 1 <= i < 4 ensures ext[i] != '.' {
      assert LowerChar(ext[i]) != '.';
    }
    assert file == file[..n - 4] + ['.'] + ext[1..];
    LastIndexOfBefore(file[..n - 4], '.', ext[1..]);
    assert ExtName(file) == ext;
  }

  lemma PdfHasSuffix(file: string)
    requires IsPdf(file)
    ensures |file| >= 5 && ToLower(file[|file| - 4..]) == ".pdf"
  {
    var k := LastIndexOf(file, '.');
    assert k.Some? && k.value > 0;
    var ext := file[k.value..];
    assert ExtName(file) == ext;
    assert |ext| == 4;
    assert k.value == |file| - 4;
  }

  /** `files.filter(...)`: the PDF entries, in directory order. */
  function FilterPdf(files: seq<string>): (r: seq<string>)
    ensures forall f :: f in r <==> f in files && IsPdf(f)
    ensures |r| <= |files|
  {
    if files == [] then []
    else
      var rest := FilterPdf(files[1..]);
      assert forall f :: f in files[1..] ==> f in files;
      assert files == [files[0]] + files[1..];
      if IsPdf(files[0]) then [files[0]] + rest else rest
  }

  /** A listing of PDF entries only is kept whole. */
  lemma {:induction false} FilterPdfKeepsAll(files: seq<string>)
    requires forall i :: 0 <= i < |files| ==> IsPdf(files[i])
    ensures FilterPdf(files) == files
  {
    if files != [] {
      assert IsPdf(files[0]);
      FilterPdfKeepsAll(files[1..]);
      assert files == [files[0]] + files[1..];
    }
  }

  lemma FilterPdfNone(files: seq<string>)
    requires forall f :: f in files ==> !IsPdf(f)
    ensures FilterPdf(files) == []
  {
  }

  /** Filtering commutes with concatenation: the relative order of the
      entries that are kept is the directory order. */
  lemma {:induction false} FilterPdfAppend(a: seq<string>, b: seq<string>)
    ensures FilterPdf(a + b) == FilterPdf(a) + FilterPdf(b)
  {
    if a == [] {
      assert a + b == b;
    } else {
      assert (a + b)[0] == a[0];
      assert (a + b)[1..] == a[1..] + b;
      FilterPdfAppend(a[1..], b);
    }
  }

  lemma {:induction false} FilterPdfNoDuplicates(files: seq<string>)
    requires NoDuplicates(files)
    ensures NoDuplicates(FilterPdf(files))
  {
    if files != [] {
      assert NoDuplicates(files[1..]) by {
        forall i, j | 0 <= i < j < |files[1..]| ensures files[1..][i] != files[1..][j] {
          assert files[1..][i] == files[i + 1] && files[1..][j] == files[j + 1];
        }
      }
      FilterPdfNoDuplicates(files[1..]);
      if IsPdf(files[0]) {
        assert files[0] !in files[1..] by {
          forall i | 0 <= i < |files[1..]| ensures files[1..][i] != files[0] {
            assert files[1..][i] == files[i + 1];
          }
        }
        NoDuplicatesAppend([files[0]], FilterPdf(files[1..]));
      }
    }
  }

  // ---------------------------------------------------------------------
  // Tagging a document's embeddings with its file name

  /** An element of what `embedTexts` returns: {embedding, chunk}. */
  datatype EmbeddingData = EmbeddingData(embedding: Vector, chunk: string)

  /** `embeddingsData.map((item) => ({...item, pdfFile}))`. */
  function TagWithFile(items: seq<EmbeddingData>, pdfFile: string): (r: seq<EmbeddingRecord>)
    ensures |r| == |items|
    ensures forall i :: 0 <= i < |items| ==>
              r[i].pdfFile == pdfFile &&
              r[i].embedding == items[i].embedding && r[i].chunk == items[i].chunk
  {
    seq(|items|, i requires 0 <= i < |items| =>
          EmbeddingRecord(items[i].embedding, items[i].chunk, pdfFile))
  }

  /** Drops the file name again. */
  function Untag(records: seq<EmbeddingRecord>): seq<EmbeddingData>
  {
    seq(|records|, i requires 0 <= i < |records| =>
          EmbeddingData(records[i].embedding, records[i].chunk))
  }

  /** Tagging adds the file name and changes nothing else. */
  lemma UntagTag(items: seq<EmbeddingData>, pdfFile: string)
    ensures Untag(TagWithFile(items, pdfFile)) == items
  {
  }

  // ---------------------------------------------------------------------
  // The yes/no and quit tests

  /** `word` is spelled with the letters a to z only. */
  predicate IsLowerWord(word: string)
  {
    forall i :: 0 <= i < |word| ==> 'a' <= word[i] <= 'z'
  }

  /** `s` spells `word`, each letter in either case. */
  predicate SpellsIgnoringCase(s: string, word: string)
  {
    |s| == |word| &&
    forall i :: 0 <= i < |s| ==> s[i] == word[i] || s[i] as int + 32 == word[i] as int
  }

  lemma LowerEqualsWord(s: string, word: string)
    requires IsLowerWord(word)
    ensures ToLower(s) == word <==> SpellsIgnoringCase(s, word)
  {
    if SpellsIgnoringCase(s, word) {
      forall i | 0 <= i < |s| ensures ToLower(s)[i] == word[i] {
        assert 'a' <= word[i] <= 'z';
      }
    }
  }

  /** The answer to a yes/no prompt, after `input.trim().toLowerCase()`,
      is "ja" or "j". */
  predicate IsConfirmation(input: string)
  {
    var answer := ToLower(Trim(input));
    answer == "ja" || answer == "j"
  }

  /** Yes means "ja" or "j" in any case, surrounded by any white space. */
  lemma ConfirmationSpelling(input: string)
    ensures IsConfirmation(input) <==>
              SpellsIgnoringCase(Trim(input), "ja") || SpellsIgnoringCase(Trim(input), "j")
  {
    LowerEqualsWord(Trim(input), "ja");
    LowerEqualsWord(Trim(input), "j");
  }

  lemma ConfirmationPadded(pre: string, word: string, post: string)
    requires AllWhiteSpace(pre) && AllWhiteSpace(post)
    requires SpellsIgnoringCase(word, "ja") || SpellsIgnoringCase(word, "j")
    ensures IsConfirmation(pre + word + post)
  {
    assert !IsWhiteSpace(word[0]) && !IsWhiteSpace(word[|word| - 1]);
    TrimPadded(pre, word, post);
    ConfirmationSpelling(pre + word + post);
  }

  /** An empty or blank answer means no. */
  lemma BlankIsNo(input: string)
    requires AllWhiteSpace(input)
    ensures !IsConfirmation(input)
  {
    var pre, post := TrimSplits(input);
  }

  /** The query loop ends on `query.toLowerCase()` being "quit" or "exit";
      the query is not trimmed. */
  predicate IsQuit(query: string)
  {
    ToLower(query) == "quit" || ToLower(query) == "exit"
  }

  /** Quit means "quit" or "exit" in any case, with nothing around it. */
  lemma QuitSpelling(query: string)
    ensures IsQuit(query) <==>
              SpellsIgnoringCase(query, "quit") || SpellsIgnoringCase(query, "exit")
  {
    LowerEqualsWord(query, "quit");
    LowerEqualsWord(query, "exit");
  }

  /** A quit command with white space around it is taken as a query. */
  lemma PaddedQuitIsQuery(pre: string, word: string, post: string)
    requires AllWhiteSpace(pre) && AllWhiteSpace(post) && pre + post != []
    requires SpellsIgnoringCase(word, "quit") || SpellsIgnoringCase(word, "exit")
    ensures !IsQuit(pre + word + post)
  {
    QuitSpelling(pre + word + post);
  }

  // ---------------------------------------------------------------------
  // init: what happens to the index before the query loop

  datatype Action = DeleteIndex | ExitProgram | DescribeStats | CreateIndex | ProcessPdfs

  /** The calls `init` makes, given the listed indexes and the answers to
      its two prompts (the first prompt appears only when the index exists,
      the second only when the index was not deleted). */
  function InitActions(indexes: seq<IndexDescription>, deleteAnswer: string,
                       processAnswer: string): (actions: seq<Action>)
    ensures var found := exists i :: 0 <= i < |indexes| && indexes[i].name == DB_INDEX;
      && (DeleteIndex in actions <==> found && IsConfirmation(deleteAnswer))
      && (DeleteIndex in actions ==> actions == [DeleteIndex, ExitProgram])
      && (CreateIndex in actions <==> !found)
      && (ProcessPdfs in actions <==> DeleteIndex !in actions && IsConfirmation(processAnswer))
      && (ExitProgram in actions <==> DeleteIndex in actions)
      && (DeleteIndex !in actions ==>
            |actions| > 0 && actions[0] == (if found then DescribeStats else CreateIndex) &&
            actions[1..] == (if ProcessPdfs in actions then [ProcessPdfs, DescribeStats] else []))
  {
    var found := CheckIndexExists(indexes).Some?;
    var setUp := if found then DescribeStats else CreateIndex;
    if found && IsConfirmation(deleteAnswer) then [DeleteIndex, ExitProgram]
    else if IsConfirmation(processAnswer) then [setUp, ProcessPdfs, DescribeStats]
    else [setUp]
  }

  // ---------------------------------------------------------------------
  // processPdf: the per-document loop

  type Extractor = string -> Result<string, Error>
  type Embedder = seq<string> -> Result<seq<EmbeddingData>, Error>

  /** How the loop over the PDF files ended: no PDF in the directory, every
      file handled, or an error caught by the one try/catch around it. */
  datatype Status = NoPdfFiles | Completed | Failed(error: Error)

  /** The files handed to the PDF parser, in order, the chunk lists handed
      to the embedder, in order, the upsert calls made, and how the run
      ended. */
  datatype IngestReport = IngestReport(parsed: seq<string>, embedded: seq<seq<string>>,
                                       calls: seq<UpsertCall>, status: Status)

  /** The upserts made for a document whose chunks were embedded as `data`. */
  function DocumentCalls(pdfFile: string, data: seq<EmbeddingData>): seq<UpsertCall>
  {
    StoreCalls(TagWithFile(data, pdfFile), NAMESPACE)
  }

  /** The chunk lists the loop body hands to `embedTexts` for one document:
      none when the parse throws or the text is empty, otherwise its chunks. */
  function DocumentEmbedded(pdfFile: string, extract: Extractor): seq<seq<string>>
  {
    match extract(pdfFile)
    case Failure(_) => []
    case Success(text) =>
      if |text| == 0 then [] else [Chunks(text, DEFAULT_CHUNK_SIZE, DEFAULT_OVERLAP_SIZE)]
  }

  /** The body of the loop for one document: extract its text, skip it when
      the text is empty, otherwise chunk, embed, tag and store. Either the
      upserts it makes or the error it throws. */
  function DocumentStep(pdfFile: string, extract: Extractor, embed: Embedder): Result<seq<UpsertCall>, Error>
  {
    match extract(pdfFile)
    case Failure(e) => Failure(e)
    case Success(text) =>
      if |text| == 0 then Success([])
      else
        match embed(Chunks(text, DEFAULT_CHUNK_SIZE, DEFAULT_OVERLAP_SIZE))
        case Failure(e) => Failure(e)
        case Success(data) => Success(DocumentCalls(pdfFile, data))
  }

  /** The loop over `pdfFiles`; the first error ends it. */
  function IngestDocuments(pdfFiles: seq<string>, extract: Extractor, embed: Embedder): (r: IngestReport)
    ensures r.status != NoPdfFiles
    decreases |pdfFiles|
  {
    if pdfFiles == [] then IngestReport([], [], [], Completed)
    else
      var f := pdfFiles[0];
      var sent := DocumentEmbedded(f, extract);
      match DocumentStep(f, extract, embed)
      case Failure(e) => IngestReport([f], sent, [], Failed(e))
      case Success(calls) =>
        var rest := IngestDocuments(pdfFiles[1..], extract, embed);
        IngestReport([f] + rest.parsed, sent + rest.embedded, calls + rest.calls, rest.status)
  }

  /** processPdf on a directory whose listing is `listing`. */
  function ProcessPdfRun(listing: Result<seq<string>, Error>, extract: Extractor, embed: Embedder): (r: IngestReport)
    ensures r.status == NoPdfFiles <==> listing.Success? && FilterPdf(listing.value) == []
    ensures r.status == NoPdfFiles ==> r.parsed == [] && r.embedded == [] && r.calls == []
  {
    match listing
    case Failure(e) => IngestReport([], [], [], Failed(e))
    case Success(files) =>
      var pdfFiles := FilterPdf(files);
      if pdfFiles == [] then IngestReport([], [], [], NoPdfFiles)
      else IngestDocuments(pdfFiles, extract, embed)
  }

  /** The report of the files before `parsed`, `embedded` and `calls` were
      handled, followed by the rest of the run. */
  function Prepend(parsed: seq<string>, embedded: seq<seq<string>>, calls: seq<UpsertCall>,
                   rest: IngestReport): IngestReport
  {
    IngestReport(parsed + rest.parsed, embedded + rest.embedded, calls + rest.calls, rest.status)
  }

  lemma PrependNothing(r: IngestReport)
    ensures Prepend([], [], [], r) == r
  {
    assert [] + r.parsed == r.parsed && [] + r.embedded == r.embedded && [] + r.calls == r.calls;
  }

  /** A turn of processPdf's loop whose document throws ends the run. */
  lemma IngestFails(pdfFiles: seq<string>, i: nat, parsed: seq<string>, embedded: seq<seq<string>>,
                    calls: seq<UpsertCall>, extract: Extractor, embed: Embedder, e: Error)
    requires i < |pdfFiles| && DocumentStep(pdfFiles[i], extract, embed) == Failure(e)
    ensures Prepend(parsed, embedded, calls, IngestDocuments(pdfFiles[i..], extract, embed))
            == IngestReport(parsed + [pdfFiles[i]], embedded + DocumentEmbedded(pdfFiles[i], extract),
                            calls, Failed(e))
  {
    assert pdfFiles[i..][0] == pdfFiles[i];
    assert calls + [] == calls;
  }

  /** A turn of processPdf's loop whose document succeeds moves the file and
      its upserts from the rest of the run to the part already done. */
  lemma IngestContinues(pdfFiles: seq<string>, i: nat, parsed: seq<string>, embedded: seq<seq<string>>,
                        calls: seq<UpsertCall>, extract: Extractor, embed: Embedder, added: seq<UpsertCall>)
    requires i < |pdfFiles| && DocumentStep(pdfFiles[i], extract, embed) == Success(added)
    ensures Prepend(parsed, embedded, calls, IngestDocuments(pdfFiles[i..], extract, embed))
            == Prepend(parsed + [pdfFiles[i]], embedded + DocumentEmbedded(pdfFiles[i], extract),
                       calls + added, IngestDocuments(pdfFiles[i + 1..], extract, embed))
  {
    assert pdfFiles[i..][0] == pdfFiles[i] && pdfFiles[i..][1..] == pdfFiles[i + 1..];
    var rest := IngestDocuments(pdfFiles[i + 1..], extract, embed);
    var sent := DocumentEmbedded(pdfFiles[i], extract);
    assert parsed + ([pdfFiles[i]] + rest.parsed) == parsed + [pdfFiles[i]] + rest.parsed;
    assert embedded + (sent + rest.embedded) == embedded + sent + rest.embedded;
    assert calls + (added + rest.calls) == calls + added + rest.calls;
  }

  /** processPdf: read the directory, keep the PDF entries, and stop early
      when there is none. */
  method ProcessPdf(index: VectorIndex, listing: Result<seq<string>, Error>,
                    extract: Extractor, embed: Embedder)
    returns (report: IngestReport)
    modifies index
    ensures report == ProcessPdfRun(listing, extract, embed)
    ensures index.upserts == old(index.upserts) + report.calls
  {
    if listing.Failure? {
      return IngestReport([], [], [], Failed(listing.error));
    }
    var pdfFiles := FilterPdf(listing.value);
    if |pdfFiles| == 0 {
      return IngestReport([], [], [], NoPdfFiles);
    }
    report := IngestFiles(index, pdfFiles, extract, embed);
  }

  /** The `for (const pdfFile of pdfFiles)` loop of processPdf. */
  method IngestFiles(index: VectorIndex, pdfFiles: seq<string>, extract: Extractor, embed: Embedder)
    returns (report: IngestReport)
    modifies index
    ensures report == IngestDocuments(pdfFiles, extract, embed)
    ensures index.upserts == old(index.upserts) + report.calls
  {
    var parsed: seq<string> := [];
    var embedded: seq<seq<string>> := [];
    var calls: seq<UpsertCall> := [];
    var i := 0;
    assert pdfFiles[i..] == pdfFiles;
    PrependNothing(IngestDocuments(pdfFiles, extract, embed));
    while i < |pdfFiles|
      invariant 0 <= i <= |pdfFiles|
      invariant index.upserts == old(index.upserts) + calls
      invariant IngestDocuments(pdfFiles, extract, embed)
                == Prepend(parsed, embedded, calls, IngestDocuments(pdfFiles[i..], extract, embed))
    {
      var pdfFile := pdfFiles[i];
      var added, sent := ProcessDocument(index, pdfFile, extract, embed);
      if added.Failure? {
        IngestFails(pdfFiles, i, parsed, embedded, calls, extract, embed, added.error);
        return IngestReport(parsed + [pdfFile], embedded + sent, calls, Failed(added.error));
      }
      IngestContinues(pdfFiles, i, parsed, embedded, calls, extract, embed, added.value);
      calls := calls + added.value;
      embedded := embedded + sent;
      parsed := parsed + [pdfFile];
      i := i + 1;
    }
    assert pdfFiles[i..] == [];
    assert calls + [] == calls && embedded + [] == embedded && parsed + [] == parsed;
    report := IngestReport(parsed, embedded, calls, Completed);
  }

  /** The body of processPdf's loop for one file. */
  method ProcessDocument(index: VectorIndex, pdfFile: string, extract: Extractor, embed: Embedder)
    returns (added: Result<seq<UpsertCall>, Error>, sent: seq<seq<string>>)
    modifies index
    ensures added == DocumentStep(pdfFile, extract, embed)
    ensures sent == DocumentEmbedded(pdfFile, extract)
    ensures index.upserts == old(index.upserts) + (if added.Success? then added.value else [])
  {
    var pdfTexts := extract(pdfFile);
    if pdfTexts.Failure? {
      return Failure(pdfTexts.error), [];
    }
    if |pdfTexts.value| == 0 {
      return Success([]), [];
    }
    var pdfChunks := ChunkTexts(pdfTexts.value);
    sent := [pdfChunks];
    var embeddingsData := embed(pdfChunks);
    if embeddingsData.Failure? {
      return Failure(embeddingsData.error), sent;
    }
    var embeddingsWithMetadata := TagWithFile(embeddingsData.value, pdfFile);
    StoreEmbeddings(index, embeddingsWithMetadata);
    added := Success(StoreCalls(embeddingsWithMetadata, NAMESPACE));
  }

  // ---------------------------------------------------------------------
  // What processPdf promises

  /** Without a PDF entry nothing is parsed, embedded or stored. */
  lemma NoPdfFilesNoWork(files: seq<string>, extract: Extractor, embed: Embedder)
    requires forall f :: f in files ==> !IsPdf(f)
    ensures ProcessPdfRun(Success(files), extract, embed) == IngestReport([], [], [], NoPdfFiles)
  {
    FilterPdfNone(files);
  }

  /** The embedder is called on the chunks of a parsed file exactly when
      its text is not empty: once for each such file, and for no other. */
  lemma {:induction false} IngestEmbedsChunks(pdfFiles: seq<string>, extract: Extractor, embed: Embedder)
    ensures var r := IngestDocuments(pdfFiles, extract, embed);
      |r.embedded| <= |r.parsed| &&
      (forall chunks :: chunks in r.embedded ==>
         exists f :: f in r.parsed && extract(f).Success? && |extract(f).value| > 0 &&
                     chunks == Chunks(extract(f).value, DEFAULT_CHUNK_SIZE, DEFAULT_OVERLAP_SIZE)) &&
      (forall f :: f in r.parsed && extract(f).Success? && |extract(f).value| > 0 ==>
         Chunks(extract(f).value, DEFAULT_CHUNK_SIZE, DEFAULT_OVERLAP_SIZE) in r.embedded)
  {
    if pdfFiles != [] {
      IngestEmbedsChunks(pdfFiles[1..], extract, embed);
    }
  }

  predicate DocumentFails(pdfFile: string, extract: Extractor, embed: Embedder)
  {
    DocumentStep(pdfFile, extract, embed).Failure?
  }

  /** The files are parsed one after another in directory order up to and
      including the first one whose handling throws; that error ends the
      whole batch. Without errors every file is parsed. */
  lemma {:induction false} IngestStopsAtFirstFailure(pdfFiles: seq<string>, extract: Extractor, embed: Embedder)
    ensures var r := IngestDocuments(pdfFiles, extract, embed);
      match FindIndex(pdfFiles, (f: string) => DocumentFails(f, extract, embed))
      case None => r.parsed == pdfFiles && r.status == Completed
      case Some(k) =>
        r.parsed == pdfFiles[..k + 1] &&
        r.status == Failed(DocumentStep(pdfFiles[k], extract, embed).error)
  {
    if pdfFiles != [] && !DocumentFails(pdfFiles[0], extract, embed) {
      IngestStopsAtFirstFailure(pdfFiles[1..], extract, embed);
      var fails := (f: string) => DocumentFails(f, extract, embed);
      match FindIndex(pdfFiles[1..], fails)
      case None =>
        assert pdfFiles == [pdfFiles[0]] + pdfFiles[1..];
      case Some(k) =>
        PrefixOfTail(pdfFiles, k + 2);
    }
  }

  lemma DocumentCallsTagged(pdfFile: string, data: seq<EmbeddingData>)
    ensures |DocumentCalls(pdfFile, data)| == |data|
    ensures forall c :: c in DocumentCalls(pdfFile, data) ==>
              c.namespace == NAMESPACE && |c.records| == 1 && c.records[0].metadata.pdfFile == pdfFile
  {
    StoreCallsDistinctIds(TagWithFile(data, pdfFile), NAMESPACE);
  }

  /** Every stored record goes to NAMESPACE, alone in its upsert call, and
      is tagged with a parsed file whose extracted text is not empty: a
      document with empty text is skipped. */
  lemma {:induction false} IngestStoresTaggedRecords(pdfFiles: seq<string>, extract: Extractor, embed: Embedder)
    ensures var r := IngestDocuments(pdfFiles, extract, embed);
      forall c :: c in r.calls ==>
        c.namespace == NAMESPACE && |c.records| == 1 &&
        c.records[0].metadata.pdfFile in r.parsed &&
        extract(c.records[0].metadata.pdfFile).Success? &&
        |extract(c.records[0].metadata.pdfFile).value| > 0
  {
    if pdfFiles != [] {
      var f := pdfFiles[0];
      IngestStoresTaggedRecords(pdfFiles[1..], extract, embed);
      match extract(f)
      case Failure(_) =>
      case Success(text) =>
        if |text| > 0 {
          match embed(Chunks(text, DEFAULT_CHUNK_SIZE, DEFAULT_OVERLAP_SIZE))
          case Failure(_) =>
          case Success(data) => DocumentCallsTagged(f, data);
        }
    }
  }

  /** The ids one document gets: chunk-0-f, chunk-1-f, ... */
  lemma DocumentIds(pdfFile: string, data: seq<EmbeddingData>)
    ensures var ids := CallIds(DocumentCalls(pdfFile, data));
      |ids| == |data| && NoDuplicates(ids) &&
      forall id :: id in ids ==> ParseRecordId(id).Some? && ParseRecordId(id).value.1 == pdfFile
  {
    var calls := DocumentCalls(pdfFile, data);
    DocumentCallsTagged(pdfFile, data);
    CallIdsOfSingles(calls);
    StoreCallsDistinctIds(TagWithFile(data, pdfFile), NAMESPACE);
    var ids := CallIds(calls);
    forall id | id in ids ensures ParseRecordId(id).Some? && ParseRecordId(id).value.1 == pdfFile {
      var i :| 0 <= i < |ids| && ids[i] == id;
      MakeRecordRoundTrip(i, TagWithFile(data, pdfFile)[i]);
    }
  }

  /** Entries of one directory have distinct names, so every record of a
      run gets an id of its own. */
  lemma {:induction false} IngestIdsDistinct(pdfFiles: seq<string>, extract: Extractor, embed: Embedder)
    requires NoDuplicates(pdfFiles)
    ensures var ids := CallIds(IngestDocuments(pdfFiles, extract, embed).calls);
      NoDuplicates(ids) &&
      forall id :: id in ids ==> ParseRecordId(id).Some? && ParseRecordId(id).value.1 in pdfFiles
  {
    if pdfFiles != [] {
      var f := pdfFiles[0];
      var tail := pdfFiles[1..];
      assert NoDuplicates(tail) by {
        forall i, j | 0 <= i < j < |tail| ensures tail[i] != tail[j] {
          assert tail[i] == pdfFiles[i + 1] && tail[j] == pdfFiles[j + 1];
        }
      }
      assert f !in tail by {
        forall i | 0 <= i < |tail| ensures tail[i] != f {
          assert tail[i] == pdfFiles[i + 1];
        }
      }
      IngestIdsDistinct(tail, extract, embed);
      var rest := IngestDocuments(tail, extract, embed);
      var restIds := CallIds(rest.calls);
      assert forall id :: id in restIds ==> ParseRecordId(id).value.1 in pdfFiles by {
        forall id | id in restIds ensures ParseRecordId(id).value.1 in pdfFiles {
          assert ParseRecordId(id).value.1 in tail;
        }
      }
      match DocumentStep(f, extract, embed)
      case Failure(_) =>
      case Success(c) =>
        CallIdsAppend(c, rest.calls);
        if c != [] {
          var text := extract(f).value;
          var data := embed(Chunks(text, DEFAULT_CHUNK_SIZE, DEFAULT_OVERLAP_SIZE)).value;
          DocumentIds(f, data);
          NoDuplicatesAppend(CallIds(c), restIds);
        } else {
          assert CallIds(c) == [];
        }
    }
  }

  /** processPdf on a directory: every file handed to the parser is a PDF
      entry, in directory order, and no two stored records share an id. */
  lemma ProcessPdfIdsDistinct(files: seq<string>, extract: Extractor, embed: Embedder)
    requires NoDuplicates(files)
    ensures var r := ProcessPdfRun(Success(files), extract, embed);
      NoDuplicates(CallIds(r.calls)) &&
      (forall f :: f in r.parsed ==> f in files && IsPdf(f)) &&
      (r.status == Completed ==> r.parsed == FilterPdf(files))
  {
    var pdfFiles := FilterPdf(files);
    FilterPdfNoDuplicates(files);
    if pdfFiles != [] {
      IngestIdsDistinct(pdfFiles, extract, embed);
      IngestStopsAtFirstFailure(pdfFiles, extract, embed);
    }
  }

  /** A document is stored as one record per chunk when the embedder
      returns one embedding per chunk: ids chunk-0-f to chunk-(n-1)-f for
      the n = ceil(|text| / 800) chunks. */
  lemma DocumentRecordsFollowChunks(pdfFile: string, extract: Extractor, embed: Embedder,
                                    text: string, data: seq<EmbeddingData>)
    requires extract(pdfFile) == Success(text) && text != []
    requires embed(Chunks(text, DEFAULT_CHUNK_SIZE, DEFAULT_OVERLAP_SIZE)) == Success(data)
    requires |data| == |Chunks(text, DEFAULT_CHUNK_SIZE, DEFAULT_OVERLAP_SIZE)|
    ensures var step := DocumentStep(pdfFile, extract, embed);
      step.Success? &&
      |step.value| == ChunkCount(|text|, Step(DEFAULT_CHUNK_SIZE, DEFAULT_OVERLAP_SIZE)) &&
      forall k :: 0 <= k < |step.value| ==>
        step.value[k].records[0].id == RecordId(k, pdfFile) &&
        step.value[k].records[0].metadata == Metadata(data[k].chunk, pdfFile)
  {
    ClosedForm(text, DEFAULT_CHUNK_SIZE, DEFAULT_OVERLAP_SIZE);
  }

  // ---------------------------------------------------------------------
  // main: the query loop

  type Embed = string -> Result<Vector, Error>
  type Search = (string, Vector, nat) -> Result<seq<Match>, Error>
  type Generate = (string, seq<string>) -> Result<string, Error>

  /** One answered query, as printed: the query, the answer, the number of
      chunks and the references. */
  datatype Exchange = Exchange(query: string, answer: string, chunkCount: nat, references: seq<string>)

  /** Why the loop ended: a quit command, the end of the input, or an error
      caught by the try/catch around the whole loop. */
  datatype StopReason = QuitRequested | InputClosed | QueryFailed(error: Error)

  datatype Session = Session(exchanges: seq<Exchange>, stop: StopReason)

  /** The loop body for a query that is not a quit command:
      retrieveRelevantChunks, then generateAnswer over the chunks. */
  function Answer(query: string, embed: Embed, search: Search, generate: Generate): Result<Exchange, Error>
  {
    match RetrieveRelevantChunks(query, embed, search)
    case Failure(e) => Failure(e)
    case Success(retrieved) =>
      match generate(query, retrieved.chunks)
      case Failure(e) => Failure(e)
      case Success(answer) => Success(Exchange(query, answer, |retrieved.chunks|, retrieved.pdfFiles))
  }

  /** The session the loop produces on the queries typed in `queries`. */
  function Converse(queries: seq<string>, embed: Embed, search: Search, generate: Generate): Session
    decreases |queries|
  {
    if queries == [] then Session([], InputClosed)
    else if IsQuit(queries[0]) then Session([], QuitRequested)
    else
      match Answer(queries[0], embed, search, generate)
      case Failure(e) => Session([], QueryFailed(e))
      case Success(x) =>
        var rest := Converse(queries[1..], embed, search, generate);
        Session([x] + rest.exchanges, rest.stop)
  }

  lemma ConverseStep(queries: seq<string>, i: nat, exchanges: seq<Exchange>,
                     embed: Embed, search: Search, generate: Generate)
    requires i < |queries| && !IsQuit(queries[i])
    requires Answer(queries[i], embed, search, generate).Success?
    ensures var here := Converse(queries[i..], embed, search, generate);
      var next := Converse(queries[i + 1..], embed, search, generate);
      Session(exchanges + here.exchanges, here.stop) ==
      Session(exchanges + [Answer(queries[i], embed, search, generate).value] + next.exchanges, next.stop)
  {
    assert queries[i..][0] == queries[i] && queries[i..][1..] == queries[i + 1..];
    var x := Answer(queries[i], embed, search, generate).value;
    var next := Converse(queries[i + 1..], embed, search, generate);
    assert exchanges + ([x] + next.exchanges) == exchanges + [x] + next.exchanges;
  }

  /** The query loop of main: `while (keepAsking)`. */
  method QueryLoop(queries: seq<string>, embed: Embed, search: Search, generate: Generate)
    returns (session: Session)
    ensures session == Converse(queries, embed, search, generate)
  {
    var keepAsking := true;
    var exchanges: seq<Exchange> := [];
    var stop := InputClosed;
    var i := 0;
    while keepAsking
      invariant 0 <= i <= |queries|
      invariant keepAsking ==>
        var rest := Converse(queries[i..], embed, search, generate);
        Converse(queries, embed, search, generate) == Session(exchanges + rest.exchanges, rest.stop)
      invariant !keepAsking ==> Converse(queries, embed, search, generate) == Session(exchanges, stop)
      decreases |queries| - i + (if keepAsking then 1 else 0)
    {
      if i == |queries| {
        // the input ends: no further query arrives
        assert exchanges + [] == exchanges;
        stop := InputClosed;
        keepAsking := false;
      } else {
        var query := queries[i];
        assert queries[i..][0] == query && queries[i..][1..] == queries[i + 1..];
        if IsQuit(query) {
          assert exchanges + [] == exchanges;
          stop := QuitRequested;
          keepAsking := false;
        } else {
          var retrieved := RetrieveRelevantChunks(query, embed, search);
          if retrieved.Failure? {
            assert exchanges + [] == exchanges;
            stop := QueryFailed(retrieved.error);
            keepAsking := false;
          } else {
            var answer := generate(query, retrieved.value.chunks);
            if answer.Failure? {
              assert exchanges + [] == exchanges;
              stop := QueryFailed(answer.error);
              keepAsking := false;
            } else {
              ConverseStep(queries, i, exchanges, embed, search, generate);
              exchanges := exchanges + [Exchange(query, answer.value, |retrieved.value.chunks|, retrieved.value.pdfFiles)];
            }
          }
        }
        i := i + 1;
      }
    }
    session := Session(exchanges, stop);
  }

  /** The loop answers the queries in order until the first quit command
      (not answered), the first query whose handling throws (which ends the
      loop), or the end of the input. */
  lemma {:induction false} ConverseStops(queries: seq<string>, embed: Embed, search: Search, generate: Generate)
    ensures var s := Converse(queries, embed, search, generate);
      var n := |s.exchanges|;
      && n <= |queries|
      && (forall i :: 0 <= i < n ==>
            !IsQuit(queries[i]) && Answer(queries[i], embed, search, generate) == Success(s.exchanges[i]))
      && (s.stop == InputClosed <==> n == |queries|)
      && (s.stop == QuitRequested <==> n < |queries| && IsQuit(queries[n]))
      && (s.stop.QueryFailed? <==>
            n < |queries| && !IsQuit(queries[n]) && Answer(queries[n], embed, search, generate).Failure?)
  {
    if queries != [] && !IsQuit(queries[0]) && Answer(queries[0], embed, search, generate).Success? {
      ConverseStops(queries[1..], embed, search, generate);
    }
  }
}
