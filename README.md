# rag-langchain-nodejs in Dafny

A model of the application logic of rag-langchain-nodejs, a command-line
question-answering program over PDF files. It reads the PDF files of a
directory and cuts their text into overlapping chunks. It embeds the chunks
and upserts one record per chunk into a Pinecone index. At query time it
embeds the question, fetches the five nearest records and has a language
model answer from their chunks.

The model covers the parts of the program that decide anything:

- `chunkTexts`, the sliding-window chunker (module `Chunker`). It is a method
  with the source's `while` loop. The method is proved equal to a recursive
  function `Chunks`, one window per turn, and the promised properties are
  lemmas about `Chunks`:
  - the chunk count is ceil(n / step), and chunk k is the slice at k * step;
  - every chunk is non-empty and at most `chunkSize` long;
  - every character is covered;
  - adjacent chunks overlap;
  - the last chunk ends the text;
  - the chunks reassemble into the text.
- `storeEmbeddings` (module `VectorDb`). A `for` loop upserts, one record per
  element, into a `VectorIndex` object. The object is the log of
  upsert calls made on the index. The record id `chunk-${i}-${pdfFile}` is
  proved invertible, so ids are distinct.
- `retrieveRelevantChunks`: the shaping of the matches. Chunks stay in
  match order; file names are de-duplicated in first-appearance order, as
  `[...new Set(...)]` does.
- `checkIndexExists`: `Array.prototype.find` over the listed indexes.
- `processPdf` from `index.js`. It is a method with the loop over the PDF
  files, proved equal to a function `ProcessPdfRun`, and covers:
  - the `.pdf` filter;
  - skipping documents with empty text, which are neither embedded nor
    stored;
  - tagging embeddings with the file name;
  - the single `try`/`catch` that ends the batch at the first error.
- `init`'s decisions and the yes/no test `input.trim().toLowerCase()` is
  "ja" or "j".
- `main`'s `while (keepAsking)` loop with the quit test
  `query.toLowerCase()` is "quit" or "exit". The method `QueryLoop` is proved
  equal to the function `Converse`.

JavaScript built-ins the core relies on are modelled in module `JsString`:

- `String.prototype.slice`, including negative and out-of-range indices;
- `toLowerCase` on ASCII letters;
- `trim`, with the ECMAScript white-space and line-terminator set;
- the decimal rendering of an index in a template literal.

External services are passed in as functions that return a `Result`: PDF
parsing, the embedding model, the vector search and the answer generator. A
`Failure` stands for a thrown error.

Three behaviours of the code the model keeps as written:

- `processPdf` wraps the whole loop in one `try`/`catch`. The first document
  whose parsing or embedding throws ends the batch, and the later
  files are not processed (`App.IngestStopsAtFirstFailure`).
- `main` wraps the whole query loop in one `try`/`catch`. The first failing
  query ends the loop (`App.ConverseStops`).
- `chunkTexts` does not check its sizes. For integer sizes, which is what
  its only caller passes: on empty text its loop does not run, whatever the
  sizes; on a non-empty text it ends exactly when `overlapSize < chunkSize`.
  The method's only precondition is that one of these holds.
  `Chunker.NoProgress` shows that for any other integer sizes `start` never
  reaches the end of a non-empty text. Negative overlaps and the final short
  chunk behave as the code makes them behave.

## Model

| member | source | states |
|---|---|---|
| Chunker.ChunksFrom | src/chunk-texts.js:5-10 | The chunks the loop still adds from a given `start`: the slice there, then those from start + chunkSize - overlapSize, until start passes the end (a definition; its properties are the lemmas below) |
| Chunker.Chunks | src/chunk-texts.js:1-14 | What `chunkTexts` returns: the chunks from start 0 (a definition) |
| Chunker.ChunksFromUnfold | src/chunk-texts.js:5-10 | A turn with start inside the text adds `text.slice(start, start + chunkSize)` and goes on from start + chunkSize - overlapSize |
| Chunker.ChunksAfterTurn | src/chunk-texts.js:5-10 | A turn of the loop moves `text.slice(start, start + chunkSize)` from the chunks still to come to the end of those pushed, and `start` advances by chunkSize - overlapSize |
| Chunker.ChunkTexts | src/chunk-texts.js:1-14 | On empty text the loop returns no chunks whatever the sizes; when overlapSize < chunkSize it returns exactly `Chunks(text, chunkSize, overlapSize)`, the windows from start 0 on in steps of chunkSize - overlapSize; it returns no chunk exactly for empty text; defaults 1000 and 200 |
| Chunker.ChunksEmpty | src/chunk-texts.js:5 | Only the empty text gives no chunks |
| Chunker.ClosedForm | src/chunk-texts.js:1-14 | There are ceil(length / (chunkSize - overlapSize)) chunks, and chunk k is `text.slice(k*step, k*step + chunkSize)` |
| Chunker.ChunksFromCount | src/chunk-texts.js:5-10 | After k turns, with start at k*step, the loop adds ceil(n / step) - k more chunks |
| Chunker.ChunksFromAt | src/chunk-texts.js:6-10 | The chunk added k turns after the one at start is the slice at start plus k steps, and that position lies inside the text |
| Chunker.ChunksFromHead | src/chunk-texts.js:5-10 | A turn with start inside the text adds the text from start up to chunkSize characters further, cut off at the end, and the loop goes on from start + step |
| Chunker.ChunkWindow | src/chunk-texts.js:6-7 | Chunk k is the text from its start, k steps in, up to chunkSize characters further, cut off at the end of the text |
| Chunker.CountBound | src/chunk-texts.js:5-10 | Chunk k exists exactly when its start k*step lies inside the text, so the number of loop turns is ceil(n / step) |
| Chunker.ChunkBounds | src/chunk-texts.js:6-7 | Each chunk is the text from its start to start + chunkSize cut off at the end of the text, starts inside the text, is non-empty and at most chunkSize long |
| Chunker.DefaultsOn1500 | src/chunk-texts.js:1-14 | With the default sizes a 1500-character text gives the chunks [0, 1000) and [800, 1500) |
| Chunker.CoverageFrom | src/chunk-texts.js:5-10 | Every position from start on lies within the first step characters of some later chunk |
| Chunker.Coverage | src/chunk-texts.js:5-11 | Every character of the text appears in some chunk, at its offset from that chunk's start |
| Chunker.LastFrom | src/chunk-texts.js:5-10 | From any start inside the text, the last chunk added ends exactly at the end of the text |
| Chunker.LastChunkEndsText | src/chunk-texts.js:5-11 | A non-empty text has at least one chunk and the last chunk ends exactly at the end of the text |
| Chunker.Overlap | src/chunk-texts.js:6-10 | A full-length chunk's last overlapSize characters are the next chunk's first overlapSize characters |
| Chunker.ReassembleFrom | src/chunk-texts.js:5-10 | The chunks from start on reassemble to the text from start on |
| Chunker.ReassembleLast | src/chunk-texts.js:6-7 | A chunk whose next start lies past the text is the rest of the text |
| Chunker.ReassembleStep | src/chunk-texts.js:6-10 | A chunk with a successor contributes its first step characters, and the next chunks go on from start + step |
| Chunker.Reconstruction | src/chunk-texts.js:1-14 | The first step characters of every chunk but the last, followed by the last chunk, give back the text |
| Chunker.NoProgress | src/chunk-texts.js:5-10 | When overlapSize >= chunkSize and the text is non-empty, `start` after any number of turns of `start += chunkSize - overlapSize` stays at or below 0, so the guard `start < text.length` holds at every turn and the loop does not end |
| JsString.RelativeIndex | src/chunk-texts.js:7 | The index rule of `slice`: a negative index counts from the end and is clamped at 0, an index past the end is clamped to the length |
| JsString.Slice | src/chunk-texts.js:7 | `s.slice(start, end)` is never longer than s, and for 0 <= start <= end it is s between the clamped indices |
| JsString.LowerChar | index.js:25 | Upper-case ASCII letters are shifted by 32, every other character is unchanged |
| JsString.ToLower | index.js:163 | `toLowerCase` keeps the length and lowers each character |
| JsString.ToLowerIdempotent | index.js:163 | Lowering a lowered string changes nothing |
| JsString.IsWhiteSpace | index.js:89 | The characters `trim` removes: the ECMAScript WhiteSpace and LineTerminator code points (a definition) |
| JsString.LeadingWhiteSpace | index.js:89 | The number of characters `trim` removes at the front: all white space, and the next character, if any, is not |
| JsString.TrailingWhiteSpace | index.js:89 | The number of characters `trim` removes at the back: all white space, and the character before them, if any, is not |
| JsString.Trim | index.js:89 | The result of `trim` neither starts nor ends with white space |
| JsString.TrimPadded | index.js:89 | Trimming white space padded around a word that starts and ends with non-white-space gives back the word |
| JsString.TrimSplits | index.js:115 | Every string is white space, then its trimmed form, then white space |
| JsString.NatToDecimal | src/vector-db.js:22 | The decimal rendering of an index is a non-empty digit string without a leading zero |
| JsString.DecimalRoundTrip | src/vector-db.js:22 | Reading the decimal rendering back gives the number |
| Sequences.FirstIndex | src/vector-db.js:87 | The first position of an element: it holds the element and no earlier position does |
| VectorDb.RecordId | src/vector-db.js:22 | The id `chunk-${i}-${pdfFile}` (a definition; see the round trip below) |
| VectorDb.RecordIdRoundTrip | src/vector-db.js:22 | The id `chunk-${i}-${pdfFile}` parses back to i and pdfFile |
| VectorDb.RecordIdInjective | src/vector-db.js:22 | Two equal ids come from the same index and file name |
| VectorDb.MakeRecord | src/vector-db.js:21-28 | The record upserted for element i: its id, its vector, and its chunk and file name as metadata (a definition) |
| VectorDb.MakeRecordRoundTrip | src/vector-db.js:21-28 | A stored record keeps its element's vector, chunk and file name, and its id gives back its position |
| VectorDb.StoreCalls | src/vector-db.js:19-30 | storeEmbeddings makes one upsert call per element |
| VectorDb.CallIdsOfSingles | src/vector-db.js:20-29 | When every call upserts one record, the ids are those records' ids in call order |
| VectorDb.CallIdsAppend | src/vector-db.js:19-30 | The ids of two batches of calls are the ids of the first followed by those of the second |
| VectorDb.StoreCallsDistinctIds | src/vector-db.js:19-30 | Every call goes to the given namespace with exactly one record, and no two records of one invocation share an id |
| VectorDb.VectorIndex.constructor | src/vector-db.js:17 | A fresh index handle has received no upserts |
| VectorDb.VectorIndex.Upsert | src/vector-db.js:20-29 | An upsert appends exactly that call to the index's log |
| VectorDb.StoreEmbeddings | src/vector-db.js:16-31 | The index's log grows by exactly `StoreCalls(embeddings, namespace)`, in element order, and nothing else changes |
| VectorDb.Dedup | src/vector-db.js:87 | `[...new Set(s)]` has no duplicates, the same members as s, and keeps them in order of first occurrence |
| VectorDb.MatchFiles | src/vector-db.js:86 | The file names of the matches, one per match, in match order |
| VectorDb.ShapeMatches | src/vector-db.js:82-89 | Chunks are the matches' chunks in match order; file names are exactly the matches' file names, each once, in order of first appearance; no matches give empty lists |
| VectorDb.RetrieveRelevantChunks | src/vector-db.js:72-90 | A failing embedding or search is passed on; otherwise the result is `ShapeMatches` of the matches for the TOP_K = 5 asked for in the namespace: the chunks in match order and the file names deduplicated in first-appearance order |
| VectorDb.FindIndex | src/vector-db.js:57 | The position `find` stops at: the first element satisfying the test, or none when no element does |
| VectorDb.Find | src/vector-db.js:57 | `find` gives nothing exactly when no element passes the test, and otherwise the first element that passes it |
| VectorDb.CheckIndexExists | src/vector-db.js:50-58 | No result exactly when no listed index is named "rag-langchain-nodejs"; otherwise the first one so named |
| App.LastIndexOf | index.js:25 | The last position of a character, or none when it does not occur |
| App.LastIndexOfBefore | index.js:25 | The last position of c in a + [c] + b, when b lacks c, is the length of a |
| App.ExtName | index.js:25 | `path.extname` of a directory entry (a definition) |
| App.ExtNameSuffix | index.js:25 | The extension is empty, or a proper suffix of the name that starts with the name's last '.' and holds no other |
| App.IsPdf | index.js:24-26 | The filter's test, `path.extname(file).toLowerCase() === ".pdf"` (a definition; App.IsPdfSuffix characterises it) |
| App.IsPdfSuffix | index.js:24-26 | An entry passes the filter exactly when it is at least 5 characters long and ends in ".pdf" in any case |
| App.SuffixIsPdf | index.js:24-26 | A name of at least one character followed by ".pdf" in any case passes the filter |
| App.PdfHasSuffix | index.js:24-26 | A name that passes the filter is at least 5 characters long and ends in ".pdf" in any case |
| App.FilterPdf | index.js:24-26 | The kept entries are exactly the PDF entries, and there are never more than the listing had |
| App.FilterPdfKeepsAll | index.js:24-26 | A listing of PDF entries only is kept whole, in order |
| App.FilterPdfNone | index.js:24-31 | A listing without PDF entries keeps nothing, so the no-PDF branch is taken |
| App.FilterPdfAppend | index.js:24-26 | Filtering commutes with concatenation, so the kept entries stay in directory order |
| App.FilterPdfNoDuplicates | index.js:23-26 | Filtering a listing without duplicates gives a list without duplicates |
| App.TagWithFile | index.js:46-49 | Tagging keeps the number of elements, each element's vector and chunk, and adds the file name to every element |
| App.UntagTag | index.js:46-49 | Dropping the file name again gives back the embedder's output |
| App.LowerEqualsWord | index.js:89 | For a lower-case word, `toLowerCase(s) === word` exactly when s spells the word with each letter in either case |
| App.IsConfirmation | index.js:89-93 | The yes test: the trimmed, lower-cased answer is "ja" or "j" (a definition; App.ConfirmationSpelling characterises it) |
| App.ConfirmationSpelling | index.js:89-93 | An answer is yes exactly when its trimmed form spells "ja" or "j" in any case |
| App.ConfirmationPadded | index.js:115-119 | "ja" or "j" in any case, surrounded by any white space, is a yes |
| App.BlankIsNo | index.js:86-93 | An empty or blank answer is a no |
| App.IsQuit | index.js:163 | The quit test: the lower-cased query is "quit" or "exit" (a definition; App.QuitSpelling characterises it) |
| App.QuitSpelling | index.js:163 | A query quits exactly when it spells "quit" or "exit" in any case |
| App.PaddedQuitIsQuery | index.js:163 | "quit" or "exit" with white space around it is not a quit command, because the query is not trimmed |
| App.InitActions | index.js:75-139 | init deletes the index exactly when it exists and the first answer is yes, and then exits; it creates the index exactly when it is missing; it processes PDFs exactly when it did not delete and the second answer is yes |
| App.DocumentEmbedded | index.js:41-43 | The chunk lists handed to `embedTexts` for one document: none for a failing parse or empty text, otherwise its chunks (a definition, described by `App.IngestEmbedsChunks`) |
| App.DocumentStep | index.js:39-58 | One turn of the document loop: the parse error, nothing for empty text, the embedding error, or the upserts of the chunks' embeddings tagged with the file name (a definition) |
| App.IngestDocuments | index.js:35-60 | The loop over the PDF files, ended by the first error; it never reports that no PDF was found |
| App.ProcessPdfRun | index.js:22-72 | processPdf reports no PDF exactly when the listing succeeded and no entry passes the filter, and then parses, embeds and stores nothing |
| App.IngestFails | index.js:35-60 | A turn whose document throws ends the run: the report is the files so far plus this one, the chunk lists embedded so far plus this document's, the upserts so far, and the document's error |
| App.IngestContinues | index.js:35-60 | A turn whose document succeeds moves the file, its embedded chunk lists and its upserts from the rest of the run into the part already done |
| App.ProcessPdf | index.js:20-73 | The method's report is `ProcessPdfRun`, covering a failing directory read, a listing without PDF files and the loop, and the index's log grows by exactly the report's upsert calls |
| App.IngestFiles | index.js:35-60 | The `for` loop over the PDF files produces exactly `IngestDocuments`: every document in order until the first that throws, with the chunk lists handed to the embedder, and the index's log grows by exactly the report's upsert calls |
| App.ProcessDocument | index.js:37-59 | One document: a failing parse or embedding gives its error and stores nothing; empty text stores nothing; otherwise the chunks embedded and tagged with the file name are stored, and the log grows by exactly those calls. The chunk lists it hands to the embedder are `DocumentEmbedded`: none for a failing parse or empty text |
| App.NoPdfFilesNoWork | index.js:28-31 | A listing without PDF entries parses, embeds and stores nothing and reports that no PDF was found |
| App.IngestEmbedsChunks | index.js:35-60 | The embedder is called no more often than there are parsed files; every call is on `Chunks(text, 1000, 200)` of a parsed file with non-empty text, and every parsed file with non-empty text has its chunks embedded |
| App.IngestStopsAtFirstFailure | index.js:22-72 | Files are parsed in order up to and including the first one that throws, and its error is the run's status; with no failure every file is parsed and the run completes |
| App.DocumentCallsTagged | index.js:46-51 | One upsert per embedding, each to "test-namespace" with one record tagged with the document's file name |
| App.IngestStoresTaggedRecords | index.js:35-59 | Every stored record goes to "test-namespace", alone in its call, tagged with a parsed file whose text was non-empty |
| App.DocumentIds | index.js:46-51 | A document's ids are one per embedding, pairwise distinct, and each parses to that document's file name |
| App.IngestIdsDistinct | index.js:35-60 | Over a run on distinct file names no two stored records share an id, and every id names one of the files |
| App.ProcessPdfIdsDistinct | index.js:20-73 | On a directory listing, every parsed file is a PDF entry of the directory, a completed run parses exactly the filtered entries in order, and all stored ids are distinct |
| App.DocumentRecordsFollowChunks | index.js:39-51 | When the embedder returns one embedding per chunk, a document gets ceil(length / 800) records with ids chunk-0-f, chunk-1-f, ...; record k carries the file name and `data[k].chunk`, the chunk the embedder returned with embedding k |
| App.Answer | index.js:167-176 | The loop body for a query that is not a quit command: retrieval, then the answer over the chunks; either step's error is passed on (a definition) |
| App.Converse | index.js:156-178 | The session the loop produces on the typed queries (a definition; App.ConverseStops characterises it) |
| App.ConverseStep | index.js:158-176 | One answered query extends the session by its exchange |
| App.QueryLoop | index.js:156-183 | The `while (keepAsking)` loop produces exactly `Converse(queries, ...)` |
| App.ConverseStops | index.js:156-183 | The loop answers the queries in order; it stops at the end of the input, at the first quit command (not answered), or at the first query whose retrieval or answer fails |

## Left out

- Pinecone itself is not modelled: similarity search, the index's stored contents, `describeIndexStats`, and the parameters `createIndex` passes (dimension 3072, cosine metric, serverless on aws us-east-1). The store is the log of upsert calls, and search is a function parameter.
- `deleteIndex`, `createIndex` and `describeIndexStats` appear only as the steps `App.InitActions` lists; what they do to the index is not modelled.
- src/embed-texts.js, src/generate-answer.js and src/parse-pdf.js are not part of this model. They are the function parameters `embed`, `generate` and `extract`, and their failures are `Failure` results.
- App.DocumentStep and VectorDb.RetrieveRelevantChunks: the embedder's output is taken to be `{embedding, chunk}` records, as the comment at index.js:43 describes. `retrieveRelevantChunks` reads `embeddingDataArr[0].embedding` from that output, which the model's `embed` folds into a function returning the query's vector. The model does not capture that src/embed-texts.js returns bare vectors.
- Chunker.ChunkTexts: the sizes are integers here, while JavaScript accepts any number. The model does not capture fractional, `NaN` or infinite sizes. A fractional size is truncated by `slice` but not by `start += step`. A `NaN` size makes `start` `NaN` and ends the loop after one turn (for example `chunkTexts("abc", 1, NaN)` returns `["a"]`). The only call site passes the integer defaults 1000 and 200.
- Reading the directory, `path.join` and the PDF path: the listing is a `Result` parameter, and `extract` receives the file name.
- App.ProcessDocument: a text value that is `null` or `undefined` is not modelled; the extractor returns a string or an error.
- Console output, `readline`, `process.exit` and the ENOENT message are not modelled. `init` becomes the list of steps it takes, and an error thrown inside `init` is not modelled.
- App.QueryLoop: the typed lines are a finite sequence, and the session ends when they run out. In the program an `rl.question` on a closed input never answers.
- VectorDb.ShapeMatches: a match without a `metadata` field is not modelled; every match carries a chunk and a file name.
- App.TagWithFile: the spread `...item` copies only the two fields the model gives an element.
- VectorDb.StoreEmbeddings: an upsert that throws part-way through a document is not modelled; every upsert succeeds.
- JsString.ToLower and JsString.LowerChar lower ASCII letters only. This is exact for the tests "ja", "j", "quit", "exit" and ".pdf", because no other character lowercases to exactly one of their letters.
- Strings are sequences of Dafny `char`, which are Unicode scalar values, while JavaScript's `length` and `slice` count UTF-16 code units. Text inside the Basic Multilingual Plane is modelled exactly. A character outside it counts as one position here and as two in JavaScript, so such text is chunked differently (for example "😀" followed by 799 'a' is one chunk here and two in JavaScript), and a chunk that splits a surrogate pair cannot be expressed.
- App.ExtName follows `path.extname` for names without '/': a name whose only dot is its first character has no extension. The case of ".." gives "." here and "" in Node; neither is ".pdf".
- Timing and concurrency: the `await`s are sequential, so the model is sequential.
