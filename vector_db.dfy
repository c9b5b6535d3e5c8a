/** The application's own logic around the Pinecone vector store: building
    the records `storeEmbeddings` upserts, shaping the matches
    `retrieveRelevantChunks` receives, and the lookup of `checkIndexExists`.
    The store itself is a log of the upsert calls made on it. */
module VectorDb {
  import opened Wrappers
  import opened Sequences
  import opened JsString

  const DB_INDEX: string := "rag-langchain-nodejs"
  const NAMESPACE: string := "test-namespace"
  /** Number of matches asked of a query. */
  const TOP_K: nat := 5

  /** An embedding vector; never inspected. */
  type Vector = seq<real>

  /** An element given to storeEmbeddings: {embedding, chunk, pdfFile}. */
  datatype EmbeddingRecord = EmbeddingRecord(embedding: Vector, chunk: string, pdfFile: string)

  datatype Metadata = Metadata(chunk: string, pdfFile: string)

  /** A record as upserted: {id, values, metadata: {chunk, pdfFile}}. */
  datatype Record = Record(id: string, values: Vector, metadata: Metadata)

  /** One call `index.namespace(namespace).upsert(records)`. */
  datatype UpsertCall = UpsertCall(namespace: string, records: seq<Record>)

  const ID_PREFIX: string := "chunk-"

  /** The id of the record made from element `i` of one storeEmbeddings
      call: `chunk-${i}-${pdfFile}`. */
  function RecordId(i: nat, pdfFile: string): string
  {
    ID_PREFIX + NatToDecimal(i) + "-" + pdfFile
  }

  /** The first position of `c` in `s`. */
  function IndexOf(s: string, c: char): (r: Option<nat>)
    ensures r.None? ==> c !in s
    ensures r.Some? ==> r.value < |s| && s[r.value] == c && c !in s[..r.value]
  {
    if s == [] then None
    else if s[0] == c then Some(0)
    else match IndexOf(s[1..], c)
      case None => None
      case Some(k) =>
        assert s[..k + 1] == [s[0]] + s[1..][..k];
        Some(k + 1)
  }

  lemma {:induction false} IndexOfAfter(a: string, c: char, b: string)
    requires c !in a
    ensures IndexOf(a + [c] + b, c) == Some(|a|)
  {
    if a != [] {
      assert (a + [c] + b)[1..] == a[1..] + [c] + b;
      IndexOfAfter(a[1..], c, b);
    }
  }

  /** Reads an id back into the element position and the file name it was
      made from. */
  function ParseRecordId(id: string): Option<(nat, string)>
  {
    if |id| < |ID_PREFIX| || id[..|ID_PREFIX|] != ID_PREFIX then None
    else
      var rest := id[|ID_PREFIX|..];
      match IndexOf(rest, '-')
      case None => None
      case Some(k) =>
        var digits := rest[..k];
        if digits != [] && AllDigits(digits) then Some((DecimalValue(digits), rest[k + 1..]))
        else None
  }

  /** An id gives back the position and the file name it was made from. */
  lemma RecordIdRoundTrip(i: nat, pdfFile: string)
    ensures ParseRecordId(RecordId(i, pdfFile)) == Some((i, pdfFile))
  {
    var digits := NatToDecimal(i);
    var id := RecordId(i, pdfFile);
    assert id[..|ID_PREFIX|] == ID_PREFIX;
    var rest := id[|ID_PREFIX|..];
    assert rest == digits + "-" + pdfFile;
    forall p | 0 <= p < |digits| ensures rest[p] == digits[p] && rest[p] != '-' {
      assert IsDigit(digits[p]);
    }
    assert '-' !in digits;
    IndexOfAfter(digits, '-', pdfFile);
    assert rest[..|digits|] == digits;
    assert rest[|digits| + 1..] == pdfFile;
    DecimalRoundTrip(i);
  }

  /** Distinct (position, file name) pairs get distinct ids. */
  lemma RecordIdInjective(i: nat, p: string, j: nat, q: string)
    requires RecordId(i, p) == RecordId(j, q)
    ensures i == j && p == q
  {
    RecordIdRoundTrip(i, p);
    RecordIdRoundTrip(j, q);
  }

  /** The record storeEmbeddings upserts for element `i`. */
  function MakeRecord(i: nat, e: EmbeddingRecord): Record
  {
    Record(RecordId(i, e.pdfFile), e.embedding, Metadata(e.chunk, e.pdfFile))
  }

  /** The element a stored record was made from. */
  function RecordSource(r: Record): EmbeddingRecord
  {
    EmbeddingRecord(r.values, r.metadata.chunk, r.metadata.pdfFile)
  }

  /** A record keeps its element whole and its position in its id: nothing
      is lost, and nothing but the vector, the chunk and the file name is
      stored. */
  lemma MakeRecordRoundTrip(i: nat, e: EmbeddingRecord)
    ensures RecordSource(MakeRecord(i, e)) == e
    ensures ParseRecordId(MakeRecord(i, e).id) == Some((i, e.pdfFile))
  {
    RecordIdRoundTrip(i, e.pdfFile);
  }

  /** The upsert calls storeEmbeddings makes: one call per element, in
      index order, each with one record. */
  function StoreCalls(embeddings: seq<EmbeddingRecord>, namespace: string): (calls: seq<UpsertCall>)
    ensures |calls| == |embeddings|
  {
    seq(|embeddings|, i requires 0 <= i < |embeddings| =>
          UpsertCall(namespace, [MakeRecord(i, embeddings[i])]))
  }

  function RecordIds(records: seq<Record>): seq<string>
  {
    seq(|records|, i requires 0 <= i < |records| => records[i].id)
  }

  /** The ids of all records of the given upsert calls, in call order. */
  function CallIds(calls: seq<UpsertCall>): seq<string>
  {
    if calls == [] then [] else RecordIds(calls[0].records) + CallIds(calls[1..])
  }

  /** When every call carries one record, the ids are those records' ids in
      call order. */
  lemma {:induction false} CallIdsOfSingles(calls: seq<UpsertCall>)
    requires forall c :: c in calls ==> |c.records| == 1
    ensures CallIds(calls) == seq(|calls|, i requires 0 <= i < |calls| => calls[i].records[0].id)
  {
    if calls != [] {
      forall c | c in calls[1..] ensures |c.records| == 1 {
        assert c in calls;
      }
      CallIdsOfSingles(calls[1..]);
    }
  }

  lemma {:induction false} CallIdsAppend(a: seq<UpsertCall>, b: seq<UpsertCall>)
    ensures CallIds(a + b) == CallIds(a) + CallIds(b)
  {
    if a != [] {
      assert (a + b)[0] == a[0];
      assert (a + b)[1..] == a[1..] + b;
      CallIdsAppend(a[1..], b);
      assert CallIds(a + b) == RecordIds(a[0].records) + CallIds(a[1..] + b);
      assert CallIds(a) == RecordIds(a[0].records) + CallIds(a[1..]);
    } else {
      assert a + b == b;
    }
  }

  /** The calls of one storeEmbeddings invocation go to its namespace, carry
      one record each, and their ids are pairwise distinct. */
  lemma StoreCallsDistinctIds(embeddings: seq<EmbeddingRecord>, namespace: string)
    ensures forall c :: c in StoreCalls(embeddings, namespace) ==>
              c.namespace == namespace && |c.records| == 1
    ensures forall i, j :: 0 <= i < j < |embeddings| ==>
              StoreCalls(embeddings, namespace)[i].records[0].id !=
              StoreCalls(embeddings, namespace)[j].records[0].id
  {
    var calls := StoreCalls(embeddings, namespace);
    forall i, j | 0 <= i < j < |embeddings|
      ensures calls[i].records[0].id != calls[j].records[0].id
    {
      if calls[i].records[0].id == calls[j].records[0].id {
        RecordIdInjective(i, embeddings[i].pdfFile, j, embeddings[j].pdfFile);
      }
    }
  }

  /** The Pinecone index `DB_INDEX`, seen through the upserts made on it. */
  class VectorIndex {
    /** Every upsert call made on this index, oldest first. */
    var upserts: seq<UpsertCall>

    constructor ()
      ensures upserts == []
    {
      upserts := [];
    }

    /** index.namespace(namespace).upsert(records). */
    method Upsert(namespace: string, records: seq<Record>)
      modifies this
      ensures upserts == old(upserts) + [UpsertCall(namespace, records)]
    {
      upserts := upserts + [UpsertCall(namespace, records)];
    }
  }

  /** storeEmbeddings(embeddings, namespace = NAMESPACE): one upsert per
      element, in index order. */
  method StoreEmbeddings(index: VectorIndex, embeddings: seq<EmbeddingRecord>,
                         namespace: string := NAMESPACE)
    modifies index
    ensures index.upserts == old(index.upserts) + StoreCalls(embeddings, namespace)
  {
    for i := 0 to |embeddings|
      invariant index.upserts == old(index.upserts) + StoreCalls(embeddings[..i], namespace)
    {
      var e := embeddings[i];
      index.Upsert(namespace, [Record(RecordId(i, e.pdfFile), e.embedding, Metadata(e.chunk, e.pdfFile))]);
      assert StoreCalls(embeddings[..i + 1], namespace)
          == StoreCalls(embeddings[..i], namespace) + [UpsertCall(namespace, [MakeRecord(i, e)])];
    }
    assert embeddings[..|embeddings|] == embeddings;
  }

  /** One element of `results.matches`. */
  datatype Match = Match(id: string, score: real, metadata: Metadata)

  /** What retrieveRelevantChunks returns: {chunks, pdfFiles}. */
  datatype Retrieval = Retrieval(chunks: seq<string>, pdfFiles: seq<string>)

  /** `[...new Set(s)]`: a Set iterates in insertion order, so this keeps
      the first occurrence of every element. */
  function Dedup<T(==, !new)>(s: seq<T>): (r: seq<T>)
    ensures NoDuplicates(r)
    ensures forall x :: x in r <==> x in s
    ensures forall i, j :: 0 <= i < j < |r| ==> FirstIndex(s, r[i]) < FirstIndex(s, r[j])
  {
    if s == [] then []
    else
      var init := s[..|s| - 1];
      var x := s[|s| - 1];
      assert s == init + [x];
      var r := Dedup(init);
      forall y | y in init ensures FirstIndex(s, y) == FirstIndex(init, y) {
        FirstIndexAppend(init, x, y);
      }
      if x in r then r
      else
        assert FirstIndex(s, x) == |init|;
        r + [x]
  }

  /** `results.matches.map((match) => match.metadata.pdfFile)`. */
  function MatchFiles(matches: seq<Match>): (files: seq<string>)
    ensures |files| == |matches|
    ensures forall i :: 0 <= i < |matches| ==> files[i] == matches[i].metadata.pdfFile
  {
    seq(|matches|, i requires 0 <= i < |matches| => matches[i].metadata.pdfFile)
  }

  /** The result of retrieveRelevantChunks for the given matches: their
      chunks in match order, and their file names once each, in order of
      first appearance. */
  function ShapeMatches(matches: seq<Match>): (r: Retrieval)
    ensures |r.chunks| == |matches|
    ensures forall i :: 0 <= i < |matches| ==> r.chunks[i] == matches[i].metadata.chunk
    ensures NoDuplicates(r.pdfFiles)
    ensures forall f :: f in r.pdfFiles <==> f in MatchFiles(matches)
    ensures forall f :: f in r.pdfFiles <==> exists i :: 0 <= i < |matches| && matches[i].metadata.pdfFile == f
    ensures forall i, j :: 0 <= i < j < |r.pdfFiles| ==>
              FirstIndex(MatchFiles(matches), r.pdfFiles[i]) < FirstIndex(MatchFiles(matches), r.pdfFiles[j])
    ensures matches == [] ==> r.chunks == [] && r.pdfFiles == []
  {
    var chunks := seq(|matches|, i requires 0 <= i < |matches| => matches[i].metadata.chunk);
    var files := MatchFiles(matches);
    var pdfFiles := Dedup(files);
    assert forall f :: f in files <==> exists i :: 0 <= i < |matches| && matches[i].metadata.pdfFile == f by {
      forall f | f in files ensures exists i :: 0 <= i < |matches| && matches[i].metadata.pdfFile == f {
        var i := FirstIndex(files, f);
        assert matches[i].metadata.pdfFile == f;
      }
    }
    Retrieval(chunks, pdfFiles)
  }

  /** retrieveRelevantChunks(query, namespace = NAMESPACE): embed the query,
      ask the store for the TOP_K nearest records in the namespace, and shape
      the matches. Either external call may fail, and the failure reaches the
      caller. */
  function RetrieveRelevantChunks(query: string,
                                  embed: string -> Result<Vector, Error>,
                                  search: (string, Vector, nat) -> Result<seq<Match>, Error>,
                                  namespace: string := NAMESPACE): (r: Result<Retrieval, Error>)
    ensures embed(query).Failure? ==> r == Failure(embed(query).error)
    ensures embed(query).Success? ==>
              var found := search(namespace, embed(query).value, TOP_K);
              (found.Failure? ==> r == Failure(found.error)) &&
              (found.Success? ==> r == Success(ShapeMatches(found.value)))
  {
    match embed(query)
    case Failure(e) => Failure(e)
    case Success(vector) =>
      match search(namespace, vector, TOP_K)
      case Failure(e) => Failure(e)
      case Success(matches) => Success(ShapeMatches(matches))
  }

  /** An entry of `listIndexes().indexes`. */
  datatype IndexDescription = IndexDescription(name: string, dimension: nat, metric: string)

  /** The position `Array.prototype.find` stops at. */
  function FindIndex<T>(s: seq<T>, p: T -> bool): (r: Option<nat>)
    ensures r.None? ==> forall i :: 0 <= i < |s| ==> !p(s[i])
    ensures r.Some? ==> r.value < |s| && p(s[r.value]) &&
                        forall j :: 0 <= j < r.value ==> !p(s[j])
  {
    if s == [] then None
    else if p(s[0]) then Some(0)
    else match FindIndex(s[1..], p)
      case None => None
      case Some(k) => Some(k + 1)
  }

  /** `s.find(p)`. */
  function Find<T>(s: seq<T>, p: T -> bool): (r: Option<T>)
    ensures r.None? <==> forall i :: 0 <= i < |s| ==> !p(s[i])
    ensures r.Some? ==> exists k :: 0 <= k < |s| && r.value == s[k] && p(s[k]) &&
                                    forall j :: 0 <= j < k ==> !p(s[j])
  {
    match FindIndex(s, p)
    case None => None
    case Some(k) => Some(s[k])
  }

  predicate IsFirstNamed(indexes: seq<IndexDescription>, k: nat)
  {
    k < |indexes| && indexes[k].name == DB_INDEX &&
    forall j :: 0 <= j < k ==> indexes[j].name != DB_INDEX
  }

  /** checkIndexExists: the first listed index named DB_INDEX, if any. */
  function CheckIndexExists(indexes: seq<IndexDescription>): (r: Option<IndexDescription>)
    ensures r.None? <==> forall i :: 0 <= i < |indexes| ==> indexes[i].name != DB_INDEX
    ensures r.Some? ==> exists k: nat :: IsFirstNamed(indexes, k) && r.value == indexes[k]
  {
    var r := Find(indexes, (item: IndexDescription) => item.name == DB_INDEX);
    assert r.Some? ==> IsFirstNamed(indexes, FindIndex(indexes, (item: IndexDescription) => item.name == DB_INDEX).value);
    r
  }
}
