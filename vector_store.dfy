/** The vector store wrapper of src/vector_store.py: metadata cleaning, the
    batched add path, search-result processing, the filtered-then-unfiltered
    search and the registry of indexed ministries.

    The persistent collection is a sequence of records; what a nearest-neighbour
    query returns is an input (`QueryResult`), as is whether it raised. */
module VectorStore {
  import opened Strings
  import opened Values
  import opened Seqs
  import Config

  /** Documents per `collection.add` call. */
  const BatchSize: nat := 100

  /** One stored record of the collection. */
  datatype Record = Record(id: string, text: string, metadata: Metadata)

  /** One element of the list given to `add_documents`: something that is not a
      dict, or a dict with optional "id" and "text" and a "metadata" dict
      (an absent "metadata" is the empty dict). */
  datatype InputDoc =
    | NotADict
    | Doc(id: Option<string>, text: Option<string>, metadata: Metadata)

  /** One hit of a query: the parallel entries of ids, documents, metadatas and distances. */
  datatype Hit = Hit(id: string, text: string, metadata: Metadata, distance: real)

  /** The results of one query; `hasDistances` is whether the "distances" key is present. */
  datatype QueryResult = QueryResult(hits: seq<Hit>, hasDistances: bool)

  /** What a call to `collection.query` did. */
  datatype QueryOutcome = Raised | Returned(result: QueryResult)

  /** A query sent to the collection: the embedding, `n_results` and the ministry
      equality filter (`None` for no `where` clause). */
  datatype Query = Query(embedding: seq<real>, nResults: int, ministryFilter: Option<string>)

  /** One search result. */
  datatype SearchResult = SearchResult(id: string, text: string, metadata: Metadata,
                                       distance: real, relevanceScore: real)

  /** The durable registry file `indexed_ministries.json`: absent, unreadable
      (not JSON), or present with or without its "ministries" key. */
  datatype RegistryFile = Missing | Unreadable | Present(ministries: Option<set<Value>>)

  // ---------------------------------------------------------------------------
  // Metadata cleaning

  /** A non-`None` value as it is stored: primitives unchanged, others stringified. */
  function CleanValue(v: Value): (r: Value)
    ensures IsPrimitive(r)
    ensures IsPrimitive(v) ==> r == v
  {
    if IsPrimitive(v) then v else Str(Show(v))
  }

  /** The cleaned form of a metadata dict. */
  function Cleaned(m: Metadata): Metadata {
    var kept := map k | k in m && m[k] != Null :: CleanValue(m[k]);
    if "ministry" in kept then kept else kept["ministry" := Str(Config.UnknownMinistry)]
  }

  /** The cleaned dict keeps every non-`None` entry (stringified when not primitive),
      holds only primitive values, and has "ministry": the original non-`None` value,
      else "Unknown Ministry". */
  lemma CleanedSpec(metadata: Metadata)
    ensures var cleaned := Cleaned(metadata);
            && (forall k | k in metadata && metadata[k] != Null :: k in cleaned && cleaned[k] == CleanValue(metadata[k]))
            && (forall k | k in cleaned && k != "ministry" :: k in metadata && metadata[k] != Null)
            && (forall k | k in cleaned :: IsPrimitive(cleaned[k]))
            && "ministry" in cleaned
            && cleaned["ministry"] == if "ministry" in metadata && metadata["ministry"] != Null
                                      then CleanValue(metadata["ministry"]) else Str(Config.UnknownMinistry)
  {
  }

  lemma CleanedHasMinistry(metadata: Metadata)
    ensures "ministry" in Cleaned(metadata)
  {
  }

  /** Cleaning is idempotent: a cleaned dict is already clean. */
  lemma CleanedIdempotent(metadata: Metadata)
    ensures Cleaned(Cleaned(metadata)) == Cleaned(metadata)
  {
    CleanedSpec(metadata);
    var c := Cleaned(metadata);
    CleanedSpec(c);
    assert Cleaned(c).Keys == c.Keys;
  }

  /** `_clean_metadata`: drops `None` values, keeps str/int/float/bool values,
      stringifies the rest and makes sure "ministry" is present. */
  method CleanMetadata(metadata: Metadata) returns (cleaned: Metadata)
    ensures cleaned == Cleaned(metadata)
  {
    cleaned := map[];
    var todo := metadata.Keys;
    while todo != {}
      invariant todo <= metadata.Keys
      invariant cleaned == map k | k in metadata && k !in todo && metadata[k] != Null :: CleanValue(metadata[k])
      decreases todo
    {
      var key :| key in todo;
      var value := metadata[key];
      if value != Null {
        if IsPrimitive(value) {
          cleaned := cleaned[key := value];
        } else {
          cleaned := cleaned[key := Str(Show(value))];
        }
      }
      todo := todo - {key};
    }
    if "ministry" !in cleaned {
      cleaned := cleaned["ministry" := Str(Config.UnknownMinistry)];
    }
  }

  // ---------------------------------------------------------------------------
  // The add path, as a specification

  /** A document `add_documents` stores: a dict with a "text" whose stripped form is non-empty. */
  predicate Accepted(d: InputDoc) {
    d.Doc? && d.text.Some? && Strip(d.text.value) != ""
  }

  /** The accepted documents, in input order. */
  function AcceptedDocs(docs: seq<InputDoc>): (r: seq<InputDoc>)
    ensures |r| <= |docs| && forall k | 0 <= k < |r| :: Accepted(r[k])
  {
    if docs == [] then []
    else AcceptedDocs(docs[..|docs| - 1]) + (if Accepted(docs[|docs| - 1]) then [docs[|docs| - 1]] else [])
  }

  /** The id synthesised for a document without one: `doc_{t}_{i}_{len(ids)}`. */
  function GeneratedId(now: nat, offset: nat, position: nat): string {
    "doc_" + NatToString(now) + "_" + NatToString(offset) + "_" + NatToString(position)
  }

  /** The record stored for accepted document `d`, the `position`-th accepted one
      of the batch starting at `offset`. */
  function Entry(d: InputDoc, now: nat, offset: nat, position: nat): Record
    requires Accepted(d)
  {
    Record(if d.id.Some? then d.id.value else GeneratedId(now, offset, position),
           Strip(d.text.value), Cleaned(d.metadata))
  }

  /** The records one batch contributes: one per accepted document, the `p`-th
      numbered `p` in its generated id (`len(ids)` at the time it is appended). */
  function BatchEntries(batch: seq<InputDoc>, now: nat, offset: nat): seq<Record> {
    MapIndexed(AcceptedDocs(batch), (d, p) requires Accepted(d) => Entry(d, now, offset, p))
  }

  /** Three parallel lists as records. */
  function Zip(ids: seq<string>, texts: seq<string>, metadatas: seq<Metadata>): seq<Record>
    requires |ids| == |texts| == |metadatas|
  {
    seq(|ids|, k requires 0 <= k < |ids| => Record(ids[k], texts[k], metadatas[k]))
  }

  /** How many slices of `BatchSize` an input of length `n` is cut into. */
  function NumBatches(n: nat): nat {
    (n + BatchSize - 1) / BatchSize
  }

  /** The `j`-th slice, `documents[i : i + batch_size]` with `i = j * batch_size`. */
  function BatchSlice(docs: seq<InputDoc>, j: nat): (b: seq<InputDoc>)
    requires j < NumBatches(|docs|)
    ensures 0 < |b| <= BatchSize
  {
    docs[j * BatchSize..Min(j * BatchSize + BatchSize, |docs|)]
  }

  /** The record lists of the first `j` slices. */
  function BatchesUpTo(docs: seq<InputDoc>, now: nat, j: nat): (bs: seq<seq<Record>>)
    requires j <= NumBatches(|docs|)
    ensures |bs| == j
  {
    if j == 0 then []
    else BatchesUpTo(docs, now, j - 1) + [BatchEntries(BatchSlice(docs, j - 1), now, (j - 1) * BatchSize)]
  }

  /** The record list of every slice, in order. */
  function Batches(docs: seq<InputDoc>, now: nat): seq<seq<Record>> {
    BatchesUpTo(docs, now, NumBatches(|docs|))
  }

  /** Everything one `add_documents` call stores, in order. */
  function StoredRecords(docs: seq<InputDoc>, now: nat): seq<Record> {
    Flatten(Batches(docs, now))
  }

  /** Whether the `j`-th slice raises: it has records to send and `raises(j)`
      says that its `collection.add` (or the cleaning of one of its metadata
      values) raises. A slice without records sends nothing and cannot. */
  predicate SliceRaises(docs: seq<InputDoc>, now: nat, raises: nat -> bool, j: nat)
    requires j < NumBatches(|docs|)
  {
    raises(j) && BatchEntries(BatchSlice(docs, j), now, j * BatchSize) != []
  }

  /** The first slice from `j` on that raises, or `NumBatches` when none does. */
  function FirstRaiseFrom(docs: seq<InputDoc>, now: nat, raises: nat -> bool, j: nat): (r: nat)
    requires j <= NumBatches(|docs|)
    ensures j <= r <= NumBatches(|docs|)
    ensures forall k | j <= k < r :: !SliceRaises(docs, now, raises, k)
    ensures r < NumBatches(|docs|) ==> SliceRaises(docs, now, raises, r)
    decreases NumBatches(|docs|) - j
  {
    if j == NumBatches(|docs|) || SliceRaises(docs, now, raises, j) then j
    else FirstRaiseFrom(docs, now, raises, j + 1)
  }

  /** The slice at which an `add_documents` call stops: the first one that
      raises, or the number of slices when none does. */
  function FirstRaise(docs: seq<InputDoc>, now: nat, raises: nat -> bool): nat
    ensures FirstRaise(docs, now, raises) <= NumBatches(|docs|)
  {
    FirstRaiseFrom(docs, now, raises, 0)
  }

  // ---------------------------------------------------------------------------
  // Properties of the add path

  lemma AcceptedDocsSnoc(docs: seq<InputDoc>, b: nat)
    requires b < |docs|
    ensures AcceptedDocs(docs[..b + 1]) == AcceptedDocs(docs[..b]) + if Accepted(docs[b]) then [docs[b]] else []
  {
    assert docs[..b + 1][..b] == docs[..b];
  }

  /** One more document of a batch adds one record exactly when it is accepted. */
  lemma BatchEntriesSnoc(batch: seq<InputDoc>, now: nat, offset: nat, b: nat)
    requires b < |batch|
    ensures BatchEntries(batch[..b + 1], now, offset) ==
            if Accepted(batch[b]) then BatchEntries(batch[..b], now, offset) + [Entry(batch[b], now, offset, |BatchEntries(batch[..b], now, offset)|)]
            else BatchEntries(batch[..b], now, offset)
  {
    AcceptedDocsSnoc(batch, b);
    if Accepted(batch[b]) {
      MapIndexedSnoc(AcceptedDocs(batch[..b]), batch[b], (d, p) requires Accepted(d) => Entry(d, now, offset, p));
    }
  }

  lemma ZipSnoc(ids: seq<string>, texts: seq<string>, metadatas: seq<Metadata>, r: Record)
    requires |ids| == |texts| == |metadatas|
    ensures Zip(ids + [r.id], texts + [r.text], metadatas + [r.metadata]) == Zip(ids, texts, metadatas) + [r]
  {
  }

  lemma {:induction false} AcceptedDocsConcat(a: seq<InputDoc>, b: seq<InputDoc>)
    ensures AcceptedDocs(a + b) == AcceptedDocs(a) + AcceptedDocs(b)
    decreases |b|
  {
    if b == [] {
      assert a + b == a;
    } else {
      var b' := b[..|b| - 1];
      assert (a + b)[..|a + b| - 1] == a + b';
      AcceptedDocsConcat(a, b');
    }
  }

  /** `rs` stores `accs`, one for one: same stripped text, cleaned metadata, and the
      caller's id wherever one was given. */
  predicate Stores(rs: seq<Record>, accs: seq<InputDoc>) {
    |rs| == |accs| &&
    forall k | 0 <= k < |rs| :: StoresOne(rs[k], accs[k])
  }

  predicate StoresOne(r: Record, d: InputDoc) {
    Accepted(d) && r.text == Strip(d.text.value) && r.metadata == Cleaned(d.metadata) &&
    (d.id.Some? ==> r.id == d.id.value)
  }

  lemma StoresConcat(r1: seq<Record>, a1: seq<InputDoc>, r2: seq<Record>, a2: seq<InputDoc>)
    requires Stores(r1, a1) && Stores(r2, a2)
    ensures Stores(r1 + r2, a1 + a2)
  {
    var r, a := r1 + r2, a1 + a2;
    forall k | 0 <= k < |r| ensures StoresOne(r[k], a[k]) {
      if k < |r1| {
        assert r[k] == r1[k] && a[k] == a1[k];
      } else {
        assert r[k] == r2[k - |r1|] && a[k] == a2[k - |r1|];
      }
    }
  }

  lemma StoresBatch(batch: seq<InputDoc>, now: nat, offset: nat)
    ensures Stores(BatchEntries(batch, now, offset), AcceptedDocs(batch))
  {
  }

  /** `j < NumBatches(n)` exactly when slice `j` starts inside the input. */
  lemma NumBatchesBound(n: nat, j: nat)
    ensures j < NumBatches(n) <==> j * BatchSize < n
  {
  }

  lemma {:induction false} BatchesUpToStore(docs: seq<InputDoc>, now: nat, j: nat)
    requires j <= NumBatches(|docs|)
    ensures Stores(Flatten(BatchesUpTo(docs, now, j)), AcceptedDocs(docs[..Min(j * BatchSize, |docs|)]))
  {
    if j == 0 {
      assert docs[..0] == [];
    } else {
      BatchesUpToStore(docs, now, j - 1);
      var start := (j - 1) * BatchSize;
      var slice := BatchSlice(docs, j - 1);
      NumBatchesBound(|docs|, j - 1);
      assert docs[..Min(j * BatchSize, |docs|)] == docs[..start] + slice;
      AcceptedDocsConcat(docs[..start], slice);
      StoresBatch(slice, now, start);
      FlattenSnoc(BatchesUpTo(docs, now, j - 1), BatchEntries(slice, now, start));
      StoresConcat(Flatten(BatchesUpTo(docs, now, j - 1)), AcceptedDocs(docs[..start]),
                   BatchEntries(slice, now, start), AcceptedDocs(slice));
    }
  }

  lemma BatchesUpToSnoc(docs: seq<InputDoc>, now: nat, j: nat)
    requires j < NumBatches(|docs|)
    ensures Flatten(BatchesUpTo(docs, now, j + 1)) ==
            Flatten(BatchesUpTo(docs, now, j)) + BatchEntries(BatchSlice(docs, j), now, j * BatchSize)
  {
    FlattenSnoc(BatchesUpTo(docs, now, j), BatchEntries(BatchSlice(docs, j), now, j * BatchSize));
  }

  /** The stopping slice is `j` once the slices before `j` went through and
      slice `j` raises or is past the end. */
  lemma FirstRaiseIs(docs: seq<InputDoc>, now: nat, raises: nat -> bool, j: nat)
    requires j <= NumBatches(|docs|)
    requires forall k | 0 <= k < j :: !SliceRaises(docs, now, raises, k)
    requires j < NumBatches(|docs|) ==> SliceRaises(docs, now, raises, j)
    ensures FirstRaise(docs, now, raises) == j
  {
  }

  lemma {:induction false} BatchesUpToPrefix(docs: seq<InputDoc>, now: nat, j: nat, n: nat)
    requires j <= n <= NumBatches(|docs|)
    ensures BatchesUpTo(docs, now, j) == BatchesUpTo(docs, now, n)[..j]
  {
    if j < n {
      BatchesUpToPrefix(docs, now, j, n - 1);
      assert BatchesUpTo(docs, now, n)[..n - 1] == BatchesUpTo(docs, now, n - 1);
    }
  }

  /** A call that raises at slice `j` has stored a prefix of what the whole call
      would store: exactly the accepted documents among the first `j` slices. */
  lemma PartialStore(docs: seq<InputDoc>, now: nat, j: nat)
    requires j <= NumBatches(|docs|)
    ensures Flatten(BatchesUpTo(docs, now, j)) <= StoredRecords(docs, now)
    ensures Stores(Flatten(BatchesUpTo(docs, now, j)), AcceptedDocs(docs[..Min(j * BatchSize, |docs|)]))
  {
    var all := Batches(docs, now);
    BatchesUpToPrefix(docs, now, j, NumBatches(|docs|));
    assert all == all[..j] + all[j..];
    FlattenConcat(all[..j], all[j..]);
    BatchesUpToStore(docs, now, j);
  }

  /** What one call stores is exactly its accepted documents, in input order, each
      with its stripped text, its cleaned metadata and its own id when it has one. */
  lemma StoredRecordsAreAccepted(docs: seq<InputDoc>, now: nat)
    ensures Stores(StoredRecords(docs, now), AcceptedDocs(docs))
  {
    BatchesUpToStore(docs, now, NumBatches(|docs|));
    NumBatchesBound(|docs|, NumBatches(|docs|));
    assert docs[..Min(NumBatches(|docs|) * BatchSize, |docs|)] == docs;
  }

  lemma StoredRecordsCount(docs: seq<InputDoc>, now: nat)
    ensures |StoredRecords(docs, now)| == |AcceptedDocs(docs)|
  {
    StoredRecordsAreAccepted(docs, now);
  }

  /** Every stored text is non-empty and stripped, and every stored metadata carries
      "ministry": the document's own non-`None` value, else "Unknown Ministry"
      (never the `ministry` argument of the call, which does not occur here). */
  lemma StoredRecordShape(docs: seq<InputDoc>, now: nat, k: nat)
    requires k < |AcceptedDocs(docs)|
    ensures |StoredRecords(docs, now)| == |AcceptedDocs(docs)|
    ensures var r := StoredRecords(docs, now)[k];
            r.text != "" && Strip(r.text) == r.text && "ministry" in r.metadata &&
            var m := AcceptedDocs(docs)[k].metadata;
            r.metadata["ministry"] == if "ministry" in m && m["ministry"] != Null
                                      then CleanValue(m["ministry"]) else Str(Config.UnknownMinistry)
  {
    StoredRecordsAreAccepted(docs, now);
    var d := AcceptedDocs(docs)[k];
    assert StoresOne(StoredRecords(docs, now)[k], d);
    StripIdempotent(d.text.value);
    CleanedSpec(d.metadata);
  }

  lemma {:induction false} BatchesUpToIndex(docs: seq<InputDoc>, now: nat, j: nat, i: nat)
    requires i < j <= NumBatches(|docs|)
    ensures BatchesUpTo(docs, now, j)[i] == BatchEntries(BatchSlice(docs, i), now, i * BatchSize)
  {
    if i < j - 1 { BatchesUpToIndex(docs, now, j - 1, i); }
  }

  /** Each `collection.add` receives at most `BatchSize` records: the `j`-th batch
      holds the records of the accepted documents of the `j`-th slice. */
  lemma BatchShape(docs: seq<InputDoc>, now: nat, j: nat)
    requires j < NumBatches(|docs|)
    ensures |Batches(docs, now)| == NumBatches(|docs|)
    ensures Batches(docs, now)[j] == BatchEntries(BatchSlice(docs, j), now, j * BatchSize)
    ensures |Batches(docs, now)[j]| == |AcceptedDocs(BatchSlice(docs, j))| <= BatchSize
  {
    BatchesUpToIndex(docs, now, NumBatches(|docs|), j);
  }

  /** Generated ids determine their slice offset and position. */
  lemma GeneratedIdInjective(now: nat, i: nat, p: nat, i': nat, p': nat)
    requires GeneratedId(now, i, p) == GeneratedId(now, i', p')
    ensures i == i' && p == p'
  {
    var x, y := NatToString(i), NatToString(p);
    var x', y' := NatToString(i'), NatToString(p');
    assert '_' !in x && '_' !in x';
    IdPartsInjective("doc_" + NatToString(now) + "_", x, y, x', y');
    NatToStringInjective(i, i');
    NatToStringInjective(p, p');
  }

  lemma IdPartsInjective(prefix: string, x: string, y: string, x': string, y': string)
    requires '_' !in x && '_' !in x'
    requires prefix + x + "_" + y == prefix + x' + "_" + y'
    ensures x == x' && y == y'
  {
    var s := prefix + x + "_" + y;
    assert s[|prefix|..] == x + "_" + y;
    assert s[|prefix|..] == x' + "_" + y';
    SeparatorSplit(x, y, x', y', '_');
  }

  lemma MulBatchSizeInjective(j: nat, j': nat)
    requires j * BatchSize == j' * BatchSize
    ensures j == j'
  {
  }

  /** Within one call, two documents without ids never get the same generated id:
      a document without an id at position `p` of batch `j` is stored as
      `doc_{now}_{j * BatchSize}_{p}`. */
  lemma GeneratedIdsDistinct(docs: seq<InputDoc>, now: nat, j: nat, p: nat, j': nat, p': nat)
    requires j < NumBatches(|docs|) && p < |AcceptedDocs(BatchSlice(docs, j))|
    requires j' < NumBatches(|docs|) && p' < |AcceptedDocs(BatchSlice(docs, j'))|
    requires AcceptedDocs(BatchSlice(docs, j))[p].id.None?
    requires AcceptedDocs(BatchSlice(docs, j'))[p'].id.None?
    requires (j, p) != (j', p')
    ensures |Batches(docs, now)| == NumBatches(|docs|)
    ensures |Batches(docs, now)[j]| == |AcceptedDocs(BatchSlice(docs, j))|
    ensures |Batches(docs, now)[j']| == |AcceptedDocs(BatchSlice(docs, j'))|
    ensures Batches(docs, now)[j][p].id == GeneratedId(now, j * BatchSize, p)
    ensures Batches(docs, now)[j][p].id != Batches(docs, now)[j'][p'].id
  {
    BatchShape(docs, now, j);
    BatchShape(docs, now, j');
    var id := Batches(docs, now)[j][p].id;
    var id' := Batches(docs, now)[j'][p'].id;
    assert id == GeneratedId(now, j * BatchSize, p);
    assert id' == GeneratedId(now, j' * BatchSize, p');
    if id == id' {
      GeneratedIdInjective(now, j * BatchSize, p, j' * BatchSize, p');
      MulBatchSizeInjective(j, j');
      assert false;
    }
  }

  // ---------------------------------------------------------------------------
  // Search-result processing, as a specification

  /** The texts of a list of hits. */
  function TextsOf(hs: seq<Hit>): set<string> {
    set h | h in hs :: h.text
  }

  /** The hits whose text has not been seen before, in index order (the `seen_texts` loop). */
  function Dedup(hs: seq<Hit>): seq<Hit> {
    if hs == [] then []
    else
      var d := Dedup(hs[..|hs| - 1]);
      var h := hs[|hs| - 1];
      if h.text in TextsOf(d) then d else d + [h]
  }

  /** Hit `j` is the first one with its text. */
  predicate FirstOccurrence(hs: seq<Hit>, j: int) {
    0 <= j < |hs| && forall j' | 0 <= j' < j :: hs[j'].text != hs[j].text
  }

  /** Reference definition: the first occurrences among the first `n` hits, by index. */
  function FirstOccurrences(hs: seq<Hit>, n: nat): seq<Hit>
    requires n <= |hs|
  {
    if n == 0 then [] else FirstOccurrences(hs, n - 1) + (if FirstOccurrence(hs, n - 1) then [hs[n - 1]] else [])
  }

  /** `n_results` as the loop applies it: the break comes after an append, so at
      least one document is kept. */
  function Cap(n: int): nat {
    if n < 1 then 1 else n
  }

  /** The documents kept before the break. */
  function Candidates(hs: seq<Hit>, n: int): seq<Hit> {
    var d := Dedup(hs);
    d[..Min(|d|, Cap(n))]
  }

  /** The distance used for a hit: its own, or 0 when the "distances" key is absent. */
  function DistanceOf(h: Hit, hasDistances: bool): real {
    if hasDistances then h.distance else 0.0
  }

  function ToResult(h: Hit, hasDistances: bool): SearchResult {
    var d := DistanceOf(h, hasDistances);
    SearchResult(h.id, h.text, h.metadata, d, 1.0 - d)
  }

  function Scored(hs: seq<Hit>, hasDistances: bool): (rs: seq<SearchResult>)
    ensures |rs| == |hs|
  {
    seq(|hs|, k requires 0 <= k < |hs| => ToResult(hs[k], hasDistances))
  }

  predicate SortedByScore(rs: seq<SearchResult>) {
    forall i, j | 0 <= i < j < |rs| :: rs[i].relevanceScore >= rs[j].relevanceScore
  }

  /** Inserts `x` after every element scoring at least as high. */
  function InsertByScore(sorted: seq<SearchResult>, x: SearchResult): seq<SearchResult> {
    if sorted == [] then [x]
    else if sorted[0].relevanceScore >= x.relevanceScore then [sorted[0]] + InsertByScore(sorted[1..], x)
    else [x] + sorted
  }

  /** `list.sort(key=relevance_score, reverse=True)`: a stable sort, highest score first. */
  function SortByScore(rs: seq<SearchResult>): seq<SearchResult> {
    if rs == [] then [] else InsertByScore(SortByScore(rs[..|rs| - 1]), rs[|rs| - 1])
  }

  /** What `_process_search_results` returns. */
  function ProcessedResults(results: QueryResult, n: int): seq<SearchResult> {
    SortByScore(Scored(Candidates(results.hits, n), results.hasDistances))
  }

  predicate DistinctTexts(rs: seq<SearchResult>) {
    forall i, j | 0 <= i < j < |rs| :: rs[i].text != rs[j].text
  }

  // ---------------------------------------------------------------------------
  // Properties of search-result processing

  lemma {:induction false} DedupTexts(hs: seq<Hit>)
    ensures TextsOf(Dedup(hs)) == TextsOf(hs)
    ensures forall h | h in Dedup(hs) :: h in hs
  {
    if hs != [] {
      var p := hs[..|hs| - 1];
      DedupTexts(p);
      assert hs == p + [hs[|hs| - 1]];
      assert TextsOf(hs) == TextsOf(p) + {hs[|hs| - 1].text};
      var d := Dedup(p);
      assert TextsOf(d + [hs[|hs| - 1]]) == TextsOf(d) + {hs[|hs| - 1].text};
    }
  }

  /** The kept hits have pairwise different texts. */
  lemma {:induction false} DedupDistinct(hs: seq<Hit>)
    ensures forall i, j | 0 <= i < j < |Dedup(hs)| :: Dedup(hs)[i].text != Dedup(hs)[j].text
  {
    if hs != [] {
      var p := hs[..|hs| - 1];
      DedupDistinct(p);
      var d := Dedup(p);
      forall i | 0 <= i < |d| ensures d[i].text in TextsOf(d) { assert d[i] in d; }
    }
  }

  /** The dedup loop keeps exactly the first occurrence of each text, in index order. */
  lemma {:induction false} DedupIsFirstOccurrences(hs: seq<Hit>, n: nat)
    requires n <= |hs|
    ensures Dedup(hs[..n]) == FirstOccurrences(hs, n)
  {
    if n > 0 {
      DedupIsFirstOccurrences(hs, n - 1);
      var p := hs[..n - 1];
      var h := hs[n - 1];
      assert hs[..n][..n - 1] == p && hs[..n][n - 1] == h;
      var d := Dedup(p);
      assert Dedup(hs[..n]) == if h.text in TextsOf(d) then d else d + [h];
      DedupTexts(p);
      assert h.text in TextsOf(d) <==> !FirstOccurrence(hs, n - 1) by {
        if h.text in TextsOf(p) {
          var g :| g in p && g.text == h.text;
          var j' :| 0 <= j' < n - 1 && p[j'] == g;
          assert hs[j'].text == h.text;
        } else {
          forall j' | 0 <= j' < n - 1 ensures hs[j'].text != h.text {
            assert p[j'] in p;
          }
        }
      }
    }
  }

  /** The loop's view after `i` hits is a prefix of the whole dedup. */
  lemma {:induction false} DedupPrefix(hs: seq<Hit>, i: nat)
    requires i <= |hs|
    ensures |Dedup(hs[..i])| <= |Dedup(hs)| && Dedup(hs[..i]) == Dedup(hs)[..|Dedup(hs[..i])|]
    decreases |hs|
  {
    if i == |hs| {
      assert hs[..i] == hs;
    } else {
      var p := hs[..|hs| - 1];
      assert hs[..i] == p[..i];
      DedupPrefix(p, i);
    }
  }

  /** Inserting adds exactly `x`. */
  lemma {:induction false} InsertByScorePermutes(sorted: seq<SearchResult>, x: SearchResult)
    ensures multiset(InsertByScore(sorted, x)) == multiset(sorted) + multiset{x}
  {
    if sorted != [] && sorted[0].relevanceScore >= x.relevanceScore {
      InsertByScorePermutes(sorted[1..], x);
      assert sorted == [sorted[0]] + sorted[1..];
    }
  }

  /** An element of `InsertByScore(s, x)` other than `x` is in `s`. */
  lemma InsertByScoreMember(sorted: seq<SearchResult>, x: SearchResult, k: nat)
    requires k < |InsertByScore(sorted, x)|
    ensures InsertByScore(sorted, x)[k] == x || InsertByScore(sorted, x)[k] in sorted
  {
    InsertByScorePermutes(sorted, x);
    assert InsertByScore(sorted, x)[k] in multiset(InsertByScore(sorted, x));
  }

  lemma {:induction false} InsertByScoreSorted(sorted: seq<SearchResult>, x: SearchResult)
    requires SortedByScore(sorted)
    ensures SortedByScore(InsertByScore(sorted, x))
  {
    if sorted != [] {
      var r := InsertByScore(sorted, x);
      if sorted[0].relevanceScore >= x.relevanceScore {
        var tail := sorted[1..];
        assert SortedByScore(tail) by {
          forall i, j | 0 <= i < j < |tail| ensures tail[i].relevanceScore >= tail[j].relevanceScore {
            assert tail[i] == sorted[i + 1] && tail[j] == sorted[j + 1];
          }
        }
        InsertByScoreSorted(tail, x);
        var rest := InsertByScore(tail, x);
        assert r == [sorted[0]] + rest;
        forall k | 0 <= k < |rest| ensures sorted[0].relevanceScore >= rest[k].relevanceScore {
          InsertByScoreMember(tail, x, k);
          if rest[k] != x {
            var m :| 0 <= m < |tail| && tail[m] == rest[k];
            assert sorted[m + 1] == rest[k];
          }
        }
        forall i, j | 0 <= i < j < |r| ensures r[i].relevanceScore >= r[j].relevanceScore {
          assert r[j] == rest[j - 1];
          if i > 0 { assert r[i] == rest[i - 1]; }
        }
      } else {
        assert r == [x] + sorted;
        forall i, j | 0 <= i < j < |r| ensures r[i].relevanceScore >= r[j].relevanceScore {
          assert r[j] == sorted[j - 1];
          if i > 0 { assert r[i] == sorted[i - 1]; }
          else { assert sorted[0].relevanceScore >= sorted[j - 1].relevanceScore; }
        }
      }
    }
  }

  /** The sort yields a permutation ordered by non-increasing score. */
  lemma {:induction false} SortByScoreSpec(rs: seq<SearchResult>)
    ensures SortedByScore(SortByScore(rs))
    ensures multiset(SortByScore(rs)) == multiset(rs)
  {
    if rs != [] {
      var p := rs[..|rs| - 1];
      SortByScoreSpec(p);
      InsertByScoreSorted(SortByScore(p), rs[|rs| - 1]);
      InsertByScorePermutes(SortByScore(p), rs[|rs| - 1]);
      assert rs == p + [rs[|rs| - 1]];
    }
  }

  lemma {:induction false} InsertByScoreDistinct(sorted: seq<SearchResult>, x: SearchResult)
    requires DistinctTexts(sorted)
    requires forall k | 0 <= k < |sorted| :: sorted[k].text != x.text
    ensures DistinctTexts(InsertByScore(sorted, x))
  {
    if sorted != [] {
      var r := InsertByScore(sorted, x);
      if sorted[0].relevanceScore >= x.relevanceScore {
        var tail := sorted[1..];
        assert DistinctTexts(tail) by {
          forall i, j | 0 <= i < j < |tail| ensures tail[i].text != tail[j].text {
            assert tail[i] == sorted[i + 1] && tail[j] == sorted[j + 1];
          }
        }
        forall k | 0 <= k < |tail| ensures tail[k].text != x.text { assert tail[k] == sorted[k + 1]; }
        InsertByScoreDistinct(tail, x);
        var rest := InsertByScore(tail, x);
        assert r == [sorted[0]] + rest;
        forall k | 0 <= k < |rest| ensures sorted[0].text != rest[k].text {
          InsertByScoreMember(tail, x, k);
          if rest[k] != x {
            var m :| 0 <= m < |tail| && tail[m] == rest[k];
            assert sorted[m + 1] == rest[k];
          }
        }
        forall i, j | 0 <= i < j < |r| ensures r[i].text != r[j].text {
          assert r[j] == rest[j - 1];
          if i > 0 { assert r[i] == rest[i - 1]; }
        }
      } else {
        assert r == [x] + sorted;
        forall i, j | 0 <= i < j < |r| ensures r[i].text != r[j].text {
          assert r[j] == sorted[j - 1];
          if i > 0 { assert r[i] == sorted[i - 1]; }
        }
      }
    }
  }

  lemma {:induction false} SortByScoreDistinct(rs: seq<SearchResult>)
    requires DistinctTexts(rs)
    ensures DistinctTexts(SortByScore(rs))
  {
    if rs != [] {
      var p := rs[..|rs| - 1];
      var x := rs[|rs| - 1];
      assert DistinctTexts(p) by {
        forall i, j | 0 <= i < j < |p| ensures p[i].text != p[j].text {
          assert p[i] == rs[i] && p[j] == rs[j];
        }
      }
      SortByScoreDistinct(p);
      SortByScoreSpec(p);
      forall k | 0 <= k < |SortByScore(p)| ensures SortByScore(p)[k].text != x.text {
        var y := SortByScore(p)[k];
        assert y in multiset(p);
        var m :| 0 <= m < |p| && p[m] == y;
        assert rs[m] == y;
      }
      InsertByScoreDistinct(SortByScore(p), x);
    }
  }

  /** The processed results: at most `max(n, 1)` of them, the first occurrences of
      distinct texts, each scored 1 - distance, sorted by non-increasing score. */
  lemma ProcessedResultsSpec(results: QueryResult, n: int)
    ensures var out := ProcessedResults(results, n);
            && SortedByScore(out)
            && multiset(out) == multiset(Scored(Candidates(results.hits, n), results.hasDistances))
            && |out| == Min(|Dedup(results.hits)|, Cap(n))
            && DistinctTexts(out)
            && (forall r | r in out :: r.relevanceScore == 1.0 - r.distance)
            && (results.hits == [] <==> out == [])
  {
    var c := Candidates(results.hits, n);
    var s := Scored(c, results.hasDistances);
    SortByScoreSpec(s);
    DedupDistinct(results.hits);
    assert DistinctTexts(s) by {
      forall i, j | 0 <= i < j < |s| ensures s[i].text != s[j].text {
        assert s[i].text == c[i].text && s[j].text == c[j].text;
        assert c[i] == Dedup(results.hits)[i] && c[j] == Dedup(results.hits)[j];
      }
    }
    SortByScoreDistinct(s);
    var out := ProcessedResults(results, n);
    assert |out| == |multiset(out)| == |multiset(s)| == |s|;
    forall r | r in out ensures r.relevanceScore == 1.0 - r.distance {
      assert r in multiset(s);
      var k :| 0 <= k < |s| && s[k] == r;
    }
    if results.hits != [] {
      assert results.hits[..1] == [results.hits[0]];
      assert Dedup(results.hits[..1]) == [results.hits[0]];
      DedupPrefix(results.hits, 1);
    }
  }

  /** One more hit extends the dedup by that hit exactly when its text is new. */
  lemma DedupSnoc(hs: seq<Hit>, i: nat)
    requires i < |hs|
    ensures Dedup(hs[..i + 1]) == if hs[i].text in TextsOf(Dedup(hs[..i])) then Dedup(hs[..i]) else Dedup(hs[..i]) + [hs[i]]
    ensures TextsOf(Dedup(hs[..i + 1])) == TextsOf(Dedup(hs[..i])) + {hs[i].text}
  {
    assert hs[..i + 1][..i] == hs[..i];
    var d := Dedup(hs[..i]);
    assert TextsOf(d + [hs[i]]) == TextsOf(d) + {hs[i].text};
  }

  lemma ScoredSnoc(hs: seq<Hit>, h: Hit, hasDistances: bool)
    ensures Scored(hs + [h], hasDistances) == Scored(hs, hasDistances) + [ToResult(h, hasDistances)]
  {
  }

  /** Where the dedup loop stops, it has kept exactly the candidates. */
  lemma CandidatesAtStop(hs: seq<Hit>, i: nat, n: int)
    requires i <= |hs|
    requires (i == |hs| && |Dedup(hs)| <= Cap(n)) || |Dedup(hs[..i])| == Cap(n)
    ensures Candidates(hs, n) == Dedup(hs[..i])
  {
    DedupPrefix(hs, i);
    if i == |hs| { assert hs[..i] == hs; }
  }

  /** `_process_search_results`. */
  method ProcessSearchResults(results: QueryResult, nResults: int) returns (documents: seq<SearchResult>)
    ensures documents == ProcessedResults(results, nResults)
  {
    var hits := results.hits;
    if hits == [] {
      return [];
    }
    documents := [];
    var seenTexts: set<string> := {};
    var i := 0;
    assert hits[..0] == [];
    while i < |hits|
      invariant 0 <= i <= |hits|
      invariant documents == Scored(Dedup(hits[..i]), results.hasDistances)
      invariant seenTexts == TextsOf(Dedup(hits[..i]))
      invariant |documents| < Cap(nResults)
    {
      var hit := hits[i];
      DedupSnoc(hits, i);
      if hit.text in seenTexts {
        i := i + 1;
        continue;
      }
      seenTexts := seenTexts + {hit.text};
      var distance := if results.hasDistances then hit.distance else 0.0;
      var similarity := 1.0 - distance;
      ScoredSnoc(Dedup(hits[..i]), hit, results.hasDistances);
      documents := documents + [SearchResult(hit.id, hit.text, hit.metadata, distance, similarity)];
      i := i + 1;
      if |documents| >= nResults {
        break;
      }
    }
    DedupPrefix(hits, i);
    assert i == |hits| ==> hits[..i] == hits;
    CandidatesAtStop(hits, i, nResults);
    documents := SortByScore(documents);
  }

  /** `search_with_embedding`, given what the filtered query and the fallback query
      do. Returns the results and the queries it sent, in order. */
  method SearchWithEmbedding(embedding: seq<real>, ministry: Option<string>, nResults: int,
                             filtered: QueryOutcome, fallback: QueryOutcome)
    returns (documents: seq<SearchResult>, queries: seq<Query>)
    ensures 1 <= |queries| <= 2
    ensures queries[0] == Query(embedding, 2 * nResults, if Truthy(ministry) then ministry else None)
    ensures |queries| == 1 <==> filtered.Returned? && filtered.result.hits != []
    ensures |queries| == 1 ==> documents == ProcessedResults(filtered.result, nResults)
    ensures |queries| == 2 ==> queries[1] == Query(embedding, 2 * nResults, None)
    ensures |queries| == 2 ==> documents == if fallback.Raised? then [] else ProcessedResults(fallback.result, nResults)
  {
    var whereClause := if Truthy(ministry) then ministry else None;
    queries := [Query(embedding, nResults * 2, whereClause)];
    if filtered.Returned? && filtered.result.hits != [] {
      documents := ProcessSearchResults(filtered.result, nResults);
      return;
    }
    queries := queries + [Query(embedding, nResults * 2, None)];
    if fallback.Raised? {
      return [], queries;
    }
    documents := ProcessSearchResults(fallback.result, nResults);
  }

  /** When the filtered query raises or finds nothing, the search still returns
      up to `n` distinct unfiltered results whenever the fallback has hits. */
  lemma FallbackReturnsUnfilteredResults(filtered: QueryOutcome, fallback: QueryResult, n: int)
    requires filtered.Raised? || filtered.result.hits == []
    requires fallback.hits != []
    ensures var out := ProcessedResults(fallback, n);
            |out| == Min(|Dedup(fallback.hits)|, Cap(n)) && out != [] &&
            forall r | r in out :: exists h | h in fallback.hits :: h.text == r.text && h.metadata == r.metadata
  {
    ProcessedResultsSpec(fallback, n);
    var out := ProcessedResults(fallback, n);
    var c := Candidates(fallback.hits, n);
    DedupTexts(fallback.hits);
    forall r | r in out ensures exists h | h in fallback.hits :: h.text == r.text && h.metadata == r.metadata {
      assert r in multiset(Scored(c, fallback.hasDistances));
      var k :| 0 <= k < |c| && Scored(c, fallback.hasDistances)[k] == r;
      assert c[k] in Dedup(fallback.hits);
    }
  }

  // ---------------------------------------------------------------------------
  // The registry rebuilt from stored metadata

  /** The "ministry" values of the stored metadatas that have one. */
  function MinistriesIn(records: seq<Record>): set<Value> {
    if records == [] then {}
    else
      var last := records[|records| - 1];
      MinistriesIn(records[..|records| - 1]) + (if "ministry" in last.metadata then {last.metadata["ministry"]} else {})
  }

  /** A value is in the rebuilt registry exactly when some stored record carries it as "ministry". */
  lemma {:induction false} MinistriesInSpec(records: seq<Record>, v: Value)
    ensures v in MinistriesIn(records) <==>
            exists k | 0 <= k < |records| :: "ministry" in records[k].metadata && records[k].metadata["ministry"] == v
  {
    if records != [] {
      var p := records[..|records| - 1];
      MinistriesInSpec(p, v);
      if v in MinistriesIn(p) {
        var k :| 0 <= k < |p| && "ministry" in p[k].metadata && p[k].metadata["ministry"] == v;
        assert records[k] == p[k];
      }
      if exists k | 0 <= k < |records| :: "ministry" in records[k].metadata && records[k].metadata["ministry"] == v {
        var k :| 0 <= k < |records| && "ministry" in records[k].metadata && records[k].metadata["ministry"] == v;
        if k < |p| { assert p[k] == records[k]; }
      }
    }
  }

  function MarkSet(ministry: Option<string>): set<Value> {
    if Truthy(ministry) then {Str(ministry.value)} else {}
  }

  /** One pass of the per-document loop of `add_documents`: whether `doc` is
      stored and, when it is, the record appended for it as the `position`-th
      entry of the slice starting at document `offset`. */
  method PrepareEntry(doc: InputDoc, ministry: Option<string>, now: nat, offset: nat, position: nat)
    returns (accepted: bool, entry: Record)
    ensures accepted == Accepted(doc)
    ensures accepted ==> entry == Entry(doc, now, offset, position)
  {
    entry := Record("", "", map[]);
    if !doc.Doc? || doc.text.None? {
      return false, entry;
    }
    var text := Strip(doc.text.value);
    if text == "" {
      return false, entry;
    }
    var metadata := CleanMetadata(doc.metadata);
    CleanedHasMinistry(doc.metadata);
    match ministry {
      case Some(m) =>
        if m != "" && "ministry" !in metadata {
          metadata := metadata["ministry" := Str(m)];
        }
      case None =>
    }
    var docId := if doc.id.Some? then doc.id.value else GeneratedId(now, offset, position);
    return true, Record(docId, text, metadata);
  }

  /** The per-slice body of `add_documents`: the parallel id, text and metadata
      lists for one slice starting at document `offset`. */
  method PrepareBatch(batch: seq<InputDoc>, ministry: Option<string>, now: nat, offset: nat)
    returns (ids: seq<string>, texts: seq<string>, metadatas: seq<Metadata>)
    ensures |ids| == |texts| == |metadatas|
    ensures Zip(ids, texts, metadatas) == BatchEntries(batch, now, offset)
  {
    ids, texts, metadatas := [], [], [];
    var b := 0;
    assert batch[..0] == [];
    while b < |batch|
      invariant 0 <= b <= |batch|
      invariant |ids| == |texts| == |metadatas|
      invariant Zip(ids, texts, metadatas) == BatchEntries(batch[..b], now, offset)
    {
      var accepted, entry := PrepareEntry(batch[b], ministry, now, offset, |ids|);
      BatchEntriesSnoc(batch, now, offset, b);
      b := b + 1;
      if !accepted {
        continue;
      }
      ZipSnoc(ids, texts, metadatas, entry);
      ids := ids + [entry.id];
      texts := texts + [entry.text];
      metadatas := metadatas + [entry.metadata];
    }
    assert batch[..b] == batch;
  }

  /** The vector store object: the collection, the in-memory registry and its file. */
  class VectorStore {
    var collection: seq<Record>
    var indexedMinistries: set<Value>
    var registryFile: RegistryFile

    /** `__init__`: opens the collection and loads the registry; `scanRaises`
        is whether `collection.get()` raises should the collection be scanned.
        A scan is saved, and the save as written leaves the file unreadable. */
    constructor (stored: seq<Record>, file: RegistryFile, scanRaises: bool)
      ensures collection == stored
      ensures file.Present? ==> registryFile == file &&
                                indexedMinistries == if file.ministries.Some? then file.ministries.value else {}
      ensures file.Unreadable? ==> registryFile == file && indexedMinistries == {}
      ensures file.Missing? && (scanRaises || stored == []) ==> registryFile == Missing && indexedMinistries == {}
      ensures file.Missing? && !scanRaises && stored != [] ==>
                indexedMinistries == MinistriesIn(stored) && registryFile == Unreadable
    {
      collection := stored;
      indexedMinistries := {};
      registryFile := file;
      new;
      LoadIndexedMinistries(scanRaises);
    }

    /** `_save_indexed_ministries` as written: the file is opened for writing,
        which empties it, and building the JSON object then raises on
        `Config.CURRENT_USER`, which the configuration never defines; the
        error is logged. The file is left empty, so it no longer parses. */
    method SaveIndexedMinistries()
      modifies this
      ensures registryFile == Unreadable
      ensures collection == old(collection) && indexedMinistries == old(indexedMinistries)
    {
      registryFile := Unreadable;
    }

    /** `_save_indexed_ministries` as evidently intended, with a defined user
        name: the file holds the in-memory registry under "ministries". */
    method SaveIndexedMinistriesIntended()
      modifies this
      ensures registryFile == Present(Some(indexedMinistries))
      ensures collection == old(collection) && indexedMinistries == old(indexedMinistries)
    {
      registryFile := Present(Some(indexedMinistries));
    }

    /** `_load_indexed_ministries`: the file when it exists, else a scan of the
        stored metadatas, which is then saved. A file that does not parse and a
        raising `collection.get()` are logged and leave the registry as it was. */
    method LoadIndexedMinistries(scanRaises: bool)
      modifies this
      ensures collection == old(collection)
      ensures old(registryFile).Present? ==>
                registryFile == old(registryFile) &&
                indexedMinistries == if old(registryFile).ministries.Some?
                                     then old(registryFile).ministries.value else old(indexedMinistries)
      ensures old(registryFile).Unreadable? ==>
                registryFile == old(registryFile) && indexedMinistries == old(indexedMinistries)
      ensures old(registryFile).Missing? && (scanRaises || collection == []) ==>
                registryFile == Missing && indexedMinistries == old(indexedMinistries)
      ensures old(registryFile).Missing? && !scanRaises && collection != [] ==>
                indexedMinistries == old(indexedMinistries) + MinistriesIn(collection) &&
                registryFile == Unreadable
    {
      match registryFile
      case Present(ministries) =>
        if ministries.Some? {
          indexedMinistries := ministries.value;
        }
      case Unreadable =>
      case Missing =>
        if scanRaises {
          return;
        }
        var metadatas := collection;
        if metadatas == [] {
          return;
        }
        var k := 0;
        while k < |metadatas|
          invariant 0 <= k <= |metadatas|
          invariant collection == metadatas && registryFile == Missing
          invariant indexedMinistries == old(indexedMinistries) + MinistriesIn(metadatas[..k])
        {
          var metadata := metadatas[k].metadata;
          assert metadatas[..k + 1][..k] == metadatas[..k];
          if "ministry" in metadata {
            indexedMinistries := indexedMinistries + {metadata["ministry"]};
          }
          k := k + 1;
        }
        assert metadatas[..k] == metadatas;
        SaveIndexedMinistries();
    }

    /** `is_ministry_indexed` */
    predicate IsMinistryIndexed(ministry: string)
      reads this
    {
      Str(ministry) in indexedMinistries
    }

    /** `add_ministry_to_indexed`: an idempotent insert, then a save. */
    method AddMinistryToIndexed(ministry: string)
      modifies this
      ensures indexedMinistries == old(indexedMinistries) + {Str(ministry)}
      ensures IsMinistryIndexed(ministry)
      ensures old(IsMinistryIndexed(ministry)) ==> indexedMinistries == old(indexedMinistries)
      ensures registryFile == Unreadable && collection == old(collection)
    {
      indexedMinistries := indexedMinistries + {Str(ministry)};
      SaveIndexedMinistries();
    }

    /** One `collection.add(ids=..., documents=..., metadatas=...)` call: three
        parallel, non-empty lists of at most `BatchSize` entries. */
    method CollectionAdd(ids: seq<string>, texts: seq<string>, metadatas: seq<Metadata>)
      requires |ids| == |texts| == |metadatas|
      requires 0 < |ids| <= BatchSize
      modifies this
      ensures collection == old(collection) + Zip(ids, texts, metadatas)
      ensures indexedMinistries == old(indexedMinistries) && registryFile == old(registryFile)
    {
      collection := collection + Zip(ids, texts, metadatas);
    }

    /** One slice of `add_documents`: collects its records and, when there are
        any, sends them in one `collection.add`, which raises when `raises`.
        Returns how many were added and whether it raised. */
    method AddBatch(batch: seq<InputDoc>, ministry: Option<string>, now: nat, offset: nat, raises: bool)
      returns (added: nat, raised: bool)
      requires |batch| <= BatchSize
      modifies this
      ensures raised <==> raises && BatchEntries(batch, now, offset) != []
      ensures raised ==> collection == old(collection) && added == 0
      ensures !raised ==> collection == old(collection) + BatchEntries(batch, now, offset) &&
                          added == |BatchEntries(batch, now, offset)|
      ensures indexedMinistries == old(indexedMinistries) && registryFile == old(registryFile)
    {
      var ids, texts, metadatas := PrepareBatch(batch, ministry, now, offset);
      added, raised := 0, false;
      if texts != [] {
        if raises {
          return 0, true;
        }
        CollectionAdd(ids, texts, metadatas);
        added := |texts|;
      }
    }

    /** The slicing loop of `add_documents`: every slice of `BatchSize` documents
        in turn, up to the first that raises (`raises(j)` for slice `j`).
        Returns `total_added` and whether a slice raised. */
    method StoreBatches(documents: seq<InputDoc>, ministry: Option<string>, now: nat, raises: nat -> bool)
      returns (totalAdded: nat, raised: bool)
      modifies this
      ensures raised <==> FirstRaise(documents, now, raises) < NumBatches(|documents|)
      ensures collection == old(collection) + Flatten(BatchesUpTo(documents, now, FirstRaise(documents, now, raises)))
      ensures totalAdded == |Flatten(BatchesUpTo(documents, now, FirstRaise(documents, now, raises)))|
      ensures indexedMinistries == old(indexedMinistries) && registryFile == old(registryFile)
    {
      totalAdded, raised := 0, false;
      var i := 0;
      var j := 0;
      while i < |documents|
        invariant i == j * BatchSize && j <= NumBatches(|documents|)
        invariant forall k | 0 <= k < j :: !SliceRaises(documents, now, raises, k)
        invariant collection == old(collection) + Flatten(BatchesUpTo(documents, now, j))
        invariant totalAdded == |Flatten(BatchesUpTo(documents, now, j))|
        invariant indexedMinistries == old(indexedMinistries) && registryFile == old(registryFile)
      {
        NumBatchesBound(|documents|, j);
        var batch := documents[i..Min(i + BatchSize, |documents|)];
        assert batch == BatchSlice(documents, j);
        ghost var stored := Flatten(BatchesUpTo(documents, now, j));
        var added, batchRaised := AddBatch(batch, ministry, now, i, raises(j));
        if batchRaised {
          FirstRaiseIs(documents, now, raises, j);
          return totalAdded, true;
        }
        totalAdded := totalAdded + added;
        BatchesUpToSnoc(documents, now, j);
        assert old(collection) + stored + BatchEntries(batch, now, i) ==
               old(collection) + (stored + BatchEntries(batch, now, i));
        i := i + BatchSize;
        j := j + 1;
      }
      NumBatchesBound(|documents|, j);
      FirstRaiseIs(documents, now, raises, j);
    }

    /** `add_documents`: stores the accepted documents slice by slice and marks a
        truthy `ministry` as indexed. Returns `total_added`, which the source
        logs, and whether a slice raised: the exception is re-raised after the
        earlier slices were stored, and the ministry is not marked. */
    method AddDocuments(documents: seq<InputDoc>, ministry: Option<string>, now: nat, raises: nat -> bool)
      returns (totalAdded: nat, raised: bool)
      modifies this
      ensures documents == [] ==>
                !raised && collection == old(collection) && indexedMinistries == old(indexedMinistries) &&
                registryFile == old(registryFile)
      ensures raised <==> FirstRaise(documents, now, raises) < NumBatches(|documents|)
      ensures raised ==>
                collection == old(collection) + Flatten(BatchesUpTo(documents, now, FirstRaise(documents, now, raises))) &&
                indexedMinistries == old(indexedMinistries) && registryFile == old(registryFile)
      ensures documents != [] && !raised ==> collection == old(collection) + StoredRecords(documents, now)
      ensures documents != [] && !raised ==> indexedMinistries == old(indexedMinistries) + MarkSet(ministry)
      ensures documents != [] && !raised ==>
                registryFile == if Truthy(ministry) then Unreadable else old(registryFile)
      ensures !raised ==> totalAdded == |AcceptedDocs(documents)| == |StoredRecords(documents, now)|
    {
      totalAdded, raised := 0, false;
      if documents == [] {
        return;
      }
      totalAdded, raised := StoreBatches(documents, ministry, now, raises);
      if raised {
        return;
      }
      StoredRecordsCount(documents, now);
      match ministry {
        case Some(m) =>
          if m != "" {
            AddMinistryToIndexed(m);
          }
        case None =>
      }
    }

    /** `clear`: the registry is emptied and saved only when the collection delete
        succeeded; otherwise nothing changes. */
    method Clear(deleteSucceeds: bool)
      modifies this
      ensures deleteSucceeds ==>
                collection == [] && indexedMinistries == {} && registryFile == Unreadable
      ensures !deleteSucceeds ==>
                collection == old(collection) && indexedMinistries == old(indexedMinistries) &&
                registryFile == old(registryFile)
    {
      if !deleteSucceeds {
        return;
      }
      collection := [];
      indexedMinistries := {};
      SaveIndexedMinistries();
    }
  }

  /** As written, the registry does not survive a restart: a store that scanned
      a non-empty collection holds its ministries, and a store opened next on
      the same collection and the file the scan left holds none, and does not
      scan again. */
  method ReopenAfterScan(stored: seq<Record>) returns (first: set<Value>, second: set<Value>)
    requires stored != []
    ensures first == MinistriesIn(stored) && second == {}
  {
    var store := new VectorStore(stored, Missing, false);
    first := store.indexedMinistries;
    var reopened := new VectorStore(store.collection, store.registryFile, false);
    second := reopened.indexedMinistries;
  }

  /** With the intended save the registry survives a restart: the store opened
      next reads back exactly the set that was saved. */
  method ReopenAfterIntendedSave(stored: seq<Record>, scanRaises: bool) returns (first: set<Value>, second: set<Value>)
    ensures first == if scanRaises then {} else MinistriesIn(stored)
    ensures second == first
  {
    var store := new VectorStore(stored, Missing, scanRaises);
    store.SaveIndexedMinistriesIntended();
    first := store.indexedMinistries;
    var reopened := new VectorStore(store.collection, store.registryFile, false);
    second := reopened.indexedMinistries;
  }
}
