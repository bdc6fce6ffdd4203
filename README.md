# Sansad parliamentary Q&A: indexing and retrieval bookkeeping in Dafny

This project models the deterministic core of a retrieval-augmented question
answering system for India's parliament (Sansad).

The system does four things:
- It fetches parliamentary questions and their PDF answers.
- It files the PDFs by ministry.
- It splits their text into chunks and stores the chunks in a vector database.
- It answers a user's question in the voice of a ministry, from retrieved chunks.

The model covers the bookkeeping around the external libraries:
- the vector store wrapper: metadata cleaning, the batched add path, result
  de-duplication and ranking, the filtered-then-unfiltered search fallback, and
  the registry of indexed ministries;
- the chunk-to-document assembly of the document processor and its set of
  processed files;
- the PDF link normalisation and the response filtering of the Sansad API client;
- the directory-name sanitising of the configuration;
- the string and word-set logic of the ministry classifier;
- the prompt assembly and the refusal detection of the answer generator;
- the per-ministry PDF count ledger and the index build loop of the database
  creation script;
- the filename-to-ministry grouping loop of the PDF indexing script.

## How it is modelled

Each source file is one Dafny module. `Strings`, `Values` and `Seqs` hold the shared helpers.

- **Python's string operations** are written out: `strip`, `lower`, `split`, `in`,
  `startswith`, `find`, `count` and `replace`. `Values.Value` stands for a JSON or
  metadata value.
- **Stateful objects** are classes. Their mutated fields are Dafny fields:
  - `VectorStore.VectorStore` holds the collection as a sequence of records, the
    registry set and the registry file.
  - `DocumentProcessor.DocumentProcessor` holds the processed-file set.
  - `MinistryDatabase.MinistryDatabaseCreator` holds the count dictionary, as an
    insertion-ordered key list plus a map, and the statistics.
- **Loops** are methods with loop invariants. Each is proved equal to a recursive
  specification function, and the properties the source promises are lemmas about
  those functions.
- **External calls become inputs**, each marked by an explicit parameter:
  - query results, and whether a query raised;
  - the text splitter's chunks;
  - the PDF loader's pages;
  - directory globs;
  - whether a `collection.add` or `collection.get` raised, and whether the indexing script's `add_documents` raised for a group;
  - whether a copy succeeded, in the corrected redistribution;
  - the clock;
  - id hashing.
- **The configured ministry list** (`Config.MINISTRIES`) is a `ministries`
  parameter wherever the source iterates it.

Four observations come straight from the code:
- **The `ministry` argument of `add_documents` is never stored.** Metadata
  cleaning always inserts a `"ministry"` key, so the check at
  src/vector_store.py:182 never fires. The stored ministry is the document's own
  value or "Unknown Ministry" (`VectorStore.StoredRecordShape`).
- **The registry file is never written.** `_save_indexed_ministries` opens the
  file for writing and then reads `Config.CURRENT_USER`, which the configuration
  never defines. The error is swallowed and the file is left empty. The next
  start cannot parse it, keeps an empty registry and does not rescan
  (`VectorStore.ReopenAfterScan`). See "## Findings".
- **`_redistribute_pdfs` never updates a count.** Every copy attempt raises on
  the undefined `Config.CURRENT_TIME`, after `shutil.copy2` has run and before the
  counts move. Each attempt is counted as an error
  (`MinistryDatabase.RedistributePdfsAsWrittenSpec`). See "## Findings".
  The failure is latent in the script itself. `classify_pdfs` assigns no count,
  and the counts are only ever written at construction (all 0) and in that
  failing copy loop. So when `create_database` reaches `verify_distribution`,
  no ministry has more than 10 PDFs, there is no donor, and the copy loop is
  never entered (`MinistryDatabase.ClassifyThenVerify`). It would only fail for
  a creator whose counts some other caller had set above 10.
- **The intended redistribution copies files but decrements the donor's
  count.** A donor's count can therefore fall to zero. A drained donor then
  counts as empty (`MinistryDatabase.StillEmpty`).

The stateful classes follow the code as written. The corrected save
(`VectorStore.VectorStore.SaveIndexedMinistriesIntended`) and the corrected
ledger functions (`MinistryDatabase.Copies`, `MinistryDatabase.RedistributePdfs`)
sit beside them, each with the property it was evidently meant to have proved.

## Model

| member | source | states |
|---|---|---|
| VectorStore.CleanValue | src/vector_store.py:217-222 | a stored value is always a primitive, and a primitive value is kept unchanged |
| VectorStore.CleanedSpec | src/vector_store.py:208-228 | every key whose value is not None is kept, with its value cleaned; no other key appears except "ministry"; every value is a primitive; "ministry" is always present, holding the input's non-None ministry (cleaned) or "Unknown Ministry" |
| VectorStore.CleanedHasMinistry | src/vector_store.py:224-226 | the cleaned metadata always has a "ministry" key |
| VectorStore.CleanedIdempotent | src/vector_store.py:208-228 | cleaning already-cleaned metadata changes nothing |
| VectorStore.CleanMetadata | src/vector_store.py:208-228 | the dict-filling loop returns exactly the cleaned metadata |
| VectorStore.AcceptedDocs | src/vector_store.py:170-176 | the accepted documents are no more than the input, and each is a dict whose "text" is non-empty once stripped |
| VectorStore.BatchSlice | src/vector_store.py:163-164 | every slice holds between 1 and 100 documents |
| VectorStore.NumBatchesBound | src/vector_store.py:163 | slice j exists exactly when its offset j*100 lies inside the input |
| VectorStore.StoresBatch | src/vector_store.py:170-190 | a batch's records correspond one to one, in order, to its accepted documents: the stripped text, the cleaned metadata, and the given id or a generated one |
| VectorStore.AcceptedDocsConcat | src/vector_store.py:163-172 | filtering documents distributes over concatenation, so slicing does not change which documents are accepted |
| VectorStore.BatchesUpToStore | src/vector_store.py:163-196 | the first j slices store exactly the accepted documents of the first j*100 inputs |
| VectorStore.StoredRecordsAreAccepted | src/vector_store.py:160-196 | one add_documents call stores one record per accepted document, in input order |
| VectorStore.StoredRecordsCount | src/vector_store.py:192-196 | the number of stored records equals the number of accepted documents |
| VectorStore.StoredRecordShape | src/vector_store.py:170-190 | every stored text is non-empty and stripped; the stored ministry is the document's own non-None value (cleaned) or "Unknown Ministry", never the ministry argument |
| VectorStore.BatchShape | src/vector_store.py:163-194 | there are ceil(n/100) slices, and slice j adds at most 100 records, one per accepted document among inputs j*100 .. j*100+99 |
| VectorStore.GeneratedIdInjective | src/vector_store.py:186 | `doc_{t}_{i}_{k}` determines the slice offset i and the position k |
| VectorStore.GeneratedIdsDistinct | src/vector_store.py:186 | two different accepted documents without ids get different generated ids within one call |
| VectorStore.DedupTexts | src/vector_store.py:274-285 | de-duplication keeps the set of texts and keeps only hits of the input |
| VectorStore.DedupDistinct | src/vector_store.py:281-285 | after de-duplication no two hits share a text |
| VectorStore.DedupIsFirstOccurrences | src/vector_store.py:276-285 | de-duplication keeps exactly the first occurrence of each text, in index order |
| VectorStore.DedupPrefix | src/vector_store.py:276-304 | stopping the scan early yields a prefix of the full de-duplicated list |
| VectorStore.InsertByScorePermutes | src/vector_store.py:307 | inserting a result adds exactly that element to the multiset |
| VectorStore.InsertByScoreSorted | src/vector_store.py:307 | inserting into a list sorted by descending relevance keeps it sorted |
| VectorStore.SortByScoreSpec | src/vector_store.py:307 | the sort gives a permutation of its input, ordered by non-increasing relevance score |
| VectorStore.SortByScoreDistinct | src/vector_store.py:307 | sorting keeps distinct texts distinct |
| VectorStore.ProcessedResultsSpec | src/vector_store.py:266-309 | the output is sorted by non-increasing score; it is a permutation of the first min(unique, max(n,1)) unique-text hits; no two outputs share a text; score = 1 − distance; the output is empty exactly when there are no hits |
| VectorStore.ProcessSearchResults | src/vector_store.py:266-309 | the de-duplicating loop with its early break, followed by the sort, computes exactly the specified results |
| VectorStore.SearchWithEmbedding | src/vector_store.py:230-264 | the first query asks for 2·n results under a ministry filter, and no filter for a falsy ministry; a second, unfiltered query of 2·n happens exactly when the first raised or returned no ids; a raising fallback yields [] |
| VectorStore.FallbackReturnsUnfilteredResults | src/vector_store.py:253-260 | after a failed filtered query, a non-empty fallback result gives a non-empty answer, each entry carrying the text and metadata of a fallback hit |
| VectorStore.MinistriesInSpec | src/vector_store.py:91-94 | a value is in the scanned set exactly when some stored metadata has it under "ministry" |
| VectorStore.PrepareEntry | src/vector_store.py:170-190 | a document passes the filters exactly when it is accepted, and then yields its specified record |
| VectorStore.PrepareBatch | src/vector_store.py:166-190 | the inner loop builds three equal-length lists that zip to the batch's specified records |
| VectorStore.VectorStore.constructor | src/vector_store.py:20-26 | the registry comes from the file when it exists (a file that does not parse, or has no "ministries", gives {}); with no file, it stays {} and the file stays missing when the collection is empty or `collection.get()` raises; otherwise it is the scanned set, and the save leaves the file unparseable |
| VectorStore.VectorStore.SaveIndexedMinistries | src/vector_store.py:109-129 | as written: the file is emptied and the error on CURRENT_USER is swallowed, so the file no longer parses; the registry and the collection are unchanged |
| VectorStore.VectorStore.SaveIndexedMinistriesIntended | src/vector_store.py:109-123 | as intended: the file holds exactly the in-memory registry under "ministries" |
| VectorStore.VectorStore.LoadIndexedMinistries | src/vector_store.py:64-107 | the file branch (an unparseable file changes nothing); without a file, a raising `collection.get()` or an empty collection changes nothing, and otherwise every stored "ministry" value is added and the save leaves the file unparseable |
| VectorStore.VectorStore.AddMinistryToIndexed | src/vector_store.py:132-139 | an idempotent set insert that changes nothing else, after which is_ministry_indexed holds; the save leaves the file unparseable |
| VectorStore.VectorStore.CollectionAdd | src/vector_store.py:192-194 | each collection.add call receives three equal-length lists holding 1 to 100 entries |
| VectorStore.VectorStore.AddBatch | src/vector_store.py:164-196 | a slice with records either raises and stores nothing, or appends them all and returns their number; a slice without records sends nothing |
| VectorStore.VectorStore.StoreBatches | src/vector_store.py:159-196 | the slicing loop appends exactly the records of the slices before the first one that raises, reports whether one raised, and total_added counts what was appended |
| VectorStore.VectorStore.AddDocuments | src/vector_store.py:149-206 | an empty list changes nothing; a raising slice is re-raised, leaving the earlier slices stored and the registry and its file unchanged; otherwise every accepted document is stored and a truthy ministry is marked indexed, even when nothing was accepted, with the save leaving the file unparseable; the count equals the accepted documents |
| VectorStore.PartialStore | src/vector_store.py:159-206 | a call stopped at a slice has stored a prefix of what the whole call stores: exactly the accepted documents of the slices before it |
| VectorStore.VectorStore.Clear | src/vector_store.py:329-337 | after a successful delete the collection and the registry are empty and the save leaves the file unparseable; when the delete raises nothing changes |
| VectorStore.ReopenAfterScan | src/vector_store.py:64-130 | as written: a store that scanned a non-empty collection holds its ministries, and the next store opened on that collection and the file the scan left holds none and does not rescan |
| VectorStore.ReopenAfterIntendedSave | src/vector_store.py:64-123 | with the intended save, the next store opened reads back exactly the set that was saved |
| DocumentProcessor.Basename | src/document_processor.py:35 | a base name holds no '/' |
| DocumentProcessor.NonBlankSpec | src/document_processor.py:67-69 | the kept chunk positions increase strictly and are exactly the chunks that are not blank |
| DocumentProcessor.ChunkMetadataSpec | src/document_processor.py:76-83 | the chunk keys (chunk_index, total_chunks, source, filename, processed_at) override the caller's keys; all other caller keys are kept |
| DocumentProcessor.ChunkDocumentsSpec | src/document_processor.py:67-88 | one document per non-blank chunk, in order: the stripped non-empty text, the chunk's original index, total_chunks ≥ the number emitted, and distance and relevance 0.0 |
| DocumentProcessor.ProcessAllNames | src/document_processor.py:35-90 | after a run the processed set is the old set plus the base names of the files that produced text |
| DocumentProcessor.ProcessAllNothingNew | src/document_processor.py:35-38 | files whose base names are all processed already yield nothing and change nothing |
| DocumentProcessor.ProcessAllTwice | src/document_processor.py:35-38 | processing the same files a second time yields no documents |
| DocumentProcessor.ProcessAllConcat | src/document_processor.py:156-167 | processing a + b equals processing a and then b, with the outputs concatenated in order |
| DocumentProcessor.ProcessAllKeepsKey | src/document_processor.py:76-77 | a key other than the chunk keys, present in every caller metadata, reaches every emitted document |
| DocumentProcessor.ProcessAllSources | src/document_processor.py:80-81 | every emitted document names its source path and the base name of one of the input files |
| DocumentProcessor.MinistryMetadataSpec | src/document_processor.py:126-140 | ministry, date "Unknown", session "4" and the pdf_url path are defaults; keys from the sibling .json override them, ministry included |
| DocumentProcessor.FileItemsTagged | src/document_processor.py:159-164 | every document from process_pdf_files carries the given ministry |
| DocumentProcessor.SplitIntoDocuments | src/document_processor.py:67-88 | the chunk loop builds exactly the specified documents |
| DocumentProcessor.DocumentProcessor.constructor | src/document_processor.py:16-23 | the processed set starts empty |
| DocumentProcessor.DocumentProcessor.ProcessPdf | src/document_processor.py:25-99 | a missing file, an already processed base name, no pages, or blank text yield []; otherwise the chunk documents are returned and the base name is added only after the loop |
| DocumentProcessor.DocumentProcessor.ProcessAndExtend | src/document_processor.py:142-145 | one step of the file loop extends the documents and the processed set as specified |
| DocumentProcessor.DocumentProcessor.ProcessMinistryPdfs | src/document_processor.py:105-154 | a missing directory yields []; otherwise the concatenated outputs for the directory's files, in order, each with the ministry defaults |
| DocumentProcessor.DocumentProcessor.ProcessPdfFiles | src/document_processor.py:156-167 | the concatenated per-file outputs, in input order, each file tagged with the ministry, its base name and its path |
| SansadClient.SiteUrlIsHttp | src/sansad_client.py:40-48 | a link completed with the Sansad domain starts with "http" |
| SansadClient.FormatPdfUrlIsHttp | src/sansad_client.py:26-48 | the result is "" exactly when the input is "", and every other input gives a link starting with "http" |
| SansadClient.FormatPdfUrlKeepsFullLinks | src/sansad_client.py:32-37 | a full http link without "localhost" is returned unchanged |
| SansadClient.FormattedLocalLinks | src/sansad_client.py:32-33 | a formatted link that still contains "localhost" contains no "getFile/", because only the part after the last one is kept |
| SansadClient.FormatPdfUrlIdempotent | src/sansad_client.py:26-48 | formatting a formatted link changes nothing |
| SansadClient.AppendQuestions | src/sansad_client.py:211-233 | the inner loop appends exactly the records of the kept questions |
| SansadClient.ProcessResponse | src/sansad_client.py:200-238 | the nested loops return exactly the specified records: [] for non-list data, and the records gathered so far when iterating a "listOfQuestions" raises |
| SansadClient.KeptPositionsSpec | src/sansad_client.py:211-218 | a question is kept exactly when it is a dict with a truthy "ministry"; the kept positions increase |
| SansadClient.KeptRecordsSpec | src/sansad_client.py:210-233 | one record per kept question, in input order, each mapped from that question's fields |
| SansadClient.ProcessedQuestionsShape | src/sansad_client.py:223-231 | every record has exactly the seven fixed keys and a truthy ministry |
| SansadClient.CollectedConcat | src/sansad_client.py:206-210 | response items contribute their records in order |
| SansadClient.CollectedStopsAtRaise | src/sansad_client.py:204-238 | an item whose "listOfQuestions" cannot be iterated ends the scan, and what was collected before it is returned |
| Config.SanitizeMinistryName | src/config.py:107-109 | the result contains no space, comma or apostrophe |
| Config.SanitizeLength | src/config.py:109 | the output length is the input length minus the commas and apostrophes |
| Config.SanitizeCons | src/config.py:109 | each character is handled on its own: a space becomes one '_', a comma or apostrophe is deleted, and any other character is kept in order |
| Config.SanitizeIdempotent | src/config.py:109 | sanitising twice equals sanitising once |
| Config.MinistryDirIsChild | src/config.py:111-115 | a ministry's directory is data/ministry_pdfs/ under the base directory, joined with the sanitised name |
| Config.ValidateEnvironment | src/config.py:137-143 | false exactly when the API key is unset or empty |
| PdfClassifier.ShortenedSpec | src/pdf_classifier.py:29-31 | a shortened name exists exactly for names starting with "Ministry of ", and is the rest of the name |
| PdfClassifier.InitialsSpec | src/pdf_classifier.py:35 | the initials are upper-cased first letters of words other than of/the/and, at most one per word |
| PdfClassifier.AbbreviationSpec | src/pdf_classifier.py:34-38 | an abbreviation exists exactly when the lower-cased name contains " and " and has at least two initials; it is upper case |
| PdfClassifier.MinistryPatternsSpec | src/pdf_classifier.py:22-40 | the full name (ignoring case), then the shortened name when there is one, then the case-sensitive abbreviation when there is one |
| PdfClassifier.BuildMinistryPatterns | src/pdf_classifier.py:18-42 | the table has one entry per configured ministry, holding that ministry's patterns |
| PdfClassifier.WordKeywordsSpec | src/pdf_classifier.py:193-197 | a word is a keyword exactly when it is not one of of/and/the/in/for and is longer than 3 |
| PdfClassifier.KeywordNameSpec | src/pdf_classifier.py:186-188 | the name is lower-cased and loses a leading "ministry of " |
| PdfClassifier.KeywordsSpec | src/pdf_classifier.py:181-205 | at least two keywords, all in lower case, ending with the stripped name and the full lower-cased name; the others are the filtered words |
| PdfClassifier.ExtractMinistryKeywords | src/pdf_classifier.py:181-205 | the loop returns exactly the specified keywords |
| PdfClassifier.OverlapSpec | src/pdf_classifier.py:241-246 | the overlap lies in [0,1] and is symmetric; it is positive exactly when the sets meet, and 1 exactly when the sets are equal and non-empty |
| PdfClassifier.WordSetIgnoresCase | src/pdf_classifier.py:233-239 | lower-casing the text does not change its word set |
| PdfClassifier.TextSimilaritySpec | src/pdf_classifier.py:230-246 | the similarity lies in [0,1], is symmetric and ignores case; it is 0 when either word set is empty, and 1 exactly when the word sets are equal and non-empty |
| PdfClassifier.BestBySpec | src/pdf_classifier.py:209-228 | the best score bounds every score; a score of 0 gives "Unknown Ministry"; otherwise the winner is the first ministry attaining the maximum |
| PdfClassifier.BestMatchSpec | src/pdf_classifier.py:207-228 | the best match has the largest similarity and is the first ministry to reach it, or is ("Unknown Ministry", 0) |
| PdfClassifier.FindBestMinistryMatch | src/pdf_classifier.py:207-228 | the loop with a strict > computes exactly the specified best match |
| PdfClassifier.FirstWhereSpec | src/pdf_classifier.py:105-108 | the scan returns the first ministry in order that hits, or none when none hits |
| PdfClassifier.PreviewConfidenceSpec | src/pdf_classifier.py:121-125 | the preview confidence lies in [0.5, 0.8] and does not increase with the position |
| PdfClassifier.HeaderDetectionSpec | src/pdf_classifier.py:99-113 | a header decision names a configured ministry with confidence in [0.5, 1] |
| PdfClassifier.PreviewScanSpec | src/pdf_classifier.py:115-125 | a preview decision names a ministry found in the preview, at the confidence given by its first position |
| PdfClassifier.FirstPageDetectionSpec | src/pdf_classifier.py:70-131 | the first-page result is "Unknown Ministry" with 0, or a configured ministry with confidence at least 0.5 |
| PdfClassifier.KeywordTermSpec | src/pdf_classifier.py:158-161 | a keyword adds a non-negative amount, which is positive exactly when the keyword is non-empty and occurs in the content |
| PdfClassifier.KeywordScoreSpec | src/pdf_classifier.py:156-161 | the score is non-negative, and positive exactly when some non-empty keyword occurs |
| PdfClassifier.ScoredSpec | src/pdf_classifier.py:151-164 | the score table holds exactly the ministries with a positive score, with their scores |
| PdfClassifier.TopScoredSpec | src/pdf_classifier.py:168 | max() picks an entry with the largest score, the first such entry in order |
| PdfClassifier.KeywordConfidenceSpec | src/pdf_classifier.py:171 | the confidence is at most 0.8, positive for a positive score, and score/10 up to 8 |
| PdfClassifier.ContentDetectionSpec | src/pdf_classifier.py:133-179 | the confidence lies in [0, 0.8]; it is positive exactly when there are pages and some ministry scores; otherwise the result is ("Unknown Ministry", 0); a positive result is a highest-scoring ministry |
| PdfClassifier.PageContent | src/pdf_classifier.py:144-148 | the page loop joins at most the first three pages, each followed by a newline, lower-cased |
| PdfClassifier.ScoreMinistry | src/pdf_classifier.py:155-161 | the keyword loop computes exactly the ministry's score |
| PdfClassifier.DetectFromContentKeywords | src/pdf_classifier.py:133-179 | the scoring loops compute exactly the specified content detection |
| PdfClassifier.ClassifySpec | src/pdf_classifier.py:51-64 | a first-page confidence of at least 0.7 wins; below that, the strictly higher confidence wins and ties go to the first page; the result is never less confident than the first page |
| PdfClassifier.ClassifyPdfSpec | src/pdf_classifier.py:44-68 | a classification is "Unknown Ministry" with 0, or a configured ministry with confidence in (0, 1] |
| LlmClient.IsIrrelevantQuestion | src/llm_client.py:111-126 | true exactly when the lower-cased text contains one of the five phrases |
| LlmClient.IrrelevantIgnoresCase | src/llm_client.py:120 | refusal detection ignores case |
| LlmClient.FormatResponseSpec | src/llm_client.py:193-210 | the reply is the stripped text, surrounded in the input only by whitespace; it is the same whatever the context (the source list is discarded); formatting it again changes nothing |
| LlmClient.FieldSpec | src/llm_client.py:138-140 | a missing metadata key is rendered as its default |
| LlmClient.ContextEntryLabel | src/llm_client.py:134-142 | each entry starts with "SOURCE i:", and the label determines the number |
| LlmClient.ContextEntryFields | src/llm_client.py:135-147 | an entry shows the date, session and source (or "Unknown date", "Unknown session", "Unknown source") and the stripped text |
| LlmClient.ContextTextContains | src/llm_client.py:134-150 | the context text contains the (k+1)-th entry for the k-th document |
| LlmClient.ContextTextOrder | src/llm_client.py:150 | entries are joined in context order with "\n---\n" |
| LlmClient.PromptSpec | src/llm_client.py:152-187 | the prompt starts with the template's opening and contains the ministry, the question verbatim, the context text and the refusal sentence |
| LlmClient.BuildContextParts | src/llm_client.py:132-148 | the loop numbers the entries from 1, in context order |
| LlmClient.ConstructPrompt | src/llm_client.py:128-187 | the prompt is the specified one for the question, context and ministry |
| MinistryDatabase.ComprehensionKeysSpec | scripts/create_ministry_database.py:43 | the dict comprehension's keys are distinct and are exactly the ministries, in their order when these are distinct |
| MinistryDatabase.LedgerKeysSpec | scripts/create_ministry_database.py:43-44 | the ledger keys are the ministries plus "Unknown Ministry", appended last when it is new |
| MinistryDatabase.MaxDonorIsMax | scripts/create_ministry_database.py:162 | the chosen donor has the largest count among the donors |
| MinistryDatabase.MaxDonorIndex | scripts/create_ministry_database.py:162 | the chosen donor is the first, in order, to have that count |
| MinistryDatabase.CopiesAsWrittenSpec | scripts/create_ministry_database.py:176-210 | as written: every attempted copy raises, in copy2 or on CURRENT_TIME right after it, and adds one error; no count changes |
| MinistryDatabase.RedistributedAsWrittenSpec | scripts/create_ministry_database.py:157-210 | as written: no count changes, and the errors grow by min(3, found(i)) for each empty ministry whose donor directory holds PDFs |
| MinistryDatabase.RedistributePdfsAsWrittenSpec | scripts/create_ministry_database.py:143-210 | as written: no count changes and the empty ministries stay empty; without a donor nothing changes, otherwise the errors grow by the number of attempted copies, at most 3 per empty ministry |
| MinistryDatabase.CopiesSpec | scripts/create_ministry_database.py:176-210 | as intended: each successful copy moves one from the donor to the recipient, and each failed copy adds one error |
| MinistryDatabase.CopiesFrame | scripts/create_ministry_database.py:205-206 | as intended: the copy loop changes no other ministry's count |
| MinistryDatabase.CopiesTotal | scripts/create_ministry_database.py:205-206 | as intended: the copy loop keeps the sum of all counts |
| MinistryDatabase.RedistributedTotal | scripts/create_ministry_database.py:157-210 | as intended: redistribution keeps the sum of all counts |
| MinistryDatabase.RedistributedOthers | scripts/create_ministry_database.py:157-210 | as intended: ministries that are neither empty nor donors keep their counts |
| MinistryDatabase.RedistributedRecipients | scripts/create_ministry_database.py:166-171 | as intended: each empty ministry gains between 0 and 3 |
| MinistryDatabase.RedistributedDonors | scripts/create_ministry_database.py:157-210 | as intended: a donor loses at most 3 per empty ministry, and the errors grow by at most that much |
| MinistryDatabase.RedistributePdfsSpec | scripts/create_ministry_database.py:143-210 | as intended: without donors nothing changes; in every case the total is kept, other ministries are unchanged, empty ministries end with 0 to 3, and donors and errors stay within 3 per empty ministry |
| MinistryDatabase.StillEmpty | scripts/create_ministry_database.py:143-210 | as intended: a ministry empty after redistribution was empty before or was a donor that was drained |
| MinistryDatabase.MinistriesWithPdfsMeaning | scripts/create_ministry_database.py:135-141 | len(MINISTRIES) minus the still-empty ministries is the number of configured ministries with a non-zero count |
| MinistryDatabase.BuildTallySkipsIndexed | scripts/create_ministry_database.py:230-235 | without force_rebuild, indexed ministries are skipped but counted as indexed |
| MinistryDatabase.BuildTallyRegistry | scripts/create_ministry_database.py:227-258 | the registry only grows, and only by ministries of the loop |
| MinistryDatabase.BuildTallyUnforced | scripts/create_ministry_database.py:227-258 | without force_rebuild, for distinct ministries: indexed counts the ministries already registered plus the others whose documents were stored, total_chunks sums those others' stored documents, and errors count those others that raised |
| MinistryDatabase.BuildTallyForced | scripts/create_ministry_database.py:227-256 | with force_rebuild, total_chunks sums the stored ministries' documents, indexed counts the ministries that stored documents, and errors count those that raised |
| MinistryDatabase.BuildTallyBounds | scripts/create_ministry_database.py:227-258 | each ministry adds at most one to the indexed count and the errors together; the registry, the chunk total and the errors only grow, and the chunks by no more than the stored documents |
| MinistryDatabase.MinistryDatabaseCreator.constructor | scripts/create_ministry_database.py:27-44 | every statistic is 0, and every configured ministry plus "Unknown Ministry" has count 0 |
| MinistryDatabase.MinistryDatabaseCreator.ClassifyPdfs | scripts/create_ministry_database.py:87-112 | with no PDF found nothing changes; otherwise total_pdfs is the number found and ministries_with_pdfs the number of ministries other than "Unknown Ministry" with a positive count; no count changes |
| MinistryDatabase.ZeroLedger | scripts/create_ministry_database.py:104-150 | on the all-zero ledger classify_pdfs reports no ministry, there is no donor, and for distinct ministries without "Unknown Ministry" all of them are empty |
| MinistryDatabase.ClassifyThenVerify | scripts/create_ministry_database.py:46-65 | classify_pdfs then verify_distribution on a fresh creator leave every count at 0 and count no error, with total_pdfs the number found and, for distinct ministries without "Unknown Ministry", ministries_with_pdfs at 0 |
| MinistryDatabase.MinistryDatabaseCreator.CopyPdfs | scripts/create_ministry_database.py:176-210 | the copy loop as written: each attempt adds one error and no count changes |
| MinistryDatabase.MinistryDatabaseCreator.RedistributeMinistryPdfs | scripts/create_ministry_database.py:143-210 | donors are fixed once; each empty ministry whose current largest donor holds PDFs attempts up to 3 copies; the ledger ends as the as-written specification says |
| MinistryDatabase.MinistryDatabaseCreator.VerifyDistribution | scripts/create_ministry_database.py:114-141 | with no empty ministries nothing changes; otherwise no count changes, the errors grow by the attempted copies when there is a donor, and ministries_with_pdfs is len(MINISTRIES) minus the ministries empty before |
| MinistryDatabase.MinistryDatabaseCreator.BuildVectorDatabase | scripts/create_ministry_database.py:212-258 | it aborts exactly when forcing over a non-empty registry without confirmation; otherwise forcing starts from a cleared registry, and total_chunks, errors and the indexed count are as specified |
| PdfVectorIndexer.FileTagSpec | maintenance_scripts/pdf_vector_indexer.py:43 | only spaces become '_'; commas and apostrophes are kept |
| PdfVectorIndexer.FirstTaggedSpec | maintenance_scripts/pdf_vector_indexer.py:41-45 | the file gets the first ministry whose tag occurs in its name, or none when no tag occurs |
| PdfVectorIndexer.AssignedSpec | maintenance_scripts/pdf_vector_indexer.py:41-47 | a file matching no ministry goes to "Unknown"; any other group is the first matching ministry |
| PdfVectorIndexer.MinistryForFile | maintenance_scripts/pdf_vector_indexer.py:41-47 | the loop with break computes exactly the assigned group |
| PdfVectorIndexer.GroupOrderSpec | maintenance_scripts/pdf_vector_indexer.py:38-48 | the groups are distinct, and are exactly the groups some file falls in |
| PdfVectorIndexer.GroupMembership | maintenance_scripts/pdf_vector_indexer.py:48 | a file is in a group's list exactly when it is an input file assigned to that group |
| PdfVectorIndexer.GroupsPartition | maintenance_scripts/pdf_vector_indexer.py:38-48 | the group sizes add up to the number of files, so every file is in exactly one group |
| PdfVectorIndexer.GroupsCoverPdfs | maintenance_scripts/pdf_vector_indexer.py:38-48 | the sizes of the grouping's own groups add up to the number of files |
| PdfVectorIndexer.GroupByMinistry | maintenance_scripts/pdf_vector_indexer.py:38-48 | the dict holds exactly the groups, in first-seen order, each holding its files in input order |
| PdfVectorIndexer.IndexGroups | maintenance_scripts/pdf_vector_indexer.py:51-60 | groups are taken in order up to the first whose add_documents raises, which ends the loop uncaught; of the groups before it (all of them when none raises) exactly those with documents are added, and total_chunks sums their document counts |
| PdfVectorIndexer.FirstStopSpec | maintenance_scripts/pdf_vector_indexer.py:51-60 | the stopping group is the first one that raises: no group before it does, and it does unless past the end |
| PdfVectorIndexer.SkippedGroupsAddNothing | maintenance_scripts/pdf_vector_indexer.py:55-60 | skipping the groups without documents does not change the chunk total |

## Left out

- External services become inputs.
  - ChromaDB: its nearest-neighbour search, storage and embeddings. What a query returns, or whether it raised, is an input.
  - The sentence-transformer embedding: the embedding is an input.
  - The PDF loader: pages are inputs.
  - The LangChain text splitter: chunks are inputs.
  - The Gemini model calls, the async HTTP client, and its retries and downloads.
  - Blob storage, the website monitor, `app.py`, and the fetch and maintenance scripts other than the grouping loop.
- Regular expressions are not modelled.
  - A compiled pattern is recorded as its text and flags (`PdfClassifier.Pattern`).
  - `pattern.search` is an uninterpreted `Matcher` parameter.
  - The header regexes of `_detect_from_first_page` take their captured texts as input.
  - The pattern table is assumed to be scanned in the order of the configured ministries, the order it was built in.
- File and JSON I/O are inputs or flags.
  - The registry file is a `RegistryFile` value.
  - Sidecar `.json` metadata is a `Sidecar` value.
  - Directory listings are sequences, or a count `found(i)`.
  - `shutil.copy2` is not modelled on the file system. As the code runs, a copy that succeeds leaves the PDF in the empty ministry's directory without a sidecar and changes no count, so the creator methods do not take its outcome. The corrected functions take it as a flag `copyOk(i, j)`.
  - Opening the registry file for writing is taken to succeed.
  - `mkdir`, `setup_directories` and the JSON timestamp fields are not modelled.
- Clocks and hashing are parameters.
  - `datetime.now()` is a parameter.
  - The md5 document id is an `ids` function parameter.
- IEEE floating point is not modelled. Distances, similarities and confidences are Dafny `real`s.
- Text handling is ASCII-only. Lower-casing, `strip` and `split` are modelled for ASCII. Unicode case mapping and Unicode whitespace are not.
- Logging, printing, progress bars and the `input()` prompt are not modelled. The confirmation is a `confirmed` flag.
- The cache-directory glob of `classify_pdfs` is its `pdfCount` input, and the printed distribution is left out. It moves no file and assigns no count.
- `organize_pdf` (src/pdf_classifier.py:248-293) is not modelled: it copies a PDF and writes its sidecar, which is file I/O. Its metadata reads the undefined `Config.CURRENT_USER` too, so as written it returns its error dict after the copy. No part of the modelled scripts calls it.
- The early return of the PDF indexing script on an empty cache directory, and its final report, are not modelled. With no files, the grouping and the index loop do nothing.
- VectorStore.VectorStore.AddDocuments: reads the clock once per call (`now`), where the source calls `time.time()` for each generated id. A non-string `"text"` and an explicit `"id": None` are not modelled. A `"metadata"` value that is not a dict cannot be represented; the error it raises in `_clean_metadata` is covered by the slice's `raises` flag, like a raising `collection.add`. A raising `collection.add` is taken to store nothing of its slice.
- DocumentProcessor.DocumentProcessor.ProcessPdf: takes one `processed_at` time (`now`) for the whole call, where the source calls `datetime.now()` for each chunk, so the chunks of one file may carry different times in the source.
- LlmClient.ConstructPrompt: takes the prompt template as a parameter, because the long literal is costly to reason about. `LlmClient.SourceTemplate` holds the source's wording, and `LlmClient.PromptSpec` holds for every template of that shape. A context element that is not a dict is not modelled, nor is the exception fallback prompt (src/llm_client.py:189-191).
- LlmClient.FormatResponse: a context document whose `"metadata"` is present but not a dict (None, say) cannot be represented. In the source, `metadata.get` then raises and the `except` returns the text unstripped (src/llm_client.py:199-214). Documents from `search` always carry cleaned dict metadata, so this does not arise from there.
- MinistryDatabase.MinistryDatabaseCreator.BuildVectorDatabase: does not model a `clear()` that fails, since under force_rebuild the registry is never read afterwards. Each ministry's processing and `add_documents` call is summarised by an `Outcome` input.

## Findings

| source | as written | input that shows it | evidently intended | confidence | as-written member | corrected member |
|---|---|---|---|---|---|---|
| src/vector_store.py:109-130 | the save opens the file for writing, then fails on the undefined `Config.CURRENT_USER` and swallows the error, leaving the file empty | a collection holding one record whose metadata has "ministry": "Ministry of Coal", and no registry file: the first store holds {"Ministry of Coal"}, the next start holds {} and does not rescan | the file holds the registry (a defined user name, such as the `USERNAME` environment variable) and the next start reads it back | not executed | VectorStore.ReopenAfterScan | VectorStore.ReopenAfterIntendedSave |
| scripts/create_ministry_database.py:177-210 | the metadata dict reads the undefined `Config.CURRENT_TIME` after `shutil.copy2`, so every attempt raises before the counts are updated and is counted as an error; latent within the script, whose own run leaves every count at 0 and so never reaches the copy loop (`MinistryDatabase.ClassifyThenVerify`) | one empty ministry and one donor whose directory holds 5 PDFs, every copy succeeding: the empty ministry stays at 0 and the errors grow by 3 | each successful copy moves one from the donor's count to the empty ministry's, and only failed copies are errors | not executed | MinistryDatabase.RedistributePdfsAsWrittenSpec | MinistryDatabase.RedistributePdfsSpec |
