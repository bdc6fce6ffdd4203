/** The PDF-to-document step of src/document_processor.py: the chunk loop of
    `process_pdf`, its `processed_pdfs` set, and the two drivers that tag each
    file with metadata before handing it to `process_pdf`.

    Text extraction (PyPDFLoader), the text splitter and the sidecar `.json`
    files are external: a `Pdf` carries what they give for one file. The md5
    document ids and the `processed_at` timestamp are parameters. */
module DocumentProcessor {
  import opened Strings
  import opened Values
  import Config

  /** What the PDF loader gives for a file: it raised, or the page texts. */
  datatype Extraction = LoadFailed | Pages(pages: seq<string>)

  /** The sibling `.json` of a PDF: absent, present but not loadable, or a dict. */
  datatype Sidecar = NoSidecar | Unreadable | Loaded(metadata: Metadata)

  /** A PDF path together with what the file system and the external libraries
      make of it; `chunks` is the text splitter's output for the joined text. */
  datatype Pdf = Pdf(path: string, found: bool, extraction: Extraction, chunks: seq<string>, sidecar: Sidecar)

  /** One produced document dict. */
  datatype Document = Document(id: string, text: string, metadata: Metadata, distance: real, relevanceScore: real)

  /** What the driver of a ministry finds: no directory, or the `*.pdf` files of
      the directory in glob order. */
  datatype MinistryDir = NoDir | Dir(pdfs: seq<Pdf>)

  /** `os.path.basename`: what follows the last '/'. */
  function Basename(path: string): (name: string)
    ensures '/' !in name
  {
    if path == [] || path[|path| - 1] == '/' then []
    else Basename(path[..|path| - 1]) + [path[|path| - 1]]
  }

  /** `"\n".join(page.page_content for page in pages)` */
  function FullText(pages: seq<string>): string {
    Join(pages, "\n")
  }

  /** The file exists and its extracted text is not blank. */
  predicate Extracts(pdf: Pdf) {
    pdf.found && pdf.extraction.Pages? && pdf.extraction.pages != [] &&
    Strip(FullText(pdf.extraction.pages)) != ""
  }

  /** `process_pdf` reaches its chunk loop. */
  predicate Reaches(pdf: Pdf, processed: set<string>) {
    Extracts(pdf) && Basename(pdf.path) !in processed
  }

  /** The metadata the chunk loop starts from: the caller's when it is truthy,
      otherwise the sidecar's dict, otherwise the empty dict. */
  function BaseMetadata(pdf: Pdf, metadata: Option<Metadata>): Metadata {
    if metadata.Some? && metadata.value != map[] then metadata.value
    else if pdf.sidecar.Loaded? then pdf.sidecar.metadata
    else map[]
  }

  /** The keys each chunk sets itself. */
  const ChunkKeys: set<string> := {"chunk_index", "total_chunks", "source", "filename", "processed_at"}

  /** `{**metadata, "chunk_index": i, ...}`: the later keys win. */
  function ChunkMetadata(base: Metadata, i: nat, total: nat, path: string, now: string): Metadata {
    base["chunk_index" := Int(i)]["total_chunks" := Int(total)]["source" := Str(path)]
        ["filename" := Str(Basename(path))]["processed_at" := Str(now)]
  }

  /** The document made from chunk `i` of `path`. */
  function ChunkDoc(chunk: string, i: nat, total: nat, base: Metadata, path: string,
                    ids: (string, nat) -> string, now: string): Document
  {
    Document(ids(path, i), Strip(chunk), ChunkMetadata(base, i, total, path, now), 0.0, 0.0)
  }

  /** The positions of the chunks that are not blank, in order. */
  function NonBlank(chunks: seq<string>): (idx: seq<nat>)
    ensures forall k | 0 <= k < |idx| :: idx[k] < |chunks|
  {
    if chunks == [] then []
    else NonBlank(chunks[..|chunks| - 1]) + (if Strip(chunks[|chunks| - 1]) != "" then [|chunks| - 1] else [])
  }

  /** The documents the chunk loop emits: one per non-blank chunk, in order. */
  function ChunkDocuments(chunks: seq<string>, total: nat, base: Metadata, path: string,
                          ids: (string, nat) -> string, now: string): (docs: seq<Document>)
  {
    var idx := NonBlank(chunks);
    seq(|idx|, k requires 0 <= k < |idx| => ChunkDoc(chunks[idx[k]], idx[k], total, base, path, ids, now))
  }

  /** What `process_pdf` returns for `pdf` when the set of processed names is `processed`. */
  function PdfDocuments(pdf: Pdf, metadata: Option<Metadata>, processed: set<string>,
                        ids: (string, nat) -> string, now: string): seq<Document>
  {
    if Reaches(pdf, processed)
    then ChunkDocuments(pdf.chunks, |pdf.chunks|, BaseMetadata(pdf, metadata), pdf.path, ids, now)
    else []
  }

  /** The processed names after `process_pdf`: the basename is added once the chunk loop is done. */
  function After(pdf: Pdf, processed: set<string>): set<string> {
    if Reaches(pdf, processed) then processed + {Basename(pdf.path)} else processed
  }

  /** `process_pdf` on each (file, metadata) pair in turn, concatenating the outputs. */
  function ProcessAll(items: seq<(Pdf, Option<Metadata>)>, processed: set<string>,
                      ids: (string, nat) -> string, now: string): (seq<Document>, set<string>)
  {
    if items == [] then ([], processed)
    else
      var r := ProcessAll(items[..|items| - 1], processed, ids, now);
      var item := items[|items| - 1];
      (r.0 + PdfDocuments(item.0, item.1, r.1, ids, now), After(item.0, r.1))
  }

  /** The metadata `process_ministry_pdfs` gives a file: the defaults, then the sidecar's keys over them. */
  function MinistryMetadata(ministry: string, pdf: Pdf): Metadata {
    var defaults := map["ministry" := Str(ministry), "date" := Str("Unknown"),
                        "session" := Str(Config.DefaultSessionText),
                        "pdf_url" := Str("/data/ministry_pdfs/" + Config.SanitizeMinistryName(ministry) + "/" + Basename(pdf.path))];
    if pdf.sidecar.Loaded? then defaults + pdf.sidecar.metadata else defaults
  }

  function MinistryItems(ministry: string, pdfs: seq<Pdf>): (items: seq<(Pdf, Option<Metadata>)>)
    ensures |items| == |pdfs|
  {
    seq(|pdfs|, k requires 0 <= k < |pdfs| => (pdfs[k], Some(MinistryMetadata(ministry, pdfs[k]))))
  }

  /** The metadata `process_pdf_files` gives a file. */
  function FileMetadata(ministry: string, path: string): Metadata {
    map["ministry" := Str(ministry), "filename" := Str(Basename(path)), "source" := Str(path)]
  }

  function FileItems(pdfs: seq<Pdf>, ministry: string): (items: seq<(Pdf, Option<Metadata>)>)
    ensures |items| == |pdfs|
  {
    seq(|pdfs|, k requires 0 <= k < |pdfs| => (pdfs[k], Some(FileMetadata(ministry, pdfs[k].path))))
  }

  // ---------------------------------------------------------------------------
  // Properties of the chunk loop

  lemma NonBlankSnoc(chunks: seq<string>, c: string)
    ensures NonBlank(chunks + [c]) == NonBlank(chunks) + (if Strip(c) != "" then [|chunks|] else [])
  {
    assert (chunks + [c])[..|chunks|] == chunks;
  }

  /** The emitted positions are exactly the non-blank chunks, strictly increasing. */
  lemma {:induction false} NonBlankSpec(chunks: seq<string>)
    ensures forall k, k' | 0 <= k < k' < |NonBlank(chunks)| :: NonBlank(chunks)[k] < NonBlank(chunks)[k']
    ensures forall i | 0 <= i < |chunks| :: i in NonBlank(chunks) <==> Strip(chunks[i]) != ""
    ensures |NonBlank(chunks)| <= |chunks|
  {
    if chunks != [] {
      var p, c := chunks[..|chunks| - 1], chunks[|chunks| - 1];
      NonBlankSpec(p);
      var ip := NonBlank(p);
      var tail: seq<nat> := if Strip(c) != "" then [|p|] else [];
      assert NonBlank(chunks) == ip + tail by {
        assert chunks == p + [c];
        NonBlankSnoc(p, c);
      }
      forall i | 0 <= i < |p|
        ensures i in NonBlank(chunks) <==> Strip(chunks[i]) != ""
      {
        assert p[i] == chunks[i];
        assert i in NonBlank(chunks) <==> i in ip;
      }
    }
  }

  /** The chunk keys override the caller's keys; every other key of the caller is kept. */
  lemma ChunkMetadataSpec(base: Metadata, i: nat, total: nat, path: string, now: string)
    ensures var m := ChunkMetadata(base, i, total, path, now);
      m.Keys == base.Keys + ChunkKeys &&
      m["chunk_index"] == Int(i) && m["total_chunks"] == Int(total) && m["source"] == Str(path) &&
      m["filename"] == Str(Basename(path)) && m["processed_at"] == Str(now) &&
      forall key | key in base && key !in ChunkKeys :: m[key] == base[key]
  {
  }

  /** Every emitted document holds the stripped, non-empty text of a chunk and
      that chunk's position; blank chunks are the ones skipped, and the positions
      are strictly increasing and below `total_chunks`. */
  lemma ChunkDocumentsSpec(chunks: seq<string>, total: nat, base: Metadata, path: string,
                           ids: (string, nat) -> string, now: string)
    requires |chunks| == total
    ensures var docs := ChunkDocuments(chunks, total, base, path, ids, now);
      var idx := NonBlank(chunks);
      |docs| == |idx| <= total &&
      (forall k | 0 <= k < |docs| ::
         docs[k].text == Strip(chunks[idx[k]]) && docs[k].text != "" && Stripped(docs[k].text) &&
         docs[k].id == ids(path, idx[k]) &&
         docs[k].metadata == ChunkMetadata(base, idx[k], total, path, now) &&
         docs[k].distance == 0.0 && docs[k].relevanceScore == 0.0) &&
      (forall k, k' | 0 <= k < k' < |idx| :: idx[k] < idx[k']) &&
      (forall i | 0 <= i < |chunks| :: i in idx <==> Strip(chunks[i]) != "")
  {
    NonBlankSpec(chunks);
    var idx := NonBlank(chunks);
    forall k | 0 <= k < |idx| ensures Stripped(Strip(chunks[idx[k]])) && Strip(chunks[idx[k]]) != "" {
      assert idx[k] in idx;
      StripShape(chunks[idx[k]]);
    }
  }

  lemma ChunkDocumentsSnoc(chunks: seq<string>, c: string, total: nat, base: Metadata, path: string,
                           ids: (string, nat) -> string, now: string)
    ensures ChunkDocuments(chunks + [c], total, base, path, ids, now) ==
            ChunkDocuments(chunks, total, base, path, ids, now) +
            (if Strip(c) != "" then [ChunkDoc(c, |chunks|, total, base, path, ids, now)] else [])
  {
    var cs := chunks + [c];
    NonBlankSnoc(chunks, c);
    var idx := NonBlank(chunks);
    assert forall k | 0 <= k < |idx| :: cs[idx[k]] == chunks[idx[k]];
  }

  // ---------------------------------------------------------------------------
  // Properties of the drivers

  lemma ProcessAllSnoc(items: seq<(Pdf, Option<Metadata>)>, item: (Pdf, Option<Metadata>), processed: set<string>,
                       ids: (string, nat) -> string, now: string)
    ensures var r := ProcessAll(items, processed, ids, now);
      ProcessAll(items + [item], processed, ids, now) ==
      (r.0 + PdfDocuments(item.0, item.1, r.1, ids, now), After(item.0, r.1))
  {
    assert (items + [item])[..|items|] == items;
  }

  lemma MinistryItemsSnoc(ministry: string, pdfs: seq<Pdf>, pdf: Pdf)
    ensures MinistryItems(ministry, pdfs + [pdf]) == MinistryItems(ministry, pdfs) + [(pdf, Some(MinistryMetadata(ministry, pdf)))]
  {
    var ps := pdfs + [pdf];
    assert forall k | 0 <= k < |pdfs| :: ps[k] == pdfs[k];
  }

  lemma FileItemsSnoc(pdfs: seq<Pdf>, pdf: Pdf, ministry: string)
    ensures FileItems(pdfs + [pdf], ministry) == FileItems(pdfs, ministry) + [(pdf, Some(FileMetadata(ministry, pdf.path)))]
  {
    var ps := pdfs + [pdf];
    assert forall k | 0 <= k < |pdfs| :: ps[k] == pdfs[k];
  }

  /** The names whose file gets to the chunk loop when first seen. */
  function ExtractedNames(items: seq<(Pdf, Option<Metadata>)>): set<string> {
    set k | 0 <= k < |items| && Extracts(items[k].0) :: Basename(items[k].0.path)
  }

  lemma ExtractedNamesSnoc(items: seq<(Pdf, Option<Metadata>)>, item: (Pdf, Option<Metadata>))
    ensures ExtractedNames(items + [item]) ==
            ExtractedNames(items) + (if Extracts(item.0) then {Basename(item.0.path)} else {})
  {
    var xs := items + [item];
    assert forall k | 0 <= k < |items| :: xs[k] == items[k];
    assert xs[|items|] == item;
  }

  /** The processed set ends up as the starting set plus the name of every file
      whose text could be extracted. */
  lemma {:induction false} ProcessAllNames(items: seq<(Pdf, Option<Metadata>)>, processed: set<string>,
                                           ids: (string, nat) -> string, now: string)
    ensures ProcessAll(items, processed, ids, now).1 == processed + ExtractedNames(items)
  {
    if items != [] {
      var p := items[..|items| - 1];
      var last := items[|items| - 1];
      ProcessAllNames(p, processed, ids, now);
      ExtractedNamesSnoc(p, last);
      assert items == p + [last];
      ProcessAllSnoc(p, last, processed, ids, now);
    }
  }

  /** Files whose names were all processed already give nothing and change nothing. */
  lemma {:induction false} ProcessAllNothingNew(items: seq<(Pdf, Option<Metadata>)>, processed: set<string>,
                                                ids: (string, nat) -> string, now: string)
    requires ExtractedNames(items) <= processed
    ensures ProcessAll(items, processed, ids, now) == ([], processed)
  {
    if items != [] {
      var p := items[..|items| - 1];
      var last := items[|items| - 1];
      assert forall k | 0 <= k < |p| :: p[k] == items[k];
      assert ExtractedNames(p) <= ExtractedNames(items);
      ProcessAllNothingNew(p, processed, ids, now);
      if Extracts(last.0) {
        assert items[|items| - 1] == last;
        assert Basename(last.0.path) in ExtractedNames(items);
      }
      assert !Reaches(last.0, processed);
      var r := ProcessAll(p, processed, ids, now);
      assert r == ([], processed);
      assert PdfDocuments(last.0, last.1, r.1, ids, now) == [];
      assert ProcessAll(items, processed, ids, now) == (r.0 + [], After(last.0, r.1));
      assert r.0 + [] == [] && After(last.0, r.1) == processed;
    }
  }

  /** Running the same files through the same processor again yields no documents. */
  lemma ProcessAllTwice(items: seq<(Pdf, Option<Metadata>)>, processed: set<string>,
                        ids: (string, nat) -> string, now: string, now': string)
    ensures var once := ProcessAll(items, processed, ids, now);
      ProcessAll(items, once.1, ids, now') == ([], once.1)
  {
    ProcessAllNames(items, processed, ids, now);
    ProcessAllNothingNew(items, ProcessAll(items, processed, ids, now).1, ids, now');
  }

  /** Outputs of consecutive runs concatenate in input order. */
  lemma {:induction false} ProcessAllConcat(a: seq<(Pdf, Option<Metadata>)>, b: seq<(Pdf, Option<Metadata>)>,
                                            processed: set<string>, ids: (string, nat) -> string, now: string)
    ensures var ra := ProcessAll(a, processed, ids, now);
      var rb := ProcessAll(b, ra.1, ids, now);
      ProcessAll(a + b, processed, ids, now) == (ra.0 + rb.0, rb.1)
    decreases |b|
  {
    if b == [] {
      assert a + b == a;
      var ra := ProcessAll(a, processed, ids, now);
      assert ProcessAll(b, ra.1, ids, now) == ([], ra.1);
      assert ra.0 + [] == ra.0;
    } else {
      var b', last := b[..|b| - 1], b[|b| - 1];
      var ra := ProcessAll(a, processed, ids, now);
      var rb' := ProcessAll(b', ra.1, ids, now);
      var x := PdfDocuments(last.0, last.1, rb'.1, ids, now);
      assert ProcessAll(b, ra.1, ids, now) == (rb'.0 + x, After(last.0, rb'.1)) by {
        assert b == b' + [last];
        ProcessAllSnoc(b', last, ra.1, ids, now);
      }
      assert ProcessAll(a + b, processed, ids, now) == (ra.0 + rb'.0 + x, After(last.0, rb'.1)) by {
        assert a + b == (a + b') + [last];
        ProcessAllConcat(a, b', processed, ids, now);
        ProcessAllSnoc(a + b', last, processed, ids, now);
      }
      assert ra.0 + rb'.0 + x == ra.0 + (rb'.0 + x);
    }
  }

  /** A key every file's (truthy) metadata maps to `v`, other than a chunk key,
      maps to `v` in every produced document. */
  lemma {:induction false} ProcessAllKeepsKey(items: seq<(Pdf, Option<Metadata>)>, processed: set<string>,
                                              ids: (string, nat) -> string, now: string, key: string, v: Value)
    requires key !in ChunkKeys
    requires forall k | 0 <= k < |items| ::
               items[k].1.Some? && items[k].1.value != map[] && key in items[k].1.value && items[k].1.value[key] == v
    ensures forall d | d in ProcessAll(items, processed, ids, now).0 :: key in d.metadata && d.metadata[key] == v
  {
    if items != [] {
      var p := items[..|items| - 1];
      var last := items[|items| - 1];
      assert forall k | 0 <= k < |p| :: p[k] == items[k];
      ProcessAllKeepsKey(p, processed, ids, now, key, v);
      var r := ProcessAll(p, processed, ids, now);
      var docs := PdfDocuments(last.0, last.1, r.1, ids, now);
      assert BaseMetadata(last.0, last.1) == last.1.value;
      forall d | d in docs ensures key in d.metadata && d.metadata[key] == v {
        var k :| 0 <= k < |docs| && docs[k] == d;
        var idx := NonBlank(last.0.chunks);
        ChunkMetadataSpec(last.1.value, idx[k], |last.0.chunks|, last.0.path, now);
      }
    }
  }

  /** Every produced document carries the path and basename of one of the files. */
  lemma {:induction false} ProcessAllSources(items: seq<(Pdf, Option<Metadata>)>, processed: set<string>,
                                             ids: (string, nat) -> string, now: string)
    ensures forall d | d in ProcessAll(items, processed, ids, now).0 ::
              "source" in d.metadata && "filename" in d.metadata &&
              exists k | 0 <= k < |items| :: d.metadata["source"] == Str(items[k].0.path) &&
                                             d.metadata["filename"] == Str(Basename(items[k].0.path))
  {
    if items != [] {
      var p := items[..|items| - 1];
      var last := items[|items| - 1];
      ProcessAllSources(p, processed, ids, now);
      var r := ProcessAll(p, processed, ids, now);
      forall d | d in r.0
        ensures "source" in d.metadata && "filename" in d.metadata
        ensures exists k | 0 <= k < |items| :: d.metadata["source"] == Str(items[k].0.path) &&
                                               d.metadata["filename"] == Str(Basename(items[k].0.path))
      {
        var k :| 0 <= k < |p| && d.metadata["source"] == Str(p[k].0.path) &&
                 d.metadata["filename"] == Str(Basename(p[k].0.path));
        assert p[k] == items[k];
      }
      var docs := PdfDocuments(last.0, last.1, r.1, ids, now);
      forall d | d in docs
        ensures "source" in d.metadata && "filename" in d.metadata
        ensures d.metadata["source"] == Str(last.0.path) && d.metadata["filename"] == Str(Basename(last.0.path))
      {
        var k :| 0 <= k < |docs| && docs[k] == d;
        var idx := NonBlank(last.0.chunks);
        ChunkMetadataSpec(BaseMetadata(last.0, last.1), idx[k], |last.0.chunks|, last.0.path, now);
      }
    }
  }

  /** The defaults of `process_ministry_pdfs`, with a sidecar's keys (even "ministry") taking precedence. */
  lemma MinistryMetadataSpec(ministry: string, pdf: Pdf)
    ensures var m := MinistryMetadata(ministry, pdf);
      var own := if pdf.sidecar.Loaded? then pdf.sidecar.metadata else map[];
      m.Keys == {"ministry", "date", "session", "pdf_url"} + own.Keys &&
      (forall key | key in own :: m[key] == own[key]) &&
      ("ministry" !in own ==> m["ministry"] == Str(ministry)) &&
      ("date" !in own ==> m["date"] == Str("Unknown")) &&
      ("session" !in own ==> m["session"] == Str("4")) &&
      ("pdf_url" !in own ==>
         m["pdf_url"] == Str("/data/ministry_pdfs/" + Config.SanitizeMinistryName(ministry) + "/" + Basename(pdf.path)))
  {
  }

  /** Every document `process_pdf_files` returns is tagged with the given ministry. */
  lemma FileItemsTagged(pdfs: seq<Pdf>, ministry: string, processed: set<string>,
                        ids: (string, nat) -> string, now: string)
    ensures forall d | d in ProcessAll(FileItems(pdfs, ministry), processed, ids, now).0 ::
              "ministry" in d.metadata && d.metadata["ministry"] == Str(ministry)
  {
    var items := FileItems(pdfs, ministry);
    forall k | 0 <= k < |items|
      ensures items[k].1.Some? && items[k].1.value != map[] && "ministry" in items[k].1.value &&
              items[k].1.value["ministry"] == Str(ministry)
    {
      assert "ministry" in FileMetadata(ministry, pdfs[k].path);
    }
    ProcessAllKeepsKey(items, processed, ids, now, "ministry", Str(ministry));
  }

  // ---------------------------------------------------------------------------
  // The processor

  /** The chunk loop of `process_pdf`. */
  method SplitIntoDocuments(textChunks: seq<string>, base: Metadata, path: string,
                            ids: (string, nat) -> string, now: string)
    returns (documents: seq<Document>)
    ensures documents == ChunkDocuments(textChunks, |textChunks|, base, path, ids, now)
  {
    documents := [];
    for i := 0 to |textChunks|
      invariant documents == ChunkDocuments(textChunks[..i], |textChunks|, base, path, ids, now)
    {
      var chunk := textChunks[i];
      assert textChunks[..i + 1] == textChunks[..i] + [chunk];
      ChunkDocumentsSnoc(textChunks[..i], chunk, |textChunks|, base, path, ids, now);
      if Strip(chunk) == "" {
        continue;
      }
      var doc := Document(ids(path, i), Strip(chunk), ChunkMetadata(base, i, |textChunks|, path, now), 0.0, 0.0);
      documents := documents + [doc];
    }
    assert textChunks[..|textChunks|] == textChunks;
  }

  class DocumentProcessor {
    /** Basenames of the PDFs already turned into documents. */
    var processedPdfs: set<string>

    constructor ()
      ensures processedPdfs == {}
    {
      processedPdfs := {};
    }

    /** `process_pdf`: nothing for a missing, already processed or blank file;
        otherwise one document per non-blank chunk, and the basename is recorded. */
    method ProcessPdf(pdf: Pdf, metadata: Option<Metadata>, ids: (string, nat) -> string, now: string)
      returns (documents: seq<Document>)
      modifies this
      ensures documents == PdfDocuments(pdf, metadata, old(processedPdfs), ids, now)
      ensures processedPdfs == After(pdf, old(processedPdfs))
    {
      if !pdf.found {
        return [];
      }
      var pdfName := Basename(pdf.path);
      if pdfName in processedPdfs {
        return [];
      }
      if pdf.extraction.LoadFailed? {
        return [];
      }
      var pages := pdf.extraction.pages;
      if pages == [] {
        return [];
      }
      var fullText := FullText(pages);
      if Strip(fullText) == "" {
        return [];
      }
      var textChunks := pdf.chunks;
      var base := BaseMetadata(pdf, metadata);
      documents := SplitIntoDocuments(textChunks, base, pdf.path, ids, now);
      processedPdfs := processedPdfs + {pdfName};
    }

    /** One iteration of the drivers: `process_pdf`, then `extend` when it gave documents. */
    method ProcessAndExtend(ghost items: seq<(Pdf, Option<Metadata>)>, ghost processed: set<string>,
                            allDocuments: seq<Document>, pdf: Pdf, metadata: Option<Metadata>,
                            ids: (string, nat) -> string, now: string)
      returns (extended: seq<Document>)
      requires (allDocuments, processedPdfs) == ProcessAll(items, processed, ids, now)
      modifies this
      ensures (extended, processedPdfs) == ProcessAll(items + [(pdf, metadata)], processed, ids, now)
    {
      ProcessAllSnoc(items, (pdf, metadata), processed, ids, now);
      var documents := ProcessPdf(pdf, metadata, ids, now);
      extended := allDocuments;
      if documents != [] {
        extended := extended + documents;
      }
      assert extended == allDocuments + documents;
    }

    /** `process_ministry_pdfs`: each PDF of the ministry's directory with the
        ministry defaults and its sidecar's keys. */
    method ProcessMinistryPdfs(ministry: string, dir: MinistryDir, ids: (string, nat) -> string, now: string)
      returns (allDocuments: seq<Document>)
      modifies this
      ensures dir.NoDir? ==> allDocuments == [] && processedPdfs == old(processedPdfs)
      ensures dir.Dir? ==>
                (allDocuments, processedPdfs) == ProcessAll(MinistryItems(ministry, dir.pdfs), old(processedPdfs), ids, now)
    {
      if dir.NoDir? {
        return [];
      }
      var pdfFiles := dir.pdfs;
      if pdfFiles == [] {
        return [];
      }
      allDocuments := [];
      for k := 0 to |pdfFiles|
        invariant (allDocuments, processedPdfs) == ProcessAll(MinistryItems(ministry, pdfFiles[..k]), old(processedPdfs), ids, now)
      {
        var pdf := pdfFiles[k];
        var metadata := MinistryMetadata(ministry, pdf);
        assert pdfFiles[..k + 1] == pdfFiles[..k] + [pdf];
        MinistryItemsSnoc(ministry, pdfFiles[..k], pdf);
        allDocuments := ProcessAndExtend(MinistryItems(ministry, pdfFiles[..k]), old(processedPdfs), allDocuments, pdf, Some(metadata), ids, now);
      }
      assert pdfFiles[..|pdfFiles|] == pdfFiles;
    }

    /** `process_pdf_files`: each file tagged with the ministry, its basename and its path. */
    method ProcessPdfFiles(pdfFiles: seq<Pdf>, ministry: string, ids: (string, nat) -> string, now: string)
      returns (allDocuments: seq<Document>)
      modifies this
      ensures (allDocuments, processedPdfs) == ProcessAll(FileItems(pdfFiles, ministry), old(processedPdfs), ids, now)
    {
      allDocuments := [];
      for k := 0 to |pdfFiles|
        invariant (allDocuments, processedPdfs) == ProcessAll(FileItems(pdfFiles[..k], ministry), old(processedPdfs), ids, now)
      {
        var pdf := pdfFiles[k];
        var metadata := FileMetadata(ministry, pdf.path);
        assert pdfFiles[..k + 1] == pdfFiles[..k] + [pdf];
        FileItemsSnoc(pdfFiles[..k], pdf, ministry);
        allDocuments := ProcessAndExtend(FileItems(pdfFiles[..k], ministry), old(processedPdfs), allDocuments, pdf, Some(metadata), ids, now);
      }
      assert pdfFiles[..|pdfFiles|] == pdfFiles;
    }
  }
}
