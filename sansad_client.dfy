/** The deterministic parts of the Sansad API client (src/sansad_client.py):
    normalising the PDF links and turning an API response into question records.
    The HTTP requests, retries and downloads are not part of this model. */
module SansadClient {
  import opened Strings
  import opened Values

  // ---------------------------------------------------------------------------
  // PDF links

  /** The link once known to be on the Sansad site: one leading '/' dropped,
      then the scheme and, where missing, the domain put in front. */
  function SiteUrl(url: string): string {
    var path := if StartsWith(url, "/") then url[1..] else url;
    if StartsWith(path, "sansad.in") then "https://" + path else "https://sansad.in/" + path
  }

  /** `_format_pdf_url` */
  function FormatPdfUrl(pdfUrl: string): string {
    if pdfUrl == "" then ""
    else
      var url := if Contains(pdfUrl, "localhost") then LastSegment(pdfUrl, "getFile/") else pdfUrl;
      if StartsWith(url, "http") then url else SiteUrl(url)
  }

  /** A string lacking one of the characters of `p` does not contain `p`. */
  lemma AbsentCharNotContained(s: string, p: string, j: int)
    requires 0 <= j < |p| && p[j] !in s
    ensures !Contains(s, p)
  {
  }

  /** What a suffix contains, the whole string contains. */
  lemma ContainsSuffix(s: string, i: int, p: string)
    requires 0 <= i <= |s| && Contains(s[i..], p)
    ensures Contains(s, p)
  {
    var t := s[i..];
    var k :| 0 <= k <= |t| - |p| && OccursAt(t, p, k);
    assert s[i + k..i + k + |p|] == t[k..k + |p|];
    assert OccursAt(s, p, i + k);
  }

  /** Gluing `b` after `a` creates no occurrence of `p` when `a` ends in a
      character that `p` has nowhere but maybe at its end. */
  lemma NoOccurrenceAcrossSeam(a: string, b: string, p: string)
    requires a != [] && forall j | 0 <= j < |p| - 1 :: p[j] != a[|a| - 1]
    requires !Contains(a, p) && !Contains(b, p)
    ensures !Contains(a + b, p)
  {
    var s := a + b;
    forall i | 0 <= i <= |s| - |p| ensures !OccursAt(s, p, i) {
      if i + |p| <= |a| {
        assert s[i..i + |p|] == a[i..i + |p|];
        assert !OccursAt(a, p, i);
      } else if i >= |a| {
        assert s[i..i + |p|] == b[i - |a|..i - |a| + |p|];
        assert !OccursAt(b, p, i - |a|);
      } else {
        var j := |a| - 1 - i;
        assert s[i..i + |p|][j] == a[|a| - 1] != p[j];
      }
    }
  }

  /** Every link `SiteUrl` builds starts with "http". */
  lemma SiteUrlIsHttp(url: string)
    ensures StartsWith(SiteUrl(url), "http")
  {
    var path := if StartsWith(url, "/") then url[1..] else url;
    if StartsWith(path, "sansad.in") {
      assert ("https://" + path)[..4] == "http";
    } else {
      assert ("https://sansad.in/" + path)[..4] == "http";
    }
  }

  /** `SiteUrl` adds no `p` whose characters, but for the last, are not '/',
      and one of which is missing from "https://sansad.in/". */
  lemma SiteUrlAddsNothing(url: string, p: string, j: int)
    requires 0 <= j < |p| && p[j] !in "https://sansad.in/"
    requires forall i | 0 <= i < |p| - 1 :: p[i] != '/'
    requires !Contains(url, p)
    ensures !Contains(SiteUrl(url), p)
  {
    var path := if StartsWith(url, "/") then url[1..] else url;
    if StartsWith(url, "/") {
      if Contains(path, p) {
        ContainsSuffix(url, 1, p);
      }
    }
    assert !Contains(path, p);
    if StartsWith(path, "sansad.in") {
      assert p[j] !in "https://" by {
        assert forall c | c in "https://" :: c in "https://sansad.in/";
      }
      AbsentCharNotContained("https://", p, j);
      NoOccurrenceAcrossSeam("https://", path, p);
    } else {
      AbsentCharNotContained("https://sansad.in/", p, j);
      NoOccurrenceAcrossSeam("https://sansad.in/", path, p);
    }
  }

  /** Only the empty link is formatted to the empty string; every other link
      becomes one that starts with "http". */
  lemma FormatPdfUrlIsHttp(pdfUrl: string)
    ensures pdfUrl == "" <==> FormatPdfUrl(pdfUrl) == ""
    ensures pdfUrl != "" ==> StartsWith(FormatPdfUrl(pdfUrl), "http")
  {
    if pdfUrl != "" {
      var url := if Contains(pdfUrl, "localhost") then LastSegment(pdfUrl, "getFile/") else pdfUrl;
      if !StartsWith(url, "http") {
        SiteUrlIsHttp(url);
      }
    }
  }

  /** A full link without "localhost" is kept as it is. */
  lemma FormatPdfUrlKeepsFullLinks(pdfUrl: string)
    requires StartsWith(pdfUrl, "http") && !Contains(pdfUrl, "localhost")
    ensures FormatPdfUrl(pdfUrl) == pdfUrl
  {
  }

  lemma GetFileFacts()
    ensures "getFile/"[0] !in "https://sansad.in/"
    ensures forall i | 0 <= i < |"getFile/"| - 1 :: "getFile/"[i] != '/'
  {
  }

  lemma LocalhostFacts()
    ensures "localhost"[0] !in "https://sansad.in/"
    ensures forall i | 0 <= i < |"localhost"| - 1 :: "localhost"[i] != '/'
  {
  }

  /** A formatted link that mentions "localhost" has no "getFile/" left in it. */
  lemma FormattedLocalLinks(pdfUrl: string)
    ensures Contains(FormatPdfUrl(pdfUrl), "localhost") ==> !Contains(FormatPdfUrl(pdfUrl), "getFile/")
  {
    if pdfUrl != "" {
      if Contains(pdfUrl, "localhost") {
        var url := LastSegment(pdfUrl, "getFile/");
        assert FormatPdfUrl(pdfUrl) == if StartsWith(url, "http") then url else SiteUrl(url);
        if !StartsWith(url, "http") {
          GetFileFacts();
          SiteUrlAddsNothing(url, "getFile/", 0);
        }
      } else {
        assert FormatPdfUrl(pdfUrl) == if StartsWith(pdfUrl, "http") then pdfUrl else SiteUrl(pdfUrl);
        if !StartsWith(pdfUrl, "http") {
          LocalhostFacts();
          SiteUrlAddsNothing(pdfUrl, "localhost", 0);
        }
      }
    }
  }

  lemma LastSegmentOfAbsent(s: string, sep: string)
    requires sep != [] && !Contains(s, sep)
    ensures LastSegment(s, sep) == s
  {
    FindContains(s, sep);
  }

  /** Formatting a formatted link changes nothing. */
  lemma FormatPdfUrlIdempotent(pdfUrl: string)
    ensures FormatPdfUrl(FormatPdfUrl(pdfUrl)) == FormatPdfUrl(pdfUrl)
  {
    var r := FormatPdfUrl(pdfUrl);
    if r != "" {
      FormatPdfUrlIsHttp(pdfUrl);
      FormattedLocalLinks(pdfUrl);
      if Contains(r, "localhost") {
        LastSegmentOfAbsent(r, "getFile/");
      }
    }
  }

  // ---------------------------------------------------------------------------
  // API responses

  /** An element of "listOfQuestions": not a dict, or a dict of fields. */
  datatype QuestionItem = NotADictQuestion | Question(fields: Metadata)

  /** The "listOfQuestions" of an item: a list (an absent key is the empty list,
      a string or dict iterates as elements that are not dicts), or a value that
      cannot be iterated, such as `None`, which raises. */
  datatype QuestionList = Listed(questions: seq<QuestionItem>) | NotIterable

  /** An element of the response list. */
  datatype ResponseItem = NotADictItem | Item(listOfQuestions: QuestionList)

  /** The decoded response: a list of items or something else. */
  datatype Response = NotAList | Items(items: seq<ResponseItem>)

  /** The seven keys of a processed question. */
  const RecordKeys: set<string> := {"question_no", "subject", "ministry", "question_text", "pdf_url", "date", "session"}

  /** The record kept for a question dict: its fields renamed, `""` where one is missing. */
  function QuestionRecord(q: Metadata): Metadata {
    map["question_no" := GetOr(q, "quesNo", Str("")),
        "subject" := GetOr(q, "subjects", Str("")),
        "ministry" := GetOr(q, "ministry", Null),
        "question_text" := GetOr(q, "questionText", Str("")),
        "pdf_url" := GetOr(q, "questionsFilePath", Str("")),
        "date" := GetOr(q, "date", Str("")),
        "session" := GetOr(q, "sessionNo", Str(""))]
  }

  /** A question is kept when it is a dict with a truthy "ministry". */
  predicate Kept(q: QuestionItem) {
    q.Question? && TruthyValue(GetOr(q.fields, "ministry", Null))
  }

  /** The records of the kept questions of one list, in order. */
  function KeptRecords(qs: seq<QuestionItem>): seq<Metadata> {
    if qs == [] then []
    else KeptRecords(qs[..|qs| - 1]) + (if Kept(qs[|qs| - 1]) then [QuestionRecord(qs[|qs| - 1].fields)] else [])
  }

  /** The records collected from the items: the loop runs until an item whose
      "listOfQuestions" cannot be iterated raises, and what was collected is returned. */
  function Collected(items: seq<ResponseItem>): seq<Metadata> {
    if items == [] then []
    else match items[0]
      case NotADictItem => Collected(items[1..])
      case Item(NotIterable) => []
      case Item(Listed(qs)) => KeptRecords(qs) + Collected(items[1..])
  }

  /** What `_process_response` returns. */
  function ProcessedQuestions(data: Response): seq<Metadata> {
    if data.NotAList? then [] else Collected(data.items)
  }

  /** Inner loop of `_process_response`: appends the record of each kept question. */
  method AppendQuestions(processedQuestions: seq<Metadata>, questions: seq<QuestionItem>)
    returns (extended: seq<Metadata>)
    ensures extended == processedQuestions + KeptRecords(questions)
  {
    extended := processedQuestions;
    for j := 0 to |questions|
      invariant extended == processedQuestions + KeptRecords(questions[..j])
    {
      assert questions[..j + 1][..j] == questions[..j];
      var q := questions[j];
      if q.NotADictQuestion? {
        continue;
      }
      var ministry := GetOr(q.fields, "ministry", Null);
      if !TruthyValue(ministry) {
        continue;
      }
      var processedQ := QuestionRecord(q.fields);
      extended := extended + [processedQ];
    }
    assert questions[..|questions|] == questions;
  }

  /** `_process_response` */
  method ProcessResponse(data: Response) returns (processedQuestions: seq<Metadata>)
    ensures processedQuestions == ProcessedQuestions(data)
  {
    processedQuestions := [];
    if data.NotAList? {
      return;
    }
    var items := data.items;
    for i := 0 to |items|
      invariant processedQuestions + Collected(items[i..]) == Collected(items)
    {
      assert items[i..][1..] == items[i + 1..];
      match items[i]
      case NotADictItem =>
      case Item(questions) =>
        if questions.NotIterable? {
          assert processedQuestions == Collected(items);
          return;
        }
        processedQuestions := AppendQuestions(processedQuestions, questions.questions);
    }
    assert processedQuestions == Collected(items);
  }

  // ---------------------------------------------------------------------------
  // Properties of the response processing

  /** The positions of the kept questions, in order. */
  function KeptPositions(qs: seq<QuestionItem>): (idx: seq<nat>)
    ensures forall k | 0 <= k < |idx| :: idx[k] < |qs|
  {
    if qs == [] then []
    else KeptPositions(qs[..|qs| - 1]) + (if Kept(qs[|qs| - 1]) then [|qs| - 1] else [])
  }

  /** The kept positions are exactly those of the kept questions, increasing. */
  lemma {:induction false} KeptPositionsSpec(qs: seq<QuestionItem>)
    ensures var idx := KeptPositions(qs);
      (forall k, k' | 0 <= k < k' < |idx| :: idx[k] < idx[k']) &&
      (forall i | 0 <= i < |qs| :: i in idx <==> Kept(qs[i]))
  {
    if qs != [] {
      var p, q := qs[..|qs| - 1], qs[|qs| - 1];
      KeptPositionsSpec(p);
      var ip := KeptPositions(p);
      assert KeptPositions(qs) == ip + (if Kept(q) then [|p|] else []);
      forall i | 0 <= i < |p|
        ensures i in KeptPositions(qs) <==> Kept(qs[i])
      {
        assert p[i] == qs[i];
        assert i in KeptPositions(qs) <==> i in ip;
      }
    }
  }

  /** The records are those of the kept questions, one per kept position, in input order. */
  lemma {:induction false} KeptRecordsSpec(qs: seq<QuestionItem>)
    ensures var idx := KeptPositions(qs);
      |KeptRecords(qs)| == |idx| &&
      forall k | 0 <= k < |idx| :: Kept(qs[idx[k]]) && KeptRecords(qs)[k] == QuestionRecord(qs[idx[k]].fields)
  {
    if qs != [] {
      var p, q := qs[..|qs| - 1], qs[|qs| - 1];
      KeptRecordsSpec(p);
      var ip, rp := KeptPositions(p), KeptRecords(p);
      if Kept(q) {
        assert KeptPositions(qs) == ip + [|p|];
        assert KeptRecords(qs) == rp + [QuestionRecord(q.fields)];
      } else {
        assert KeptPositions(qs) == ip;
        assert KeptRecords(qs) == rp;
      }
      forall k | 0 <= k < |ip| ensures qs[ip[k]] == p[ip[k]] { }
    }
  }

  /** Each record has the seven keys and a truthy ministry. */
  lemma {:induction false} KeptRecordsShape(qs: seq<QuestionItem>)
    ensures forall r | r in KeptRecords(qs) :: r.Keys == RecordKeys && TruthyValue(r["ministry"])
  {
    if qs != [] {
      KeptRecordsShape(qs[..|qs| - 1]);
    }
  }

  lemma {:induction false} CollectedShape(items: seq<ResponseItem>)
    ensures forall r | r in Collected(items) :: r.Keys == RecordKeys && TruthyValue(r["ministry"])
  {
    if items != [] {
      CollectedShape(items[1..]);
      if items[0].Item? && items[0].listOfQuestions.Listed? {
        KeptRecordsShape(items[0].listOfQuestions.questions);
      }
    }
  }

  /** Every processed question has the seven keys and a truthy ministry. */
  lemma ProcessedQuestionsShape(data: Response)
    ensures forall r | r in ProcessedQuestions(data) :: r.Keys == RecordKeys && TruthyValue(r["ministry"])
  {
    if data.Items? {
      CollectedShape(data.items);
    }
  }

  /** Items that all iterate contribute their records one after the other. */
  lemma {:induction false} CollectedConcat(a: seq<ResponseItem>, b: seq<ResponseItem>)
    requires forall k | 0 <= k < |a| :: a[k] != Item(NotIterable)
    ensures Collected(a + b) == Collected(a) + Collected(b)
  {
    if a != [] {
      assert (a + b)[0] == a[0] && (a + b)[1..] == a[1..] + b;
      CollectedConcat(a[1..], b);
    } else {
      assert a + b == b;
    }
  }

  /** An item that raises ends the processing: nothing after it is collected. */
  lemma {:induction false} CollectedStopsAtRaise(a: seq<ResponseItem>, b: seq<ResponseItem>)
    ensures Collected(a + [Item(NotIterable)] + b) == Collected(a)
  {
    if a != [] {
      assert (a + [Item(NotIterable)] + b)[0] == a[0];
      assert (a + [Item(NotIterable)] + b)[1..] == a[1..] + [Item(NotIterable)] + b;
      CollectedStopsAtRaise(a[1..], b);
    } else {
      assert a + [Item(NotIterable)] + b == [Item(NotIterable)] + b;
    }
  }
}
