/** The string and word-set logic of the ministry classifier (src/pdf_classifier.py):
    the name variants a ministry is searched by, keyword extraction and scoring,
    word-overlap similarity and best-match selection, the confidence formulas and
    the way `classify_pdf` combines its two detections.

    Regular-expression search is not modelled: a `Pattern` records what would be
    compiled. PDF text extraction is an input (the page texts). */
module PdfClassifier {
  import opened Strings
  import opened Values
  import opened Seqs
  import Config

  /** A ministry guess and its confidence. */
  datatype Detection = Detection(ministry: string, confidence: real)

  function Unknown(): Detection {
    Detection(Config.UnknownMinistry, 0.0)
  }

  function RealMax(a: real, b: real): real {
    if a >= b then a else b
  }

  function RealMin(a: real, b: real): real {
    if a <= b then a else b
  }

  // ---------------------------------------------------------------------------
  // Name variants (`_build_ministry_patterns`)

  const MinistryPrefix: string := "Ministry of "

  /** `ministry[12:]`, derived only for names starting with "Ministry of ". */
  function Shortened(ministry: string): Option<string> {
    if StartsWith(ministry, MinistryPrefix) then Some(ministry[12..]) else None
  }

  /** The words left out of an abbreviation. */
  const AbbreviationCommon: set<string> := {"of", "the", "and"}

  /** `[word[0].upper() for word in words if word.lower() not in ('of', 'the', 'and')]`;
      the words of `split()` are never empty. */
  function Initials(words: seq<string>): (abbr: string)
  {
    if words == [] then []
    else
      var w := words[|words| - 1];
      Initials(words[..|words| - 1]) + (if w != [] && Lower(w) !in AbbreviationCommon then [UpperChar(w[0])] else [])
  }

  /** The abbreviation, derived only when the lower-cased name contains " and "
      and used only when it has at least two letters. */
  function Abbreviation(ministry: string): Option<string> {
    if Contains(Lower(ministry), " and ") then
      var ws := Words(ministry);
      var abbr := Initials(ws);
      if |abbr| >= 2 then Some(abbr) else None
    else None
  }

  /** A compiled pattern `\b<escaped text>\b`, case-insensitive or not. */
  datatype Pattern = Pattern(text: string, ignoreCase: bool)

  /** The patterns of one ministry: the full name, the shortened name, the abbreviation. */
  function MinistryPatterns(ministry: string): seq<Pattern> {
    [Pattern(ministry, true)]
    + (match Shortened(ministry) case Some(s) => [Pattern(s, true)] case None => [])
    + (match Abbreviation(ministry) case Some(a) => [Pattern(a, false)] case None => [])
  }

  lemma ShortenedSpec(ministry: string)
    ensures Shortened(ministry).Some? <==> StartsWith(ministry, MinistryPrefix)
    ensures Shortened(ministry).Some? ==> MinistryPrefix + Shortened(ministry).value == ministry
  {
    if StartsWith(ministry, MinistryPrefix) {
      assert ministry == ministry[..12] + ministry[12..];
    }
  }

  /** Every letter of the initials is an initial, upper-cased, of a word kept. */
  lemma {:induction false} InitialsSpec(words: seq<string>)
    ensures |Initials(words)| <= |words|
    ensures forall i | 0 <= i < |Initials(words)| :: !('a' <= Initials(words)[i] <= 'z')
    ensures forall i | 0 <= i < |Initials(words)| ::
              exists k | 0 <= k < |words| :: words[k] != [] && Lower(words[k]) !in AbbreviationCommon && Initials(words)[i] == UpperChar(words[k][0])
  {
    if words != [] {
      var p := words[..|words| - 1];
      var w := words[|words| - 1];
      InitialsSpec(p);
      var a := Initials(p);
      assert Initials(words) == a + (if w != [] && Lower(w) !in AbbreviationCommon then [UpperChar(w[0])] else []);
      forall i | 0 <= i < |a|
        ensures exists k | 0 <= k < |words| :: words[k] != [] && Lower(words[k]) !in AbbreviationCommon && Initials(words)[i] == UpperChar(words[k][0])
      {
        var k :| 0 <= k < |p| && p[k] != [] && Lower(p[k]) !in AbbreviationCommon && a[i] == UpperChar(p[k][0]);
        assert p[k] == words[k];
      }
    }
  }

  /** An abbreviation exists exactly when the name contains " and " and has two
      or more kept words; it is then at least two letters long, none lower case. */
  lemma AbbreviationSpec(ministry: string)
    ensures var ws := Words(ministry);
      Abbreviation(ministry).Some? <==> Contains(Lower(ministry), " and ") && |Initials(ws)| >= 2
    ensures Abbreviation(ministry).Some? ==>
              |Abbreviation(ministry).value| >= 2 &&
              forall i | 0 <= i < |Abbreviation(ministry).value| :: !('a' <= Abbreviation(ministry).value[i] <= 'z')
  {
    var ws := Words(ministry);
    InitialsSpec(ws);
  }

  /** A ministry has one to three patterns: its full name first (ignoring case);
      then, exactly when the name starts with "Ministry of ", the rest of the name
      (ignoring case); last, exactly when there is an abbreviation, the abbreviation,
      the only case-sensitive pattern. */
  lemma MinistryPatternsSpec(ministry: string)
    ensures var ps := MinistryPatterns(ministry);
      1 <= |ps| <= 3 && ps[0] == Pattern(ministry, true) &&
      (StartsWith(ministry, MinistryPrefix) <==> |ps| >= 2 && ps[1].ignoreCase) &&
      (StartsWith(ministry, MinistryPrefix) ==> ps[1] == Pattern(ministry[12..], true)) &&
      (Abbreviation(ministry).Some? <==> !ps[|ps| - 1].ignoreCase) &&
      (Abbreviation(ministry).Some? ==> ps[|ps| - 1] == Pattern(Abbreviation(ministry).value, false))
  {
  }

  /** `_build_ministry_patterns` */
  method BuildMinistryPatterns(ministries: seq<string>) returns (patterns: map<string, seq<Pattern>>)
    ensures patterns.Keys == set m | m in ministries
    ensures forall m | m in patterns :: patterns[m] == MinistryPatterns(m)
  {
    patterns := map[];
    for i := 0 to |ministries|
      invariant patterns.Keys == set m | m in ministries[..i]
      invariant forall m | m in patterns :: patterns[m] == MinistryPatterns(m)
    {
      var ministry := ministries[i];
      var ministryPatterns := [Pattern(ministry, true)];
      if StartsWith(ministry, MinistryPrefix) {
        var shortened := ministry[12..];
        ministryPatterns := ministryPatterns + [Pattern(shortened, true)];
      }
      if Contains(Lower(ministry), " and ") {
        var ws := Words(ministry);
          var abbrParts := Initials(ws);
        if |abbrParts| >= 2 {
          ministryPatterns := ministryPatterns + [Pattern(abbrParts, false)];
        }
      }
      patterns := patterns[ministry := ministryPatterns];
      assert ministries[..i + 1] == ministries[..i] + [ministry];
    }
    assert ministries[..|ministries|] == ministries;
  }

  // ---------------------------------------------------------------------------
  // Keywords (`_extract_ministry_keywords`)

  /** The words never used as keywords. */
  const KeywordCommon: set<string> := {"of", "and", "the", "in", "for"}

  /** The lower-cased name with a leading "ministry of " removed. */
  function KeywordName(ministry: string): string {
    var name := Lower(ministry);
    if StartsWith(name, "ministry of ") then name[12..] else name
  }

  predicate IsKeywordWord(word: string) {
    word !in KeywordCommon && |word| > 3
  }

  /** The words kept as keywords, in order. */
  function WordKeywords(words: seq<string>): seq<string> {
    if words == [] then []
    else
      var w := words[|words| - 1];
      WordKeywords(words[..|words| - 1]) + (if IsKeywordWord(w) then [w] else [])
  }

  /** The keywords of one ministry: its name's words that are kept, then the name,
      then the whole lower-cased ministry name. */
  function Keywords(ministry: string): seq<string> {
    var name := KeywordName(ministry);
    WordKeywords(Words(name)) + [name, Lower(ministry)]
  }

  /** The word keywords are exactly the kept words, in their order. */
  lemma {:induction false} WordKeywordsSpec(words: seq<string>)
    ensures |WordKeywords(words)| <= |words|
    ensures forall w :: w in WordKeywords(words) <==> w in words && IsKeywordWord(w)
  {
    if words != [] {
      var p, w := words[..|words| - 1], words[|words| - 1];
      WordKeywordsSpec(p);
      assert words == p + [w];
    }
  }

  /** The lower-cased name less "ministry of " is lower case. */
  lemma KeywordNameSpec(ministry: string)
    ensures IsLower(KeywordName(ministry))
    ensures StartsWith(Lower(ministry), "ministry of ") ==> "ministry of " + KeywordName(ministry) == Lower(ministry)
    ensures !StartsWith(Lower(ministry), "ministry of ") ==> KeywordName(ministry) == Lower(ministry)
  {
    var name := Lower(ministry);
    LowerIsLower(ministry);
    if StartsWith(name, "ministry of ") {
      var t := name[12..];
      assert IsLower(t) by {
        forall i | 0 <= i < |t| ensures LowerChar(t[i]) == t[i] {
          assert t[i] == name[12 + i];
        }
      }
      assert name == name[..12] + t;
    }
  }

  /** At least two keywords, all lower case; the last two are the shortened and
      the full lower-cased name, and the others are the long uncommon words of the name. */
  lemma KeywordsSpec(ministry: string)
    ensures var ks := Keywords(ministry);
      |ks| >= 2 &&
      ks[|ks| - 2] == KeywordName(ministry) && ks[|ks| - 1] == Lower(ministry) &&
      (forall i | 0 <= i < |ks| :: IsLower(ks[i])) &&
      (forall w :: w in ks[..|ks| - 2] <==> w in Words(KeywordName(ministry)) && IsKeywordWord(w))
  {
    var name := KeywordName(ministry);
    var ws := WordKeywords(Words(name));
    var ks := Keywords(ministry);
    KeywordNameSpec(ministry);
    LowerIsLower(ministry);
    WordsOfLower(name);
    WordKeywordsSpec(Words(name));
    assert ks == ws + [name, Lower(ministry)];
    assert ks[..|ks| - 2] == ws;
    forall i | 0 <= i < |ks| ensures IsLower(ks[i]) {
      if i < |ws| { assert ks[i] == ws[i] && ws[i] in ws; }
    }
  }

  /** `_extract_ministry_keywords` */
  method ExtractMinistryKeywords(ministry: string) returns (keywords: seq<string>)
    ensures keywords == Keywords(ministry)
  {
    keywords := [];
    var name := Lower(ministry);
    if StartsWith(name, "ministry of ") {
      name := name[12..];
    }
    var words := Words(name);
    for i := 0 to |words|
      invariant keywords == WordKeywords(words[..i])
    {
      var word := words[i];
      if word !in KeywordCommon && |word| > 3 {
        keywords := keywords + [word];
      }
      assert words[..i + 1][..i] == words[..i];
    }
    assert words[..|words|] == words;
    keywords := keywords + [name];
    keywords := keywords + [Lower(ministry)];
  }

  // ---------------------------------------------------------------------------
  // Similarity (`_text_similarity`, `_find_best_ministry_match`)

  /** The words ignored when comparing texts. */
  const SimilarityCommon: set<string> := {"of", "the", "and", "in", "for", "to", "with"}

  /** `set(text.lower().split()) - common_words` */
  function WordSet(text: string): set<string> {
    (set w | w in Words(Lower(text))) - SimilarityCommon
  }

  /** The overlap of two word sets relative to the larger; 0 when either is empty. */
  function Overlap(w1: set<string>, w2: set<string>): real {
    if w1 == {} || w2 == {} then 0.0
    else (|w1 * w2| as real) / (if |w1| >= |w2| then |w1| else |w2|) as real
  }

  /** `_text_similarity` */
  function TextSimilarity(text1: string, text2: string): real {
    Overlap(WordSet(text1), WordSet(text2))
  }

  /** A ratio of sizes `a / b` with `a <= b`. */
  lemma RatioSpec(a: nat, b: nat)
    requires 0 < b && a <= b
    ensures 0.0 <= a as real / b as real <= 1.0
    ensures a as real / b as real > 0.0 <==> a > 0
    ensures a as real / b as real == 1.0 <==> a == b
  {
    var r := a as real / b as real;
    assert r * (b as real) == a as real;
  }

  /** The overlap lies in [0, 1], is symmetric, is positive exactly when the sets
      share a word, and is 1 exactly when they are the same non-empty set. */
  lemma OverlapSpec(w1: set<string>, w2: set<string>)
    ensures 0.0 <= Overlap(w1, w2) <= 1.0
    ensures Overlap(w1, w2) == Overlap(w2, w1)
    ensures Overlap(w1, w2) > 0.0 <==> w1 * w2 != {}
    ensures Overlap(w1, w2) == 1.0 <==> w1 != {} && w1 == w2
  {
    if w1 != {} && w2 != {} {
      var i := w1 * w2;
      var m := if |w1| >= |w2| then |w1| else |w2|;
      assert w2 * w1 == i;
      SubsetCard(i, w1);
      SubsetCard(i, w2);
      RatioSpec(|i|, m);
      assert Overlap(w1, w2) == |i| as real / m as real;
      assert |i| > 0 <==> i != {} by {
        if i != {} {
          var x :| x in i;
          SubsetCard({x}, i);
        }
      }
      assert |i| == m <==> w1 == w2 by {
        if |i| == m {
          SubsetCardEqual(i, w1);
          SubsetCardEqual(i, w2);
        }
        if w1 == w2 {
          assert i == w1;
        }
      }
    } else {
      assert w1 * w2 == {};
    }
  }

  /** Lower-casing either text first changes nothing. */
  lemma WordSetIgnoresCase(text: string)
    ensures WordSet(Lower(text)) == WordSet(text)
  {
    LowerIsLower(text);
    LowerOfLower(Lower(text));
  }

  /** `_text_similarity` lies in [0, 1], is symmetric and ignores case; it is 0
      when either text has no uncommon word, and 1 exactly when both have the same uncommon words. */
  lemma TextSimilaritySpec(text1: string, text2: string)
    ensures 0.0 <= TextSimilarity(text1, text2) <= 1.0
    ensures TextSimilarity(text1, text2) == TextSimilarity(text2, text1)
    ensures TextSimilarity(Lower(text1), text2) == TextSimilarity(text1, text2)
    ensures TextSimilarity(text1, Lower(text2)) == TextSimilarity(text1, text2)
    ensures WordSet(text1) == {} || WordSet(text2) == {} ==> TextSimilarity(text1, text2) == 0.0
    ensures TextSimilarity(text1, text2) == 1.0 <==> WordSet(text1) != {} && WordSet(text1) == WordSet(text2)
  {
    OverlapSpec(WordSet(text1), WordSet(text2));
    WordSetIgnoresCase(text1);
    WordSetIgnoresCase(text2);
  }

  /** The text a ministry is compared by: its name less "Ministry of ", lower-cased. */
  function CompareText(ministry: string): string {
    if StartsWith(ministry, MinistryPrefix) then Lower(ministry[12..]) else Lower(ministry)
  }

  /** The similarity of one ministry to a text, as `_find_best_ministry_match` computes it. */
  function MatchScore(ministry: string, text: string): real {
    TextSimilarity(CompareText(ministry), Lower(text))
  }

  /** The best of `ministries` under `score`, starting from "Unknown Ministry"
      at 0: a later ministry replaces the best so far only with a strictly higher score. */
  function BestBy(ministries: seq<string>, score: string -> real): Detection {
    if ministries == [] then Unknown()
    else
      var best := BestBy(ministries[..|ministries| - 1], score);
      var m := ministries[|ministries| - 1];
      if score(m) > best.confidence then Detection(m, score(m)) else best
  }

  /** With scores in [0, 1]: no ministry scores above the best; a zero best
      score means "Unknown Ministry"; a positive one belongs to the first ministry attaining it. */
  lemma {:induction false} BestBySpec(ministries: seq<string>, score: string -> real)
    requires forall i | 0 <= i < |ministries| :: 0.0 <= score(ministries[i]) <= 1.0
    ensures var b := BestBy(ministries, score);
      0.0 <= b.confidence <= 1.0 &&
      (forall i | 0 <= i < |ministries| :: score(ministries[i]) <= b.confidence) &&
      (b.confidence == 0.0 ==> b == Unknown()) &&
      (b.confidence > 0.0 ==> exists i | 0 <= i < |ministries| ::
         ministries[i] == b.ministry && score(ministries[i]) == b.confidence &&
         forall j | 0 <= j < i :: score(ministries[j]) < b.confidence)
  {
    if ministries != [] {
      var p, m := ministries[..|ministries| - 1], ministries[|ministries| - 1];
      assert forall i | 0 <= i < |p| :: ministries[i] == p[i];
      BestBySpec(p, score);
      var best := BestBy(p, score);
      if score(m) > best.confidence {
        assert ministries[|p|] == m;
      } else if best.confidence > 0.0 {
        var i :| 0 <= i < |p| && p[i] == best.ministry && score(p[i]) == best.confidence &&
          forall j | 0 <= j < i :: score(p[j]) < best.confidence;
        assert ministries[i] == p[i];
      }
    }
  }

  /** `_find_best_ministry_match`'s result. */
  function BestMatch(ministries: seq<string>, text: string): Detection {
    BestBy(ministries, m => MatchScore(m, text))
  }

  /** No ministry matches the text better than the result; a zero score means
      "Unknown Ministry"; a positive one is the score of the first ministry attaining it. */
  lemma BestMatchSpec(ministries: seq<string>, text: string)
    ensures var b := BestMatch(ministries, text);
      0.0 <= b.confidence <= 1.0 &&
      (forall i | 0 <= i < |ministries| :: MatchScore(ministries[i], text) <= b.confidence) &&
      (b.confidence == 0.0 ==> b == Unknown()) &&
      (b.confidence > 0.0 ==> exists i | 0 <= i < |ministries| ::
         ministries[i] == b.ministry && MatchScore(ministries[i], text) == b.confidence &&
         forall j | 0 <= j < i :: MatchScore(ministries[j], text) < b.confidence)
  {
    var score := m => MatchScore(m, text);
    forall i | 0 <= i < |ministries| ensures 0.0 <= score(ministries[i]) <= 1.0 {
      TextSimilaritySpec(CompareText(ministries[i]), Lower(text));
    }
    BestBySpec(ministries, score);
  }

  /** `_find_best_ministry_match` */
  method FindBestMinistryMatch(ministries: seq<string>, text: string) returns (best: Detection)
    ensures best == BestMatch(ministries, text)
  {
    var bestMinistry := Config.UnknownMinistry;
    var bestScore := 0.0;
    var lowered := Lower(text);
    ghost var score := m => MatchScore(m, text);
    for i := 0 to |ministries|
      invariant Detection(bestMinistry, bestScore) == BestBy(ministries[..i], score)
    {
      var ministry := ministries[i];
      var compareText := if StartsWith(ministry, MinistryPrefix) then Lower(ministry[12..]) else Lower(ministry);
      assert compareText == CompareText(ministry);
      var similarity := TextSimilarity(compareText, lowered);
      assert similarity == score(ministry);
      if similarity > bestScore {
        bestScore := similarity;
        bestMinistry := ministry;
      }
      assert ministries[..i + 1][..i] == ministries[..i];
    }
    assert ministries[..|ministries|] == ministries;
    best := Detection(bestMinistry, bestScore);
  }

  // ---------------------------------------------------------------------------
  // First-page detection (`_detect_from_first_page`)

  /** `pattern.search(text)`, left uninterpreted. */
  type Matcher = (Pattern, string) -> bool

  /** The classifier's `ministry_patterns` table; it is scanned in the order of
      the configured ministries, the order it was built in. */
  type PatternTable = map<string, seq<Pattern>>

  predicate AnyMatch(patterns: seq<Pattern>, text: string, matches: Matcher) {
    exists k | 0 <= k < |patterns| :: matches(patterns[k], text)
  }

  /** The first of `ministries` satisfying `hit`. */
  function FirstWhere(ministries: seq<string>, hit: string -> bool): (r: Option<string>)
    ensures r.Some? ==> r.value in ministries && hit(r.value)
  {
    if ministries == [] then None
    else if hit(ministries[0]) then Some(ministries[0])
    else FirstWhere(ministries[1..], hit)
  }

  lemma {:induction false} FirstWhereSpec(ministries: seq<string>, hit: string -> bool)
    ensures var h := FirstWhere(ministries, hit);
      (h.Some? ==> exists i | 0 <= i < |ministries| :: ministries[i] == h.value && hit(h.value) &&
                     forall j | 0 <= j < i :: !hit(ministries[j])) &&
      (h.None? ==> forall i | 0 <= i < |ministries| :: !hit(ministries[i]))
  {
    if ministries != [] && !hit(ministries[0]) {
      var rest := ministries[1..];
      FirstWhereSpec(rest, hit);
      assert forall i | 1 <= i < |ministries| :: ministries[i] == rest[i - 1];
      var h := FirstWhere(ministries, hit);
      if h.Some? {
        var i :| 0 <= i < |rest| && rest[i] == h.value && hit(h.value) && forall j | 0 <= j < i :: !hit(rest[j]);
        assert ministries[i + 1] == h.value;
      }
    }
  }

  /** The first ministry, in order, one of whose patterns matches `text`. */
  function PatternHit(ministries: seq<string>, patterns: PatternTable, text: string, matches: Matcher): Option<string> {
    FirstWhere(ministries, m => m in patterns && AnyMatch(patterns[m], text, matches))
  }

  /** One header regex's captured text: searched for a ministry pattern, giving
      confidence 0.9, and failing that compared by similarity, accepted above 0.5. */
  function HeaderStep(header: string, ministries: seq<string>, patterns: PatternTable, matches: Matcher): Option<Detection> {
    var text := Strip(header);
    match PatternHit(ministries, patterns, text, matches)
    case Some(m) => Some(Detection(m, 0.9))
    case None =>
      var best := BestMatch(ministries, text);
      if best.confidence > 0.5 then Some(best) else None
  }

  /** The header step: the header regexes in order, each one's captured text
      (when it matched) given to `HeaderStep`, the first decision winning. */
  function HeaderDetection(headers: seq<Option<string>>, ministries: seq<string>, patterns: PatternTable, matches: Matcher): Option<Detection> {
    if headers == [] then None
    else
      var d := if headers[0].Some? then HeaderStep(headers[0].value, ministries, patterns, matches) else None;
      if d.Some? then d else HeaderDetection(headers[1..], ministries, patterns, matches)
  }

  /** `max(0.5, 0.8 - position / 1000)` */
  function PreviewConfidence(position: nat): real {
    RealMax(0.5, 0.8 - position as real / 1000.0)
  }

  /** Earlier mentions never get a lower confidence, and it stays in [0.5, 0.8]. */
  lemma PreviewConfidenceSpec(position: nat, later: nat)
    ensures 0.5 <= PreviewConfidence(position) <= 0.8
    ensures position <= 300 ==> PreviewConfidence(position) == 0.8 - position as real / 1000.0
    ensures position <= later ==> PreviewConfidence(later) <= PreviewConfidence(position)
  {
  }

  /** The preview step: the first ministry, in order, whose patterns match the
      preview and whose lower-cased name occurs in it, at the confidence its position gives. */
  function PreviewScan(ministries: seq<string>, patterns: PatternTable, preview: string, matches: Matcher): Option<Detection> {
    if ministries == [] then None
    else
      var m := ministries[0];
      var position := Find(preview, Lower(m));
      if m in patterns && AnyMatch(patterns[m], preview, matches) && position >= 0 then
        Some(Detection(m, PreviewConfidence(position)))
      else PreviewScan(ministries[1..], patterns, preview, matches)
  }

  /** The first 500 characters of the stripped first page, lower-cased. */
  function Preview(firstPage: string): string {
    Lower(firstPage[..Min(500, |firstPage|)])
  }

  /** `_detect_from_first_page`, given the page texts and, for each header
      regex in order, its captured text on the stripped first page. */
  function FirstPageDetection(pages: seq<string>, headers: seq<Option<string>>, ministries: seq<string>, patterns: PatternTable, matches: Matcher): Detection {
    if pages == [] || Strip(pages[0]) == [] then Unknown()
    else match HeaderDetection(headers, ministries, patterns, matches)
      case Some(d) => d
      case None =>
        match PreviewScan(ministries, patterns, Preview(Strip(pages[0])), matches)
        case Some(d) => d
        case None => Unknown()
  }

  /** What is a sound first-page detection: a configured ministry with a confidence of at least 0.5. */
  predicate Confident(d: Detection, ministries: seq<string>) {
    d.ministry in ministries && 0.5 <= d.confidence <= 1.0
  }

  lemma HeaderStepSpec(header: string, ministries: seq<string>, patterns: PatternTable, matches: Matcher)
    ensures var d := HeaderStep(header, ministries, patterns, matches);
      d.Some? ==> Confident(d.value, ministries)
  {
    var text := Strip(header);
    var hit := PatternHit(ministries, patterns, text, matches);
    if hit.None? {
      BestMatchSpec(ministries, text);
    }
  }

  lemma {:induction false} HeaderDetectionSpec(headers: seq<Option<string>>, ministries: seq<string>, patterns: PatternTable, matches: Matcher)
    ensures var d := HeaderDetection(headers, ministries, patterns, matches);
      d.Some? ==> Confident(d.value, ministries)
  {
    if headers != [] {
      HeaderDetectionSpec(headers[1..], ministries, patterns, matches);
      if headers[0].Some? {
        HeaderStepSpec(headers[0].value, ministries, patterns, matches);
      }
    }
  }

  /** A preview hit names a configured ministry whose lower-cased name occurs in
      the preview, at the confidence of its first occurrence. */
  lemma {:induction false} PreviewScanSpec(ministries: seq<string>, patterns: PatternTable, preview: string, matches: Matcher)
    ensures var d := PreviewScan(ministries, patterns, preview, matches);
      d.Some? ==> Confident(d.value, ministries) &&
                  Contains(preview, Lower(d.value.ministry)) &&
                  d.value.confidence == PreviewConfidence(Find(preview, Lower(d.value.ministry)))
  {
    if ministries != [] {
      var m := ministries[0];
      PreviewConfidenceSpec(0, 0);
      if Find(preview, Lower(m)) >= 0 {
        FindContains(preview, Lower(m));
        PreviewConfidenceSpec(Find(preview, Lower(m)), 0);
      }
      PreviewScanSpec(ministries[1..], patterns, preview, matches);
    }
  }

  /** The first-page detection is "Unknown Ministry" at 0, or a configured ministry at 0.5 or more. */
  lemma FirstPageDetectionSpec(pages: seq<string>, headers: seq<Option<string>>, ministries: seq<string>, patterns: PatternTable, matches: Matcher)
    ensures var d := FirstPageDetection(pages, headers, ministries, patterns, matches);
      d == Unknown() || Confident(d, ministries)
  {
    HeaderDetectionSpec(headers, ministries, patterns, matches);
    if pages != [] {
      PreviewScanSpec(ministries, patterns, Preview(Strip(pages[0])), matches);
    }
  }

  // ---------------------------------------------------------------------------
  // Content keywords (`_detect_from_content_keywords`)

  /** `s.count(p)`: non-overlapping occurrences, scanning left to right; the
      empty string occurs `|s| + 1` times. */
  function CountIn(s: string, p: string): nat
    decreases |s|
  {
    if p == [] then |s| + 1
    else
      var i := Find(s, p);
      if i < 0 then 0 else 1 + CountIn(s[i + |p|..], p)
  }

  /** A non-empty string occurs at least once exactly when it is contained. */
  lemma CountInPositive(s: string, p: string)
    ensures CountIn(s, p) > 0 <==> p == [] || Contains(s, p)
  {
    if p != [] {
      FindContains(s, p);
    } else {
      assert OccursAt(s, p, 0);
    }
  }

  /** One keyword's share of a score: its occurrences weighted by its length over 5. */
  function KeywordTerm(content: string, keyword: string): real {
    (CountIn(content, Lower(keyword)) as real) * (|keyword| as real / 5.0)
  }

  /** A keyword contributes a positive share exactly when it is non-empty and occurs. */
  lemma KeywordTermSpec(content: string, keyword: string)
    ensures KeywordTerm(content, keyword) >= 0.0
    ensures KeywordTerm(content, keyword) > 0.0 <==> keyword != [] && Contains(content, Lower(keyword))
  {
    var c := CountIn(content, Lower(keyword)) as real;
    var w := |keyword| as real / 5.0;
    CountInPositive(content, Lower(keyword));
    assert c >= 0.0 && w >= 0.0;
    if c > 0.0 && w > 0.0 {
      assert c * w > 0.0;
    } else {
      assert c == 0.0 || w == 0.0;
      assert c * w == 0.0;
    }
  }

  /** `sum(content.count(k.lower()) * (len(k) / 5) for k in keywords)` */
  function KeywordScore(content: string, keywords: seq<string>): real {
    if keywords == [] then 0.0
    else KeywordScore(content, keywords[..|keywords| - 1]) + KeywordTerm(content, keywords[|keywords| - 1])
  }

  /** A keyword score is never negative, and is positive exactly when some
      non-empty keyword occurs in the content. */
  lemma {:induction false} KeywordScoreSpec(content: string, keywords: seq<string>)
    ensures KeywordScore(content, keywords) >= 0.0
    ensures KeywordScore(content, keywords) > 0.0 <==>
              exists k | 0 <= k < |keywords| :: keywords[k] != [] && Contains(content, Lower(keywords[k]))
  {
    if keywords != [] {
      var p, k := keywords[..|keywords| - 1], keywords[|keywords| - 1];
      KeywordScoreSpec(content, p);
      KeywordTermSpec(content, k);
      assert forall j | 0 <= j < |p| :: keywords[j] == p[j];
      if KeywordScore(content, p) > 0.0 {
        var j :| 0 <= j < |p| && p[j] != [] && Contains(content, Lower(p[j]));
        assert keywords[j] == p[j];
      } else if KeywordTerm(content, k) > 0.0 {
        assert keywords[|p|] == k;
      }
    }
  }

  /** One ministry's keyword score. */
  function MinistryScore(ministry: string, content: string): real {
    KeywordScore(content, Keywords(ministry))
  }

  /** `page.page_content + "\n"` for each page, in order. */
  function PagesText(pages: seq<string>): string {
    if pages == [] then []
    else PagesText(pages[..|pages| - 1]) + pages[|pages| - 1] + "\n"
  }

  /** The lower-cased text of the first three pages (or fewer). */
  function ContentOf(pages: seq<string>): string {
    Lower(PagesText(pages[..Min(3, |pages|)]))
  }

  /** The ministries, in order, with their positive scores. */
  function Scored(ministries: seq<string>, content: string): seq<(string, real)> {
    if ministries == [] then []
    else
      var m := ministries[|ministries| - 1];
      var s := MinistryScore(m, content);
      Scored(ministries[..|ministries| - 1], content) + (if s > 0.0 then [(m, s)] else [])
  }

  /** The scored entries are exactly the ministries with a positive score, with that score. */
  lemma {:induction false} ScoredSpec(ministries: seq<string>, content: string)
    ensures forall e | e in Scored(ministries, content) :: e.0 in ministries && e.1 == MinistryScore(e.0, content) > 0.0
    ensures forall i | 0 <= i < |ministries| && MinistryScore(ministries[i], content) > 0.0 ::
              (ministries[i], MinistryScore(ministries[i], content)) in Scored(ministries, content)
  {
    if ministries != [] {
      var p := ministries[..|ministries| - 1];
      ScoredSpec(p, content);
      assert forall i | 0 <= i < |p| :: ministries[i] == p[i];
    }
  }

  /** `max(items, key=score)`: the first entry with the greatest score. */
  function TopScored(scored: seq<(string, real)>): (string, real)
    requires scored != []
  {
    if |scored| == 1 then scored[0]
    else
      var best := TopScored(scored[..|scored| - 1]);
      var e := scored[|scored| - 1];
      if e.1 > best.1 then e else best
  }

  lemma {:induction false} TopScoredSpec(scored: seq<(string, real)>)
    requires scored != []
    ensures var t := TopScored(scored);
      t in scored && (forall e | e in scored :: e.1 <= t.1) &&
      exists i | 0 <= i < |scored| :: scored[i] == t && forall j | 0 <= j < i :: scored[j].1 < t.1
  {
    if |scored| > 1 {
      var p, e := scored[..|scored| - 1], scored[|scored| - 1];
      TopScoredSpec(p);
      assert scored == p + [e];
      var t := TopScored(p);
      if e.1 <= t.1 {
        var i :| 0 <= i < |p| && p[i] == t && forall j | 0 <= j < i :: p[j].1 < t.1;
        assert scored[i] == t;
        assert forall j | 0 <= j < i :: scored[j] == p[j];
      } else {
        assert scored[|p|] == e;
        assert forall j | 0 <= j < |p| :: scored[j] == p[j];
      }
    }
  }

  /** `min(0.8, score / 10)` */
  function KeywordConfidence(score: real): real {
    RealMin(0.8, score / 10.0)
  }

  lemma KeywordConfidenceSpec(score: real)
    ensures KeywordConfidence(score) <= 0.8
    ensures score > 0.0 ==> KeywordConfidence(score) > 0.0
    ensures score <= 8.0 ==> KeywordConfidence(score) == score / 10.0
  {
  }

  /** `_detect_from_content_keywords`, given the page texts. */
  function ContentDetection(pages: seq<string>, ministries: seq<string>): Detection {
    if pages == [] then Unknown()
    else
      var scored := Scored(ministries, ContentOf(pages));
      if scored == [] then Unknown()
      else
        var top := TopScored(scored);
        Detection(top.0, KeywordConfidence(top.1))
  }

  /** The keyword detection has confidence in [0, 0.8]. It is positive exactly
      when there are pages and some ministry has a positive score; the ministry
      is then one with the highest score, and its confidence that score's. */
  lemma ContentDetectionSpec(pages: seq<string>, ministries: seq<string>)
    ensures var d := ContentDetection(pages, ministries);
      var content := ContentOf(pages);
      0.0 <= d.confidence <= 0.8 &&
      (d.confidence > 0.0 <==> pages != [] && exists i | 0 <= i < |ministries| :: MinistryScore(ministries[i], content) > 0.0) &&
      (d.confidence == 0.0 ==> d == Unknown()) &&
      (d.confidence > 0.0 ==>
         d.ministry in ministries &&
         d.confidence == KeywordConfidence(MinistryScore(d.ministry, content)) &&
         (forall i | 0 <= i < |ministries| :: MinistryScore(ministries[i], content) <= MinistryScore(d.ministry, content)))
  {
    if pages != [] {
      var content := ContentOf(pages);
      var scored := Scored(ministries, content);
      ScoredSpec(ministries, content);
      if scored != [] {
        TopScoredSpec(scored);
        var top := TopScored(scored);
        KeywordConfidenceSpec(top.1);
        assert scored[0] in scored;
        forall i | 0 <= i < |ministries| ensures MinistryScore(ministries[i], content) <= top.1 {
          if MinistryScore(ministries[i], content) > 0.0 {
            assert (ministries[i], MinistryScore(ministries[i], content)) in scored;
          }
        }
      } else {
        assert forall i | 0 <= i < |ministries| :: MinistryScore(ministries[i], content) <= 0.0;
      }
    }
  }

  /** The text scanned for keywords. */
  method PageContent(pages: seq<string>) returns (content: string)
    ensures content == ContentOf(pages)
  {
    var first := pages[..Min(3, |pages|)];
    content := "";
    for i := 0 to |first|
      invariant content == PagesText(first[..i])
    {
      content := content + first[i] + "\n";
      assert first[..i + 1][..i] == first[..i];
    }
    assert first[..|first|] == first;
    content := Lower(content);
  }

  /** The score loop for one ministry. */
  method ScoreMinistry(content: string, ministry: string) returns (score: real)
    ensures score == MinistryScore(ministry, content)
  {
    var keywords := ExtractMinistryKeywords(ministry);
    score := 0.0;
    for k := 0 to |keywords|
      invariant score == KeywordScore(content, keywords[..k])
    {
      var occurrences := CountIn(content, Lower(keywords[k]));
      score := score + (occurrences as real) * (|keywords[k]| as real / 5.0);
      assert score == KeywordScore(content, keywords[..k]) + KeywordTerm(content, keywords[k]);
      assert keywords[..k + 1][..k] == keywords[..k];
    }
    assert keywords[..|keywords|] == keywords;
  }

  /** `_detect_from_content_keywords` */
  method DetectFromContentKeywords(pages: seq<string>, ministries: seq<string>) returns (d: Detection)
    ensures d == ContentDetection(pages, ministries)
  {
    if pages == [] {
      return Unknown();
    }
    var content := PageContent(pages);
    var ministryScores: seq<(string, real)> := [];
    for i := 0 to |ministries|
      invariant ministryScores == Scored(ministries[..i], content)
    {
      var score := ScoreMinistry(content, ministries[i]);
      if score > 0.0 {
        ministryScores := ministryScores + [(ministries[i], score)];
      }
      assert ministries[..i + 1][..i] == ministries[..i];
    }
    assert ministries[..|ministries|] == ministries;
    if ministryScores != [] {
      var top := TopScored(ministryScores);
      return Detection(top.0, KeywordConfidence(top.1));
    }
    return Unknown();
  }

  // ---------------------------------------------------------------------------
  // The decision (`classify_pdf`)

  /** A confident first-page result stands; otherwise the keyword result wins
      only with a strictly higher confidence. */
  function Classify(firstPage: Detection, keywords: Detection): Detection {
    if firstPage.confidence >= 0.7 then firstPage
    else if keywords.confidence > firstPage.confidence then keywords
    else firstPage
  }

  lemma ClassifySpec(firstPage: Detection, keywords: Detection)
    ensures var d := Classify(firstPage, keywords);
      (firstPage.confidence >= 0.7 ==> d == firstPage) &&
      (firstPage.confidence < 0.7 ==> d.confidence == RealMax(firstPage.confidence, keywords.confidence)) &&
      (d == keywords <== firstPage.confidence < 0.7 && keywords.confidence > firstPage.confidence) &&
      (d == firstPage <== keywords.confidence <= firstPage.confidence) &&
      d.confidence >= firstPage.confidence
  {
  }

  /** `classify_pdf`, given what the two detections read from the PDF. */
  function ClassifyPdf(pages: seq<string>, headers: seq<Option<string>>, ministries: seq<string>,
                       patterns: PatternTable, matches: Matcher): Detection {
    Classify(FirstPageDetection(pages, headers, ministries, patterns, matches), ContentDetection(pages, ministries))
  }

  /** A classification is "Unknown Ministry" at 0, or a configured ministry with
      a confidence in (0, 1]. */
  lemma ClassifyPdfSpec(pages: seq<string>, headers: seq<Option<string>>, ministries: seq<string>,
                        patterns: PatternTable, matches: Matcher)
    ensures var d := ClassifyPdf(pages, headers, ministries, patterns, matches);
      d == Unknown() || (d.ministry in ministries && 0.0 < d.confidence <= 1.0)
  {
    FirstPageDetectionSpec(pages, headers, ministries, patterns, matches);
    ContentDetectionSpec(pages, ministries);
  }
}
