/** The deterministic text handling of the answer generator (src/llm_client.py):
    recognising a refusal in a reply, cleaning a reply, and assembling the prompt
    from the question, the retrieved context and the ministry. The model call
    itself is not part of this model. */
module LlmClient {
  import opened Strings
  import opened Values
  import opened Seqs

  // ---------------------------------------------------------------------------
  // Refusals (`_is_irrelevant_question`)

  /** The phrases that mark a reply as a refusal on relevance grounds. */
  const IrrelevancePhrases: seq<string> := [
    "unable to answer this question as it is not relevant to the ministry's affairs",
    "not relevant to the ministry's functions",
    "does not fall under the purview of this ministry",
    "outside the scope of this ministry",
    "not within the jurisdiction of this ministry"
  ]

  /** The lower-cased text contains one of the phrases. */
  predicate Irrelevant(text: string) {
    exists k | 0 <= k < |IrrelevancePhrases| :: Contains(Lower(text), IrrelevancePhrases[k])
  }

  /** `_is_irrelevant_question`: the phrases in order, returning at the first one found. */
  method IsIrrelevantQuestion(text: string) returns (irrelevant: bool)
    ensures irrelevant <==> Irrelevant(text)
  {
    var textLower := Lower(text);
    for k := 0 to |IrrelevancePhrases|
      invariant forall j | 0 <= j < k :: !Contains(textLower, IrrelevancePhrases[j])
    {
      if Contains(textLower, IrrelevancePhrases[k]) {
        return true;
      }
    }
    return false;
  }

  /** Upper or lower case makes no difference. */
  lemma IrrelevantIgnoresCase(text: string)
    ensures Irrelevant(Lower(text)) <==> Irrelevant(text)
  {
    LowerIsLower(text);
    LowerOfLower(Lower(text));
  }


  // ---------------------------------------------------------------------------
  // Replies (`_format_response`)

  /** A retrieved document as the prompt reads it: `doc.get("text", "")` and
      `doc.get("metadata", {})`. */
  datatype ContextDoc = ContextDoc(text: Option<string>, metadata: Option<Metadata>)

  /** `_format_response`: the stripped reply, whatever the context (the source
      list it builds is never used). */
  function FormatResponse(text: string, context: seq<ContextDoc>): string {
    Strip(text)
  }

  /** The reply is the text without its surrounding whitespace, the same for
      every context, and formatting it again changes nothing. */
  lemma FormatResponseSpec(text: string, context: seq<ContextDoc>, other: seq<ContextDoc>)
    ensures var r := FormatResponse(text, context);
      Stripped(r) &&
      (exists i | 0 <= i <= |text| - |r| :: text[i..i + |r|] == r && AllSpace(text[..i]) && AllSpace(text[i + |r|..])) &&
      r == FormatResponse(text, other) &&
      FormatResponse(r, context) == r
  {
    StripShape(text);
    StripIdempotent(text);
    var i := |text| - |TrimStart(text)|;
    assert text[i..i + |Strip(text)|] == Strip(text);
  }

  // ---------------------------------------------------------------------------
  // Prompts (`_construct_prompt`)

  function TextOf(doc: ContextDoc): string {
    if doc.text.Some? then doc.text.value else ""
  }

  function MetadataOf(doc: ContextDoc): Metadata {
    if doc.metadata.Some? then doc.metadata.value else map[]
  }

  /** `metadata.get(key, default)` as an f-string renders it. */
  function Field(metadata: Metadata, key: string, default: string): string {
    Show(GetOr(metadata, key, Str(default)))
  }

  /** A missing field renders as its default, a string field as itself. */
  lemma FieldSpec(metadata: Metadata, key: string, default: string)
    ensures key !in metadata ==> Field(metadata, key, default) == default
    ensures key in metadata && metadata[key].Str? ==> Field(metadata, key, default) == metadata[key].s
  {
  }

  /** The indentation the entry template carries on its continuation lines. */
  const Indent: string := "                                "

  /** The label an entry starts with. */
  function Label(number: nat): string {
    "SOURCE " + NatToString(number) + ":"
  }

  /** The lines of the entry for the document numbered `number`: its label, its
      date, session and file name (or their defaults), its stripped text, and the
      indentation the template ends with. */
  function EntryLines(number: nat, doc: ContextDoc): seq<string> {
    var metadata := MetadataOf(doc);
    [Label(number),
     Indent + "Date: " + Field(metadata, "date", "Unknown date"),
     Indent + "Session: " + Field(metadata, "session", "Unknown session"),
     Indent + "Source: " + Field(metadata, "filename", "Unknown source"),
     Indent + "Content: " + Strip(TextOf(doc)),
     Indent]
  }

  /** The f-string of one context entry. */
  function ContextEntry(number: nat, doc: ContextDoc): string {
    Join(EntryLines(number, doc), "\n")
  }

  /** The entry of the document at position `p`, numbered from 1. */
  function EntryAt(doc: ContextDoc, p: nat): string {
    ContextEntry(p + 1, doc)
  }

  function ContextEntries(context: seq<ContextDoc>): seq<string> {
    MapIndexed(context, EntryAt)
  }

  const EntrySeparator: string := "\n---\n"

  function ContextText(context: seq<ContextDoc>): string {
    Join(ContextEntries(context), EntrySeparator)
  }

  /** The fixed text of the prompt template, around the places where the ministry
      (twice), the question and the context text go. */
  datatype PromptTemplate = PromptTemplate(
    opening: string, questionHeading: string, contextHeading: string,
    relevance: string, offTopic: string, refusal: string, closing: string)

  /** The template `_construct_prompt` fills in. */
  const SourceTemplate: PromptTemplate := PromptTemplate(
    "\nYou are an official representative of the ",
    " in the Indian Parliament.\n\nUSER QUESTION:\n",
    "\n\nCONTEXT FROM PARLIAMENTARY RECORDS:\n",
    "\n\nINSTRUCTIONS:\n1. RELEVANCE CHECK:\n   * Answer only if the question relates to ",
    "'s functions, policies, or responsibilities.\n   * If the question is off-topic, respond: \"",
    "I am unable to answer this question as it is not relevant to the ministry's affairs.",
    "\"\n\n2. USING CONTEXT:\n   * Base your answer primarily on the parliamentary records provided in the context.\n   * If the context contains relevant information, cite it specifically (e.g., \"According to the record from [date/session]...\").\n   * If the context is insufficient but the question is valid, use your knowledge of Indian government policies and programs.\n   * If using general knowledge, clearly state: \"Based on general information about the ministry's policies...\"\n\n3. ANSWER FORMAT:\n   * Begin with a formal answer to the question.\n   * Include specific facts, figures, and dates from the context when available.\n   * Organize information logically with clear sections.\n   * End with any relevant initiatives or future plans mentioned in the context.\n\n4. TONE:\n   * Formal and professional\n   * Factual and precise\n   * Solution-oriented\n\nGenerate a comprehensive, accurate response based on these instructions.\nDo not answer irrelevant questions like whats the climate,etc.\n")

  /** The pieces of the prompt, with the ministry, the question and the context
      text in their places. */
  function PromptPieces(t: PromptTemplate, question: string, contextText: string, ministry: string): seq<string> {
    [t.opening, ministry, t.questionHeading, question, t.contextHeading, contextText,
     t.relevance, ministry, t.offTopic, t.refusal, t.closing]
  }

  /** The prompt `_construct_prompt` returns, for the template `t`. */
  function Prompt(t: PromptTemplate, question: string, context: seq<ContextDoc>, ministry: string): string {
    Join(PromptPieces(t, question, ContextText(context), ministry), "")
  }

  /** An entry is its label followed by a line break and its other lines. */
  lemma EntryShape(number: nat, doc: ContextDoc)
    ensures ContextEntry(number, doc) == Label(number) + ("\n" + Join(EntryLines(number, doc)[1..], "\n"))
  {
  }

  /** Text that starts with a label determines the label's number. */
  lemma LabelInjective(number: nat, rest: string, number': nat, rest': string)
    requires Label(number) + rest == Label(number') + rest'
    ensures number == number'
  {
    var x, x' := NatToString(number), NatToString(number');
    var e := Label(number) + rest;
    assert e == "SOURCE " + (x + [':'] + rest);
    assert e == "SOURCE " + (x' + [':'] + rest');
    assert e[7..] == x + [':'] + rest == x' + [':'] + rest';
    SeparatorSplit(x, rest, x', rest', ':');
    NatToStringInjective(number, number');
  }

  /** An entry starts with its own number's label; different numbers give
      different entries. */
  lemma ContextEntryLabel(number: nat, doc: ContextDoc, number': nat, doc': ContextDoc)
    ensures StartsWith(ContextEntry(number, doc), Label(number))
    ensures ContextEntry(number, doc) == ContextEntry(number', doc') ==> number == number'
  {
    EntryShape(number, doc);
    EntryShape(number', doc');
    var rest := "\n" + Join(EntryLines(number, doc)[1..], "\n");
    var rest' := "\n" + Join(EntryLines(number', doc')[1..], "\n");
    assert (Label(number) + rest)[..|Label(number)|] == Label(number);
    if ContextEntry(number, doc) == ContextEntry(number', doc') {
      LabelInjective(number, rest, number', rest');
    }
  }

  /** A line that is the indentation followed by `line` puts `line` in the join. */
  lemma IndentedLineContained(lines: seq<string>, k: nat, line: string)
    requires k < |lines| && lines[k] == Indent + line
    ensures Contains(Join(lines, "\n"), line)
  {
    JoinContains(lines, "\n", k);
    ContainsMiddle(Indent, line, []);
    assert Indent + line + [] == lines[k];
    ContainsTransitive(Join(lines, "\n"), lines[k], line);
  }

  /** The entry shows the document's date, session and file name fields (or
      their defaults) and its stripped text, each on a line of its own. */
  lemma ContextEntryFields(number: nat, doc: ContextDoc)
    ensures var e := ContextEntry(number, doc);
      var metadata := MetadataOf(doc);
      Contains(e, "Date: " + Field(metadata, "date", "Unknown date")) &&
      Contains(e, "Session: " + Field(metadata, "session", "Unknown session")) &&
      Contains(e, "Source: " + Field(metadata, "filename", "Unknown source")) &&
      Contains(e, "Content: " + Strip(TextOf(doc)))
  {
    var metadata := MetadataOf(doc);
    var lines := EntryLines(number, doc);
    IndentedLineContained(lines, 1, "Date: " + Field(metadata, "date", "Unknown date"));
    IndentedLineContained(lines, 2, "Session: " + Field(metadata, "session", "Unknown session"));
    IndentedLineContained(lines, 3, "Source: " + Field(metadata, "filename", "Unknown source"));
    IndentedLineContained(lines, 4, "Content: " + Strip(TextOf(doc)));
  }

  /** Every document's entry, numbered by its position from 1, is in the context text. */
  lemma ContextTextContains(context: seq<ContextDoc>, k: nat)
    requires k < |context|
    ensures Contains(ContextText(context), ContextEntry(k + 1, context[k]))
  {
    var es := ContextEntries(context);
    assert es[k] == EntryAt(context[k], k);
    JoinContains(es, EntrySeparator, k);
  }

  /** The entries are joined in context order: the text for a context begins
      with the text for any shorter prefix of it, then the separator. */
  lemma ContextTextOrder(context: seq<ContextDoc>, k: nat)
    requires 0 < k < |context|
    ensures ContextText(context) == ContextText(context[..k]) + EntrySeparator + Join(ContextEntries(context)[k..], EntrySeparator)
  {
    JoinSplit(ContextEntries(context), EntrySeparator, k);
    MapIndexedPrefix(context, EntryAt, k);
  }

  /** The prompt opens with the template's opening, names the ministry, quotes
      the question and the context text unchanged, and carries the template's refusal. */
  lemma PromptSpec(t: PromptTemplate, question: string, context: seq<ContextDoc>, ministry: string)
    ensures var p := Prompt(t, question, context, ministry);
      StartsWith(p, t.opening) &&
      Contains(p, ministry) && Contains(p, question) && Contains(p, ContextText(context)) &&
      Contains(p, t.refusal)
  {
    var ps := PromptPieces(t, question, ContextText(context), ministry);
    JoinStartsWith(ps, "");
    JoinContains(ps, "", 1);
    JoinContains(ps, "", 3);
    JoinContains(ps, "", 5);
    JoinContains(ps, "", 9);
  }

  /** The entry loop of `_construct_prompt`: one entry per document, numbered from 1. */
  method BuildContextParts(context: seq<ContextDoc>) returns (contextParts: seq<string>)
    ensures contextParts == ContextEntries(context)
  {
    contextParts := [];
    for i := 0 to |context|
      invariant contextParts == ContextEntries(context[..i])
    {
      var doc := context[i];
      var contextEntry := ContextEntry(i + 1, doc);
      assert contextEntry == EntryAt(doc, |context[..i]|);
      MapIndexedSnoc(context[..i], doc, EntryAt);
      assert context[..i + 1] == context[..i] + [doc];
      contextParts := contextParts + [contextEntry];
    }
    assert context[..|context|] == context;
  }

  /** `_construct_prompt`, filling in the template `t` (`SourceTemplate` in the source). */
  method ConstructPrompt(t: PromptTemplate, question: string, context: seq<ContextDoc>, ministry: string) returns (prompt: string)
    ensures prompt == Prompt(t, question, context, ministry)
  {
    var contextParts := BuildContextParts(context);
    var contextText := Join(contextParts, EntrySeparator);
    prompt := Join([t.opening, ministry, t.questionHeading, question, t.contextHeading, contextText,
                    t.relevance, ministry, t.offTopic, t.refusal, t.closing], "");
  }
}
