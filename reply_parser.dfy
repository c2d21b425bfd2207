/** The server-side enrichment of backend/server.py (`process_document_with_ai`): when
    the extracted text is long enough, the reply of the analysis model is parsed line
    by line for a category, a summary and a keyword list. The extraction and the
    model's reply are inputs; `None` stands for a call that threw. */
module ReplyParser {
  import opened Text
  import opened Seqs
  import opened Wrappers

  const CategoryLabel: string := "التصنيف:"
  const SummaryLabel: string := "الملخص:"
  const KeywordsLabel: string := "الكلمات المفتاحية:"

  const DefaultCategory: string := "أخرى"
  const Unclassified: string := "غير مصنف"
  const ClassificationError: string := "خطأ في التصنيف"

  predicate IsNewline(c: char)
  {
    c == '\n'
  }

  predicate IsArabicComma(c: char)
  {
    c == '،'
  }

  /** Python `reply.split('\n')`. */
  function Lines(reply: string): seq<string>
  {
    SplitEach(reply, IsNewline)
  }

  /** Python `line.startswith(tag)`. */
  predicate StartsWith(line: string, tag: string)
  {
    tag <= line
  }

  /** The index of the last line that starts with `tag`. */
  function LastStarting(lines: seq<string>, tag: string): (r: Option<nat>)
    ensures r.Some? ==> r.value < |lines| && StartsWith(lines[r.value], tag)
    ensures r.Some? ==> forall j :: r.value < j < |lines| ==> !StartsWith(lines[j], tag)
    ensures r.None? <==> forall j :: 0 <= j < |lines| ==> !StartsWith(lines[j], tag)
  {
    if lines == [] then None
    else if StartsWith(lines[|lines| - 1], tag) then Some(|lines| - 1)
    else LastStarting(lines[..|lines| - 1], tag)
  }

  lemma LastStartingStep(lines: seq<string>, i: nat, tag: string)
    requires i < |lines|
    ensures LastStarting(lines[..i + 1], tag)
      == if StartsWith(lines[i], tag) then Some(i) else LastStarting(lines[..i], tag)
  {
    assert lines[..i + 1][..i] == lines[..i];
  }

  /** The three labels differ in their third character, so no line starts with two. */
  lemma LabelsExclusive(line: string)
    ensures !(StartsWith(line, CategoryLabel) && StartsWith(line, SummaryLabel))
    ensures !(StartsWith(line, CategoryLabel) && StartsWith(line, KeywordsLabel))
    ensures !(StartsWith(line, SummaryLabel) && StartsWith(line, KeywordsLabel))
  {
    assert CategoryLabel[2] == 'ت' && SummaryLabel[2] == 'م' && KeywordsLabel[2] == 'ك';
  }

  /** `line.replace(tag, '').strip()`. */
  function FieldValue(line: string, tag: string): (r: string)
    requires tag != []
    ensures r != [] ==> !IsPySpace(r[0]) && !IsPySpace(r[|r| - 1])
    ensures IsTrimOf(RemoveAll(line, tag), r, false)
  {
    Trim(RemoveAll(line, tag), false)
  }

  /** Each piece with its Python whitespace cut off at both ends. */
  function StripEach(pieces: seq<string>): (r: seq<string>)
    ensures |r| == |pieces|
    ensures forall k :: 0 <= k < |r| ==> Contains(pieces[k], r[k])
    ensures forall k :: 0 <= k < |r| && r[k] != [] ==> !IsPySpace(r[k][0]) && !IsPySpace(r[k][|r[k]| - 1])
    ensures forall k :: 0 <= k < |r| ==> IsTrimOf(pieces[k], r[k], false)
  {
    seq(|pieces|, k requires 0 <= k < |pieces| => Trim(pieces[k], false))
  }

  /** Stripping keeps a property every character of every piece has. */
  lemma StripEachChars(pieces: seq<string>, p: char -> bool)
    requires forall k :: 0 <= k < |pieces| ==> AllChars(pieces[k], p)
    ensures forall k :: 0 <= k < |pieces| ==> AllChars(StripEach(pieces)[k], p)
  {
    forall k | 0 <= k < |pieces| ensures AllChars(StripEach(pieces)[k], p) {
      TrimAllChars(pieces[k], false, p);
    }
  }

  /** The pieces of a split on the Arabic comma hold none. */
  lemma SplitHasNoComma(s: string)
    ensures forall k :: 0 <= k < |SplitEach(s, IsArabicComma)| ==> AllChars(SplitEach(s, IsArabicComma)[k], NotArabicComma)
  {
    var pieces := SplitEach(s, IsArabicComma);
    forall k | 0 <= k < |pieces| ensures AllChars(pieces[k], NotArabicComma) {
      assert forall j :: 0 <= j < |pieces[k]| ==> !IsArabicComma(pieces[k][j]);
    }
  }

  /** `[k.strip() for k in value.split('،')]`: one keyword more than there are Arabic
      commas, each stripped, empty ones kept. */
  function KeywordList(line: string): (r: seq<string>)
    ensures |r| >= 1
    ensures forall k :: 0 <= k < |r| ==> AllChars(r[k], NotArabicComma)
    ensures forall k :: 0 <= k < |r| ==> r[k] != [] ==> !IsPySpace(r[k][0]) && !IsPySpace(r[k][|r[k]| - 1])
    ensures |r| == |SplitEach(FieldValue(line, KeywordsLabel), IsArabicComma)|
    ensures forall k :: 0 <= k < |r| ==>
      IsTrimOf(SplitEach(FieldValue(line, KeywordsLabel), IsArabicComma)[k], r[k], false)
  {
    var pieces := SplitEach(FieldValue(line, KeywordsLabel), IsArabicComma);
    SplitHasNoComma(FieldValue(line, KeywordsLabel));
    StripEachChars(pieces, NotArabicComma);
    StripEach(pieces)
  }

  /** The pieces `KeywordList` strips are the field value cut at every Arabic comma:
      joined back with the comma they give the value, nothing lost or added. */
  lemma KeywordPiecesJoin(line: string)
    ensures Join(SplitEach(FieldValue(line, KeywordsLabel), IsArabicComma), "،")
      == FieldValue(line, KeywordsLabel)
  {
    SplitEachJoin(FieldValue(line, KeywordsLabel), IsArabicComma, '،');
  }

  predicate NotArabicComma(c: char)
  {
    !IsArabicComma(c)
  }

  /** The category a sequence of lines gives: from the last line carrying the label,
      or the default when there is none. */
  function CategoryOf(lines: seq<string>): string
  {
    match LastStarting(lines, CategoryLabel)
    case None => DefaultCategory
    case Some(i) => FieldValue(lines[i], CategoryLabel)
  }

  function SummaryOf(lines: seq<string>): string
  {
    match LastStarting(lines, SummaryLabel)
    case None => ""
    case Some(i) => FieldValue(lines[i], SummaryLabel)
  }

  function KeywordsOf(lines: seq<string>): seq<string>
  {
    match LastStarting(lines, KeywordsLabel)
    case None => []
    case Some(i) => KeywordList(lines[i])
  }

  function ParsedCategory(reply: string): string
  {
    CategoryOf(Lines(reply))
  }

  function ParsedSummary(reply: string): string
  {
    SummaryOf(Lines(reply))
  }

  function ParsedKeywords(reply: string): seq<string>
  {
    KeywordsOf(Lines(reply))
  }

  /** One more line changes a field exactly when it carries that field's label. */
  lemma ParseStep(lines: seq<string>, i: nat)
    requires i < |lines|
    ensures CategoryOf(lines[..i + 1])
      == if StartsWith(lines[i], CategoryLabel) then FieldValue(lines[i], CategoryLabel) else CategoryOf(lines[..i])
    ensures SummaryOf(lines[..i + 1])
      == if StartsWith(lines[i], SummaryLabel) then FieldValue(lines[i], SummaryLabel) else SummaryOf(lines[..i])
    ensures KeywordsOf(lines[..i + 1])
      == if StartsWith(lines[i], KeywordsLabel) then KeywordList(lines[i]) else KeywordsOf(lines[..i])
  {
    LineAt(lines, i, CategoryLabel);
    LineAt(lines, i, SummaryLabel);
    LineAt(lines, i, KeywordsLabel);
  }

  /** The last line of `lines[..i + 1]` carrying `tag`: line `i` when it carries it,
      otherwise the same line as in `lines[..i]`. */
  lemma LineAt(lines: seq<string>, i: nat, tag: string)
    requires i < |lines|
    ensures var k := LastStarting(lines[..i + 1], tag);
      && (k.Some? <==> StartsWith(lines[i], tag) || LastStarting(lines[..i], tag).Some?)
      && (k.Some? ==>
            lines[..i + 1][k.value]
            == if StartsWith(lines[i], tag) then lines[i] else lines[..i][LastStarting(lines[..i], tag).value])
  {
    LastStartingStep(lines, i, tag);
    var k := LastStarting(lines[..i], tag);
    if !StartsWith(lines[i], tag) && k.Some? {
      assert lines[..i + 1][k.value] == lines[k.value] == lines[..i][k.value];
    }
  }

  /** An empty reply, which the parser skips, gives the defaults. */
  lemma EmptyReply()
    ensures ParsedCategory("") == DefaultCategory && ParsedSummary("") == "" && ParsedKeywords("") == []
  {
    var lines := Lines("");
    assert !StartsWith(lines[0], CategoryLabel) && !StartsWith(lines[0], SummaryLabel)
      && !StartsWith(lines[0], KeywordsLabel);
  }

  /** The body of the parsing loop: the `if`/`elif` chain over the three labels. */
  method ParseLine(line: string, category: string, summary: string, keywords: seq<string>)
    returns (category': string, summary': string, keywords': seq<string>)
    ensures category' == if StartsWith(line, CategoryLabel) then FieldValue(line, CategoryLabel) else category
    ensures summary' == if StartsWith(line, SummaryLabel) then FieldValue(line, SummaryLabel) else summary
    ensures keywords' == if StartsWith(line, KeywordsLabel) then KeywordList(line) else keywords
  {
    category', summary', keywords' := category, summary, keywords;
    LabelsExclusive(line);
    if StartsWith(line, CategoryLabel) {
      category' := FieldValue(line, CategoryLabel);
    } else if StartsWith(line, SummaryLabel) {
      summary' := FieldValue(line, SummaryLabel);
    } else if StartsWith(line, KeywordsLabel) {
      keywords' := KeywordList(line);
    }
  }

  /** The parsing loop: every line carrying a label overwrites that field, so each field
      ends up as given by the last such line, and keeps its default without one. */
  method ParseLines(lines: seq<string>) returns (category: string, summary: string, keywords: seq<string>)
    ensures category == CategoryOf(lines)
    ensures summary == SummaryOf(lines)
    ensures keywords == KeywordsOf(lines)
  {
    category, summary, keywords := DefaultCategory, "", [];
    for i := 0 to |lines|
      invariant category == CategoryOf(lines[..i])
      invariant summary == SummaryOf(lines[..i])
      invariant keywords == KeywordsOf(lines[..i])
    {
      ParseStep(lines, i);
      category, summary, keywords := ParseLine(lines[i], category, summary, keywords);
    }
    assert lines[..|lines|] == lines;
  }

  /** `if analysis_result:` then the loop over `split('\n')`. */
  method ParseAnalysis(reply: string) returns (category: string, summary: string, keywords: seq<string>)
    ensures category == ParsedCategory(reply)
    ensures summary == ParsedSummary(reply)
    ensures keywords == ParsedKeywords(reply)
  {
    if reply == "" {
      EmptyReply();
      return DefaultCategory, "", [];
    }
    category, summary, keywords := ParseLines(Lines(reply));
  }

  /** A line carrying a tag decides that field when no later line carries it. */
  lemma LaterLineWins(reply: string, i: nat)
    requires i < |Lines(reply)| && StartsWith(Lines(reply)[i], CategoryLabel)
    requires forall j :: i < j < |Lines(reply)| ==> !StartsWith(Lines(reply)[j], CategoryLabel)
    ensures ParsedCategory(reply) == FieldValue(Lines(reply)[i], CategoryLabel)
  {
    var r := LastStarting(Lines(reply), CategoryLabel);
    assert r.Some?;
    assert !(r.value < i) && !(i < r.value);
  }

  // ===========================================================================
  // process_document_with_ai

  datatype AiResult = AiResult(extractedText: string, summary: string, autoCategory: string, keywords: seq<string>)

  /** The outcomes of the foreign calls: the text extraction (the vision model for an
      image, the PDF or Word reader otherwise) and the analysis model's reply. */
  datatype AiIo = AiIo(extraction: Option<string>, reply: Option<string>)

  /** The result when a step throws. */
  const ErrorResult: AiResult := AiResult("", "", ClassificationError, [])

  /** The result when there is too little text to analyse. */
  const EmptyResult: AiResult := AiResult("", "", Unclassified, [])

  /** The extracted text: from the extractor for the three known types, empty otherwise. */
  function SourceText(fileType: string, io: AiIo): Option<string>
  {
    if fileType == "image" || fileType == "pdf" || fileType == "word" then io.extraction else Some("")
  }

  /** `not text or len(text.strip()) < 10`. */
  predicate TooShort(text: string)
  {
    text == [] || |Trim(text, false)| < 10
  }

  method ProcessDocumentWithAi(fileType: string, io: AiIo) returns (r: AiResult)
    ensures |r.extractedText| <= 5000
    ensures SourceText(fileType, io).None? ==> r == ErrorResult
    ensures SourceText(fileType, io).Some? && TooShort(SourceText(fileType, io).value) ==> r == EmptyResult
    ensures SourceText(fileType, io).Some? && !TooShort(SourceText(fileType, io).value) ==>
      if io.reply.None? then r == ErrorResult
      else r == AiResult(Take(SourceText(fileType, io).value, 5000), ParsedSummary(io.reply.value),
                         ParsedCategory(io.reply.value), ParsedKeywords(io.reply.value))
  {
    var extracted := SourceText(fileType, io);
    if extracted.None? {
      return ErrorResult;
    }
    var text := extracted.value;
    if TooShort(text) {
      return EmptyResult;
    }
    if io.reply.None? {
      return ErrorResult;
    }
    var category, summary, keywords := ParseAnalysis(io.reply.value);
    r := AiResult(Take(text, 5000), summary, category, keywords);
  }
}
