/**
 * `parseDocument`: a stored document is parsed into text documents, the first one's text
 * is analysed for the book's name, author, level and language, and all of them are
 * summarised at the requested length. The parser, the analysis model and the summary
 * engine are oracles.
 */
module LlamaParse {
  import opened Wrappers
  import opened Strings
  import opened Files

  /** The fields the analysis model extracts (its `summary` field is not used). */
  datatype Analysis = Analysis(bookName: string, author: string, languageLevel: string, bookLanguage: string)

  datatype Metadata = Metadata(bookName: string, author: string, languageLevel: string, bookLanguage: string)

  datatype ParseResult = ParseResult(summary: string, metadata: Metadata)

  /**
   * The foreign services: `load` parses the file into documents (each given by its text,
   * `""` when it has none); `analyse` is the structured analysis of a text; `summarise`
   * answers a query over an index of all the documents. Each may throw.
   */
  datatype Services = Services(
    load: Path -> Result<seq<string>>,
    analyse: string -> Result<Analysis>,
    summarise: (seq<string>, string) -> Result<string>)

  const NoDocuments := "No documents returned from parser"
  const NoText := "Parsed document contains no text"

  /** The approximate number of words asked of the summary. */
  function WordTarget(summaryLength: string): (n: nat)
    ensures summaryLength == "short" ==> n == 100
    ensures summaryLength == "long" ==> n == 450
    ensures summaryLength != "short" && summaryLength != "long" ==> n == 250
    ensures 100 <= n <= 450
  {
    if summaryLength == "short" then 100 else if summaryLength == "long" then 450 else 250
  }

  /** The query put to the summary engine: the requested length is quoted as given, with its word target. */
  function SummaryQuery(summaryLength: string): (q: string)
    ensures StartsWith(q, QueryOpening + summaryLength + " summary")
    ensures EndsWith(q, QueryBody + DecimalText(WordTarget(summaryLength)) + QueryClosing)
  {
    var head := QueryOpening + summaryLength + " summary";
    var tail := QueryBody + DecimalText(WordTarget(summaryLength)) + QueryClosing;
    var q := head + tail;
    assert q[..|head|] == head;
    assert q[|q| - |tail|..] == tail;
    q
  }

  const QueryOpening := "Please provide a "
  const QueryBody := " of the document and give a idea about language complexity of the document in approximately "
  const QueryClosing := " words. Use only English."

  /** The metadata reported for an analysis: its fields as they are, with an empty language read as English. */
  function MetadataOf(analysis: Analysis): (m: Metadata)
    ensures m.bookName == analysis.bookName && m.author == analysis.author && m.languageLevel == analysis.languageLevel
    ensures m.bookLanguage == (if analysis.bookLanguage == "" then "English" else analysis.bookLanguage)
    ensures m.bookLanguage != ""
  {
    Metadata(analysis.bookName, analysis.author, analysis.languageLevel, if analysis.bookLanguage == "" then "English" else analysis.bookLanguage)
  }

  /**
   * `parseDocument(filePath, summaryLength)`: parse, analyse the first document's text,
   * summarise all documents. The first failure is re-thrown and no partial result is given.
   */
  function ParseDocument(filePath: Path, summaryLength: string, s: Services): (r: Result<ParseResult>)
    ensures s.load(filePath).Err? ==> r == Err(s.load(filePath).error)
    ensures s.load(filePath) == Ok([]) ==> r == Err(NoDocuments)
    ensures s.load(filePath).Ok? && s.load(filePath).value != [] && s.load(filePath).value[0] == "" ==> r == Err(NoText)
    ensures r.Ok? ==>
      var docs := s.load(filePath).value;
      docs != [] && docs[0] != "" && s.analyse(docs[0]).Ok? &&
      r.value.metadata == MetadataOf(s.analyse(docs[0]).value) &&
      s.summarise(docs, SummaryQuery(summaryLength)) == Ok(r.value.summary)
    ensures r.Err? && s.load(filePath).Ok? && s.load(filePath).value != [] && s.load(filePath).value[0] != "" ==>
      var docs := s.load(filePath).value;
      s.analyse(docs[0]).Err? || s.summarise(docs, SummaryQuery(summaryLength)).Err?
  {
    var documents := s.load(filePath);
    if documents.Err? then Err(documents.error)
    else if documents.value == [] then Err(NoDocuments)
    else if documents.value[0] == "" then Err(NoText)
    else
      var analysis := s.analyse(documents.value[0]);
      if analysis.Err? then Err(analysis.error)
      else
        var summary := s.summarise(documents.value, SummaryQuery(summaryLength));
        if summary.Err? then Err(summary.error)
        else Ok(ParseResult(summary.value, MetadataOf(analysis.value)))
  }

  /**
   * Only the first document is analysed: two parses whose first documents agree report the
   * same metadata, whatever the other documents are.
   */
  lemma MetadataFromFirstDocument(p1: Path, p2: Path, len1: string, len2: string, s1: Services, s2: Services)
    requires s1.analyse == s2.analyse
    requires s1.load(p1).Ok? && s2.load(p2).Ok? && s1.load(p1).value != [] && s2.load(p2).value != []
    requires s1.load(p1).value[0] == s2.load(p2).value[0]
    requires ParseDocument(p1, len1, s1).Ok? && ParseDocument(p2, len2, s2).Ok?
    ensures ParseDocument(p1, len1, s1).value.metadata == ParseDocument(p2, len2, s2).value.metadata
  {
  }

  /** The summary query differs between the three lengths, so each asks for its own summary. */
  lemma SummaryQueriesDiffer()
    ensures SummaryQuery("short") != SummaryQuery("medium")
    ensures SummaryQuery("medium") != SummaryQuery("long")
    ensures SummaryQuery("short") != SummaryQuery("long")
  {
    var n := |QueryOpening|;
    assert n == 17;
    assert SummaryQuery("short")[n] == (QueryOpening + "short" + " summary")[n] == 's';
    assert SummaryQuery("medium")[n] == (QueryOpening + "medium" + " summary")[n] == 'm';
    assert SummaryQuery("long")[n] == (QueryOpening + "long" + " summary")[n] == 'l';
  }
}
