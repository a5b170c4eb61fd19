/**
 * The article tools: fetching an article's text from a web page, detecting its CEFR level
 * and rewriting it at a target level, with the language model as an oracle.
 */
module ArticleService {
  import opened Wrappers
  import opened Strings
  import opened Seqs
  import Cefr

  /** The most characters of the text the level detection looks at. */
  const ExcerptLength := 1000

  const FetchFailed := "Failed to fetch article from URL"
  const InvalidLevel := "Invalid CEFR level detected"
  const InvalidTarget := "Invalid target CEFR level"

  /**
   * The text of a fetched page once its script, style, nav, header and footer elements are
   * removed: of all its `article` elements, of all its `main` elements and of its `body`.
   */
  datatype PageText = PageText(article: string, main: string, body: string)

  /** The two prompts put to the language model; `Render` is their text. */
  datatype Prompt = DetectPrompt(excerpt: string) | RewritePrompt(text: string, targetLevel: string)

  /**
   * The language model: the content of the first choice for the rendered prompt (None when
   * it is null), or the error thrown.
   */
  type Complete = Prompt -> Result<Option<string>>

  /** The article text of a page: the first non-empty of its article, main and body texts, trimmed. */
  function ArticleText(page: PageText): (text: string)
    ensures Trimmed(text)
    ensures page.article != "" ==> text == Trim(page.article)
    ensures page.article == "" && page.main != "" ==> text == Trim(page.main)
    ensures page.article == "" && page.main == "" ==> text == Trim(page.body)
  {
    Trim(if page.article != "" then page.article else if page.main != "" then page.main else page.body)
  }

  /** `fetchArticleFromUrl(url)`: `fetchPage(url)` is the page's text, None when fetching or parsing threw. */
  function FetchArticleFromUrl(url: string, fetchPage: string -> Option<PageText>): (r: Result<string>)
    ensures r.Err? <==> fetchPage(url).None?
    ensures r.Err? ==> r.error == FetchFailed
    ensures r.Ok? ==> r.value == ArticleText(fetchPage(url).value)
  {
    var page := fetchPage(url);
    if page.None? then Err(FetchFailed) else Ok(ArticleText(page.value))
  }

  /** `text.slice(0, 1000)`. */
  function Excerpt(text: string): (e: string)
    ensures |e| == Min(ExcerptLength, |text|) && e == text[..|e|]
  {
    text[..Min(ExcerptLength, |text|)]
  }

  const DetectHead := "\n    Analyze the following text and determine its CEFR language level (A1, A2, B1, B2, C1, or C2).\n" +
    "    Consider the following factors:\n    - Vocabulary complexity\n    - Grammar structures\n" +
    "    - Sentence complexity\n    - Overall text coherence\n    \n    Text to analyze:\n    \""
  const DetectTail := "\" // Using first 1000 chars for analysis\n    \n" +
    "    Return only the CEFR level (A1, A2, B1, B2, C1, or C2) without any explanation.\n  "

  /**
   * The text of a prompt as the application writes it. Distinct detection prompts render
   * differently (`RenderDetectInjective`), so a model over rendered strings is a model over prompts.
   */
  function Render(p: Prompt): string {
    match p
    case DetectPrompt(excerpt) => DetectHead + excerpt + DetectTail
    case RewritePrompt(text, level) =>
      RewriteHead + (level + (RewriteMiddle + (level + (RewriteOriginal + (text + (RewriteAfter + (level + RewriteTail)))))))
  }

  const RewriteHead := "\n    Rewrite the following text to match the CEFR language level "
  const RewriteMiddle := ".\n    Maintain the same meaning and information and original language used, but adjust:\n" +
    "    - Vocabulary complexity\n    - Grammar structures\n    - Sentence complexity\n    to match "
  const RewriteOriginal := " level.\n    \n    Original text:\n    \""
  const RewriteAfter := "\"\n    \n    Rewritten text at "
  const RewriteTail := " level:\n  "

  /**
   * The rendered rewrite prompt names the level first and quotes the text, so two rewrite
   * prompts for levels of one length are equal only for the same text and level.
   */
  lemma RenderRewriteInjective(t1: string, l1: string, t2: string, l2: string)
    requires |l1| == |l2|
    requires Render(RewritePrompt(t1, l1)) == Render(RewritePrompt(t2, l2))
    ensures t1 == t2 && l1 == l2
  {
    var s1 := RewriteAfter + (l1 + RewriteTail);
    var s2 := RewriteAfter + (l2 + RewriteTail);
    var o1 := RewriteOriginal + (t1 + s1);
    var o2 := RewriteOriginal + (t2 + s2);
    var m1 := RewriteMiddle + (l1 + o1);
    var m2 := RewriteMiddle + (l2 + o2);
    SplitEqual(RewriteHead, l1 + m1, RewriteHead, l2 + m2);
    SplitEqual(l1, m1, l2, m2);
    SplitEqual(RewriteMiddle, l1 + o1, RewriteMiddle, l2 + o2);
    SplitEqual(l1, o1, l2, o2);
    SplitEqual(RewriteOriginal, t1 + s1, RewriteOriginal, t2 + s2);
    SplitEqual(t1, s1, t2, s2);
  }

  /** The rendered detection prompt quotes the excerpt, so different excerpts give different prompts. */
  lemma RenderDetectInjective(e1: string, e2: string)
    requires Render(DetectPrompt(e1)) == Render(DetectPrompt(e2))
    ensures e1 == e2
  {
    var t1, t2 := Render(DetectPrompt(e1)), Render(DetectPrompt(e2));
    assert |e1| == |e2|;
    assert e1 == t1[|DetectHead|..|DetectHead| + |e1|];
    assert e2 == t2[|DetectHead|..|DetectHead| + |e2|];
  }

  /**
   * `detectLanguageLevel(text)`: the trimmed answer of the model when it is one of the six
   * levels, compared with letter case; any other answer, an empty one included, is an error.
   */
  function DetectLanguageLevel(text: string, complete: Complete): (r: Result<string>)
    ensures r.Ok? ==> Cefr.IsLevel(r.value)
    ensures var reply := complete(DetectPrompt(Excerpt(text)));
      (reply.Err? ==> r == Err(reply.error)) &&
      (reply.Ok? ==>
        (Cefr.IsLevel(Trim(reply.value.GetOr(""))) ==> r == Ok(Trim(reply.value.GetOr("")))) &&
        (!Cefr.IsLevel(Trim(reply.value.GetOr(""))) ==> r == Err(InvalidLevel)))
  {
    var response := complete(DetectPrompt(Excerpt(text)));
    if response.Err? then Err(response.error)
    else
      var trimmedLevel := Trim(response.value.GetOr(""));
      if !Cefr.IsLevel(trimmedLevel) then Err(InvalidLevel) else Ok(trimmedLevel)
  }

  /** Only the first 1000 characters count: texts that agree on them get the same level. */
  lemma DetectSeesExcerptOnly(text1: string, text2: string, complete: Complete)
    requires Excerpt(text1) == Excerpt(text2)
    ensures DetectLanguageLevel(text1, complete) == DetectLanguageLevel(text2, complete)
  {
  }

  /**
   * `rewriteArticle(text, targetLevel)`: an invalid target is refused before the model is
   * asked; otherwise the model's answer, trimmed, or `""` when it gave none.
   */
  function RewriteArticle(text: string, targetLevel: string, complete: Complete): (r: Result<string>)
    ensures !Cefr.IsLevel(targetLevel) ==> r == Err(InvalidTarget)
    ensures Cefr.IsLevel(targetLevel) ==>
      var reply := complete(RewritePrompt(text, targetLevel));
      (reply.Err? ==> r == Err(reply.error)) &&
      (reply.Ok? ==> r == Ok(Trim(reply.value.GetOr(""))))
    ensures r.Ok? ==> Trimmed(r.value)
  {
    if !Cefr.IsLevel(targetLevel) then Err(InvalidTarget)
    else
      var response := complete(RewritePrompt(text, targetLevel));
      if response.Err? then Err(response.error) else Ok(Trim(response.value.GetOr("")))
  }

  /** An invalid target does not depend on the model at all: it is refused before any request. */
  lemma RewriteRefusesFirst(text: string, targetLevel: string, c1: Complete, c2: Complete)
    requires !Cefr.IsLevel(targetLevel)
    ensures RewriteArticle(text, targetLevel, c1) == RewriteArticle(text, targetLevel, c2)
  {
  }

  datatype Article = Article(text: string, level: string)

  /** `processArticle(input, isUrl)`: the text, fetched when `input` is a URL, with its detected level. */
  function ProcessArticle(input: string, isUrl: bool, fetchPage: string -> Option<PageText>, complete: Complete): (r: Result<Article>)
    ensures r.Ok? ==> Cefr.IsLevel(r.value.level)
    ensures !isUrl && r.Ok? ==> r.value.text == input
    ensures !isUrl ==> (r.Ok? <==> DetectLanguageLevel(input, complete).Ok?)
    ensures isUrl && fetchPage(input).None? ==> r == Err(FetchFailed)
    ensures isUrl && r.Ok? ==> r.value.text == ArticleText(fetchPage(input).value)
    ensures r.Ok? ==> DetectLanguageLevel(r.value.text, complete) == Ok(r.value.level)
    ensures isUrl && fetchPage(input).Some? ==>
      var level := DetectLanguageLevel(ArticleText(fetchPage(input).value), complete);
      (r.Ok? <==> level.Ok?) && (level.Err? ==> r == Err(level.error))
    ensures !isUrl && DetectLanguageLevel(input, complete).Err? ==> r == Err(DetectLanguageLevel(input, complete).error)
  {
    var text := if isUrl then FetchArticleFromUrl(input, fetchPage) else Ok(input);
    if text.Err? then Err(text.error)
    else
      var level := DetectLanguageLevel(text.value, complete);
      if level.Err? then Err(level.error) else Ok(Article(text.value, level.value))
  }
}
