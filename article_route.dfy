/**
 * `POST /api/article`: a request with a target level rewrites the text at that level;
 * any other request detects the level of the text (or of the page it names). Every
 * failure gives the same server error.
 */
module ArticleRoute {
  import opened Wrappers
  import opened Strings
  import Cefr
  import ArticleService

  /** The JSON body's `text`, `isUrl` and `targetLevel`, each None when absent. */
  datatype Request = Request(text: Option<string>, isUrl: Option<bool>, targetLevel: Option<string>)

  datatype Body = Rewritten(rewrittenText: string) | Analysed(text: string, level: string) | Failure(error: string)

  datatype Response = Response(status: int, body: Body)

  const Failed := Response(500, Failure("Failed to process article"))

  /** `targetLevel` is truthy. */
  predicate WantsRewrite(req: Request) {
    req.targetLevel.Some? && req.targetLevel.value != ""
  }

  /**
   * `POST(req)`. `body` is the parsed JSON body (None when it is not JSON). An absent text is
   * written as `undefined` into the rewrite prompt and makes the analysis throw; an absent
   * `isUrl` is false, and `isUrl` is ignored on the rewrite path.
   */
  function Post(body: Option<Request>, fetchPage: string -> Option<ArticleService.PageText>, complete: ArticleService.Complete): (r: Response)
    ensures r.status == 200 || r == Failed
    ensures body.None? ==> r == Failed
    ensures body.Some? && WantsRewrite(body.value) ==>
      var rewritten := ArticleService.RewriteArticle(body.value.text.GetOr("undefined"), body.value.targetLevel.value, complete);
      (rewritten.Ok? ==> r == Response(200, Rewritten(rewritten.value))) && (rewritten.Err? ==> r == Failed)
    ensures body.Some? && WantsRewrite(body.value) && !Cefr.IsLevel(body.value.targetLevel.value) ==> r == Failed
    ensures body.Some? && !WantsRewrite(body.value) && body.value.text.None? ==> r == Failed
    ensures body.Some? && !WantsRewrite(body.value) && body.value.text.Some? ==>
      var processed := ArticleService.ProcessArticle(body.value.text.value, body.value.isUrl.GetOr(false), fetchPage, complete);
      (processed.Ok? ==> r == Response(200, Analysed(processed.value.text, processed.value.level))) && (processed.Err? ==> r == Failed)
    ensures r.body.Analysed? ==> Cefr.IsLevel(r.body.level)
  {
    if body.None? then Failed
    else
      var req := body.value;
      if WantsRewrite(req) then
        var rewritten := ArticleService.RewriteArticle(req.text.GetOr("undefined"), req.targetLevel.value, complete);
        if rewritten.Err? then Failed else Response(200, Rewritten(rewritten.value))
      else if req.text.None? then Failed
      else
        var processed := ArticleService.ProcessArticle(req.text.value, req.isUrl.GetOr(false), fetchPage, complete);
        if processed.Err? then Failed else Response(200, Analysed(processed.value.text, processed.value.level))
  }

  /** On the rewrite path the answer does not depend on `isUrl`. */
  lemma RewriteIgnoresIsUrl(text: Option<string>, a: Option<bool>, b: Option<bool>, targetLevel: string,
                            fetchPage: string -> Option<ArticleService.PageText>, complete: ArticleService.Complete)
    requires targetLevel != ""
    ensures Post(Some(Request(text, a, Some(targetLevel))), fetchPage, complete) ==
            Post(Some(Request(text, b, Some(targetLevel))), fetchPage, complete)
  {
  }
}
