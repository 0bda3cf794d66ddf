/** The copies of the summary formatter and the relevance filter kept in the
    application's entry script. The formatter is the same loop as the services
    one; the filter takes the query as a plain string and reads the article
    list from a module-level variable, which here is the parameter
    `newsDataPubmed`. Both are specified by the same functions as the services
    versions, so the two copies agree on every input. */
module AppMain {
  import opened Wrappers
  import opened Strings
  import opened Records
  import Utils

  /** Builds the title header and the rendered sections one by one and joins
      them; the result is the services formatter's string. */
  method ProcessArticleForSummary(article: Article) returns (combinedText: string)
    ensures combinedText == Utils.Summary(article)
  {
    var title := article.title.GetOr("");
    var abstractSections := Sections(article.articleAbstract.GetOr(List([])));
    var formattedSections: seq<string> := [];
    for i := 0 to |abstractSections|
      invariant |formattedSections| == i
      invariant forall k :: 0 <= k < i ==> formattedSections[k] == Utils.Render(abstractSections[k])
    {
      match abstractSections[i]
      case Labeled(sectionLabel, sectionText) =>
        var labelText := sectionLabel.GetOr(Utils.DefaultLabel);
        var text := sectionText.GetOr("");
        formattedSections := formattedSections + [labelText + ": " + text];
      case Plain(s) =>
        formattedSections := formattedSections + [s];
    }
    assert formattedSections == Utils.RenderAll(abstractSections);
    combinedText := "Title: " + title + "\n\nAbstract:\n" + Join(Utils.SectionSeparator, formattedSections);
  }

  /** Filters the module-level article list with a plain query string; the
      result is the services filter's result for a request whose query is
      `userInput`, so everything proved about `Utils.Select` holds for it. */
  method SelectDiseaseInformedArticles(userInput: string, newsDataPubmed: seq<Article>)
    returns (relevantArticles: Result<seq<Article>, Utils.FilterError>)
    ensures relevantArticles == Utils.Select(userInput, newsDataPubmed)
  {
    var kept: seq<Article> := [];
    var i := 0;
    ghost var outcome := Utils.Select(userInput, newsDataPubmed);
    assert newsDataPubmed[0..] == newsDataPubmed;
    PrependNothing(outcome);
    while i < |newsDataPubmed|
      invariant 0 <= i <= |newsDataPubmed|
      invariant outcome == Prepend(kept, Utils.Select(userInput, newsDataPubmed[i..]))
    {
      var articleSections := newsDataPubmed[i];
      if articleSections.articleAbstract.None? {
        assert Utils.Check(userInput, articleSections).Err?;
        Utils.SelectLoopRaises(userInput, newsDataPubmed, i, kept);
        return Err(Utils.KeyError("abstract"));
      }
      var fullText := Utils.FullText(articleSections.articleAbstract.value);
      var keep := false;
      if Contains(fullText, Lower(userInput)) {
        if articleSections.title.None? {
          assert Utils.Check(userInput, articleSections).Err?;
          Utils.SelectLoopRaises(userInput, newsDataPubmed, i, kept);
          return Err(Utils.KeyError("title"));
        }
        keep := Contains(articleSections.title.value, Lower(userInput));
      }
      assert Utils.Check(userInput, articleSections) == Ok(keep);
      Utils.SelectLoopKeeps(userInput, newsDataPubmed, i, kept, keep);
      if keep {
        kept := kept + [articleSections];
      } else {
        assert kept + [] == kept;
      }
      i := i + 1;
    }
    assert kept + [] == kept;
    relevantArticles := Ok(kept);
  }
}
