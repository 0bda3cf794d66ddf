/** The summary formatter and the relevance filter of the service layer. */
module Utils {
  import opened Wrappers
  import opened Strings
  import opened Records

  // ===========================================================================
  // Summary formatter
  // ===========================================================================

  const DefaultLabel := "SECTION"
  const SectionSeparator := "\n\n"

  const TitlePrefix := "Title: "
  const AbstractHeading := "\n\nAbstract:\n"

  /** The text that precedes the abstract sections. */
  function Header(title: string): string {
    TitlePrefix + title + AbstractHeading
  }

  /** The header is `Title: `, the title, then a blank line before the
      `Abstract:` heading line; so it determines the title. */
  lemma HeaderParts(title: string)
    ensures |Header(title)| == |TitlePrefix| + |title| + |AbstractHeading|
    ensures Header(title)[..|TitlePrefix|] == TitlePrefix
    ensures Header(title)[|TitlePrefix|..|TitlePrefix| + |title|] == title
    ensures Header(title)[|TitlePrefix| + |title|..] == AbstractHeading
  {
    var h := Header(title);
    assert h == TitlePrefix + (title + AbstractHeading);
    assert h[|TitlePrefix|..] == title + AbstractHeading;
  }

  /** One formatted section: `"<label>: <text>"` for a dictionary, with the
      label defaulting to `SECTION` and the text to the empty string; any
      other section as it is. */
  function Render(section: Section): string
  {
    match section
    case Labeled(l, t) => l.GetOr(DefaultLabel) + ": " + t.GetOr("")
    case Plain(s) => s
  }

  /** A dictionary section renders as its label, `: ` and its text; any
      other section renders as itself. */
  lemma RenderParts(section: Section)
    ensures section.Plain? ==> Render(section) == section.s
    ensures section.Labeled? ==>
              var name := section.sectionLabel.GetOr(DefaultLabel);
              var r := Render(section);
              && |r| == |name| + 2 + |section.sectionText.GetOr("")|
              && r[..|name|] == name
              && r[|name|..|name| + 2] == ": "
              && r[|name| + 2..] == section.sectionText.GetOr("")
  {
    if section.Labeled? {
      var name := section.sectionLabel.GetOr(DefaultLabel);
      var r := Render(section);
      assert r == name + (": " + section.sectionText.GetOr(""));
      assert r[|name|..] == ": " + section.sectionText.GetOr("");
    }
  }

  function RenderAll(sections: seq<Section>): (r: seq<string>)
    ensures |r| == |sections|
    ensures forall i :: 0 <= i < |r| ==> r[i] == Render(sections[i])
    decreases |sections|
  {
    if sections == [] then [] else [Render(sections[0])] + RenderAll(sections[1..])
  }

  /** The abstract the formatter iterates: an empty list when the key is missing. */
  function FormatterAbstract(article: Article): Abstract {
    article.articleAbstract.GetOr(List([]))
  }

  /** The string the formatter returns for `article`. */
  function Summary(article: Article): string {
    Header(article.title.GetOr(""))
      + Join(SectionSeparator, RenderAll(Sections(FormatterAbstract(article))))
  }

  /** Loops over the abstract sections, appending one formatted piece per
      section, and joins the pieces under the title header. */
  method ProcessArticleForSummary(article: Article) returns (combinedText: string)
    ensures combinedText == Summary(article)
    ensures Header(article.title.GetOr("")) <= combinedText
  {
    var title := article.title.GetOr("");
    var abstractSections := Sections(article.articleAbstract.GetOr(List([])));
    var formattedSections: seq<string> := [];
    for i := 0 to |abstractSections|
      invariant |formattedSections| == i
      invariant forall k :: 0 <= k < i ==> formattedSections[k] == Render(abstractSections[k])
    {
      match abstractSections[i]
      case Labeled(l, t) =>
        var sectionLabel := l.GetOr(DefaultLabel);
        var sectionText := t.GetOr("");
        formattedSections := formattedSections + [sectionLabel + ": " + sectionText];
      case Plain(s) =>
        formattedSections := formattedSections + [s];
    }
    assert formattedSections == RenderAll(abstractSections);
    combinedText := Header(title) + Join(SectionSeparator, formattedSections);
  }

  /** When the loop visits no section (no abstract key, an empty list, an
      empty string or a dictionary without keys) the output is exactly the
      header. */
  lemma SummaryWithoutAbstract(article: Article)
    requires |Sections(FormatterAbstract(article))| == 0
    ensures Summary(article) == Header(article.title.GetOr(""))
  {
    assert RenderAll(Sections(FormatterAbstract(article))) == [];
  }

  /** Piece `i` of `h + Join(sep, parts)` stands `|h|` plus its join offset
      into the string, followed (unless it is the last) by one separator. */
  lemma PrefixedJoinPiece(h: string, sep: string, parts: seq<string>, i: nat)
    requires i < |parts|
    ensures
      var o := |h| + Offset(sep, parts, i);
      var out := h + Join(sep, parts);
      && o + |parts[i]| <= |out|
      && out[o..o + |parts[i]|] == parts[i]
      && (i + 1 < |parts| ==>
            && |h| + Offset(sep, parts, i + 1) == o + |parts[i]| + |sep|
            && o + |parts[i]| + |sep| <= |out|
            && out[o + |parts[i]|..o + |parts[i]| + |sep|] == sep)
  {
    var body := Join(sep, parts);
    JoinPiece(sep, parts, i);
    var b := Offset(sep, parts, i);
    assert (h + body)[|h| + b..|h| + b + |parts[i]|] == body[b..b + |parts[i]|];
    if i + 1 < |parts| {
      assert (h + body)[|h| + b + |parts[i]|..|h| + b + |parts[i]| + |sep|]
          == body[b + |parts[i]|..Offset(sep, parts, i + 1)];
    }
  }

  /** In `h + Join(sep, parts)` every part but the last is followed by one
      separator. */
  lemma PrefixedJoinSeparator(h: string, sep: string, parts: seq<string>, i: nat)
    requires i + 1 < |parts|
    ensures
      var e := |h| + Offset(sep, parts, i) + |parts[i]|;
      var out := h + Join(sep, parts);
      && |h| + Offset(sep, parts, i + 1) == e + |sep|
      && e + |sep| <= |out|
      && out[e..e + |sep|] == sep
  {
    var body := Join(sep, parts);
    JoinSeparatorAt(sep, parts, i);
    var b := Offset(sep, parts, i) + |parts[i]|;
    assert (h + body)[|h| + b..|h| + b + |sep|] == body[b..Offset(sep, parts, i + 1)];
  }

  /** Section `i` of the abstract appears in the output at a fixed offset
      after the header, rendered as `label: text` (with the `SECTION` and
      empty-string defaults) when it is a dictionary and unchanged otherwise. */
  lemma SummarySection(article: Article, i: nat)
    requires i < |Sections(FormatterAbstract(article))|
    ensures
      var secs := Sections(FormatterAbstract(article));
      var pieces := RenderAll(secs);
      var o := |Header(article.title.GetOr(""))| + Offset(SectionSeparator, pieces, i);
      var out := Summary(article);
      && o + |pieces[i]| <= |out|
      && (secs[i].Labeled? ==>
            out[o..o + |pieces[i]|]
            == secs[i].sectionLabel.GetOr(DefaultLabel) + ": " + secs[i].sectionText.GetOr(""))
      && (secs[i].Plain? ==> out[o..o + |pieces[i]|] == secs[i].s)
  {
    var h := Header(article.title.GetOr(""));
    var secs := Sections(FormatterAbstract(article));
    assert Summary(article) == h + Join(SectionSeparator, RenderAll(secs));
    assert RenderAll(secs)[i] == Render(secs[i]);
    RenderedPiece(h, SectionSeparator, secs, i);
  }

  /** Every section but the last is followed by exactly one blank line, and
      the next section starts right after it. */
  lemma SummarySeparator(article: Article, i: nat)
    requires i + 1 < |Sections(FormatterAbstract(article))|
    ensures
      var pieces := RenderAll(Sections(FormatterAbstract(article)));
      var e := |Header(article.title.GetOr(""))| + Offset(SectionSeparator, pieces, i) + |pieces[i]|;
      && |Header(article.title.GetOr(""))| + Offset(SectionSeparator, pieces, i + 1) == e + |SectionSeparator|
      && e + |SectionSeparator| <= |Summary(article)|
      && Summary(article)[e..e + |SectionSeparator|] == SectionSeparator
  {
    var h := Header(article.title.GetOr(""));
    var secs := Sections(FormatterAbstract(article));
    assert Summary(article) == h + Join(SectionSeparator, RenderAll(secs));
    RenderedSeparator(h, SectionSeparator, secs, i);
  }

  /** Piece `i` of a header followed by rendered sections is the rendering
      of section `i`. */
  lemma RenderedPiece(h: string, sep: string, secs: seq<Section>, i: nat)
    requires i < |secs|
    ensures
      var o := |h| + Offset(sep, RenderAll(secs), i);
      && o + |Render(secs[i])| <= |h + Join(sep, RenderAll(secs))|
      && (h + Join(sep, RenderAll(secs)))[o..o + |Render(secs[i])|] == Render(secs[i])
  {
    PrefixedJoinPiece(h, sep, RenderAll(secs), i);
  }

  /** Every rendered section but the last is followed by one separator. */
  lemma RenderedSeparator(h: string, sep: string, secs: seq<Section>, i: nat)
    requires i + 1 < |secs|
    ensures
      var e := |h| + Offset(sep, RenderAll(secs), i) + |RenderAll(secs)[i]|;
      && |h| + Offset(sep, RenderAll(secs), i + 1) == e + |sep|
      && e + |sep| <= |h + Join(sep, RenderAll(secs))|
      && (h + Join(sep, RenderAll(secs)))[e..e + |sep|] == sep
  {
    PrefixedJoinSeparator(h, sep, RenderAll(secs), i);
  }

  /** The output ends with the last section's piece. */
  lemma SummaryEnd(article: Article)
    requires |Sections(FormatterAbstract(article))| > 0
    ensures
      var pieces := RenderAll(Sections(FormatterAbstract(article)));
      |Summary(article)|
        == |Header(article.title.GetOr(""))| + Offset(SectionSeparator, pieces, |pieces| - 1)
           + |pieces[|pieces| - 1]|
  {
    JoinLength(SectionSeparator, RenderAll(Sections(FormatterAbstract(article))));
  }

  /** A list holding one bare string renders as that string, with no label. */
  lemma SummaryOnePlainSection(article: Article, s: string)
    requires article.articleAbstract == Some(List([Plain(s)]))
    ensures Summary(article) == Header(article.title.GetOr("")) + s
  {
    SummaryOneSection(article, Plain(s));
  }

  lemma SummaryOneSection(article: Article, section: Section)
    requires article.articleAbstract == Some(List([section]))
    ensures Summary(article) == Header(article.title.GetOr("")) + Render(section)
  {
    assert RenderAll([section]) == [Render(section)];
  }

  lemma {:induction false} OffsetOfSingletons(parts: seq<string>, i: nat)
    requires i <= |parts|
    requires forall k :: 0 <= k < |parts| ==> |parts[k]| == 1
    ensures Offset(SectionSeparator, parts, i) == 3 * i
  {
    if i > 0 {
      OffsetOfSingletons(parts, i - 1);
    }
  }

  /** Piece `i` of a join of one-character pieces, and the separator after it. */
  lemma SingletonPieceAt(h: string, parts: seq<string>, i: nat)
    requires i < |parts|
    requires forall k :: 0 <= k < |parts| ==> |parts[k]| == 1
    ensures |h + Join(SectionSeparator, parts)| >= |h| + 3 * i + 1
    ensures (h + Join(SectionSeparator, parts))[|h| + 3 * i] == parts[i][0]
    ensures i + 1 < |parts| ==>
              |h + Join(SectionSeparator, parts)| >= |h| + 3 * i + 3 &&
              (h + Join(SectionSeparator, parts))[|h| + 3 * i + 1..|h| + 3 * i + 3] == SectionSeparator
  {
    var out := h + Join(SectionSeparator, parts);
    PrefixedJoinPiece(h, SectionSeparator, parts, i);
    OffsetOfSingletons(parts, i);
    var o := |h| + 3 * i;
    assert out[o..o + 1] == parts[i];
    assert out[o] == out[o..o + 1][0];
    if i + 1 < |parts| {
      OffsetOfSingletons(parts, i + 1);
    }
  }

  lemma JoinOfSingletons(h: string, parts: seq<string>)
    requires |parts| > 0
    requires forall k :: 0 <= k < |parts| ==> |parts[k]| == 1
    ensures
      var out := h + Join(SectionSeparator, parts);
      && |out| == |h| + 3 * |parts| - 2
      && (forall i :: 0 <= i < |parts| ==> out[|h| + 3 * i] == parts[i][0])
      && (forall i :: 0 <= i < |parts| - 1 ==> out[|h| + 3 * i + 1..|h| + 3 * i + 3] == SectionSeparator)
  {
    JoinLength(SectionSeparator, parts);
    OffsetOfSingletons(parts, |parts| - 1);
    forall i | 0 <= i < |parts| {
      SingletonPieceAt(h, parts, i);
    }
  }

  /** A bare-string abstract (for instance the `No abstract available`
      sentinel) is iterated character by character: every character becomes
      a section of its own, so the output holds the characters three positions
      apart, separated by blank lines. */
  lemma SummaryBareAbstract(article: Article, s: string)
    requires article.articleAbstract == Some(Bare(s))
    requires |s| > 0
    ensures
      var h := |Header(article.title.GetOr(""))|;
      var out := Summary(article);
      && |out| == h + 3 * |s| - 2
      && (forall i :: 0 <= i < |s| ==> out[h + 3 * i] == s[i])
      && (forall i :: 0 <= i < |s| - 1 ==> out[h + 3 * i + 1..h + 3 * i + 3] == SectionSeparator)
  {
    var pieces := RenderAll(Sections(Bare(s)));
    assert forall k :: 0 <= k < |pieces| ==> pieces[k] == [s[k]];
    JoinOfSingletons(Header(article.title.GetOr("")), pieces);
  }

  /** The pieces rendered for a lone dictionary are its key names. */
  lemma RenderedKeys(keys: seq<string>)
    ensures RenderAll(Sections(Single(keys))) == keys
  {
    var pieces := RenderAll(Sections(Single(keys)));
    assert |pieces| == |keys|;
    forall i | 0 <= i < |keys|
      ensures pieces[i] == keys[i]
    {
      assert Sections(Single(keys))[i] == Plain(keys[i]);
    }
  }

  /** A lone `AbstractText` dictionary is iterated by its keys: the output
      lists the key names, in order and separated by blank lines, and none of
      the label or text values. */
  lemma SummarySingleDictionary(article: Article, keys: seq<string>)
    requires article.articleAbstract == Some(Single(keys))
    ensures Summary(article) == Header(article.title.GetOr("")) + Join(SectionSeparator, keys)
  {
    RenderedKeys(keys);
  }

  /** The usual shape of a lone labelled `AbstractText`, with its `Label` and
      `NlmCategory` attributes and its text, renders as the three key names. */
  lemma SummaryLabelledAbstractText(article: Article)
    requires article.articleAbstract == Some(Single(["@Label", "@NlmCategory", "#text"]))
    ensures Summary(article)
         == Header(article.title.GetOr("")) + "@Label" + SectionSeparator + "@NlmCategory" + SectionSeparator + "#text"
  {
    SummarySingleDictionary(article, ["@Label", "@NlmCategory", "#text"]);
    assert Join(SectionSeparator, ["#text"]) == "#text";
    assert Join(SectionSeparator, ["@NlmCategory", "#text"]) == "@NlmCategory" + SectionSeparator + "#text";
    assert Join(SectionSeparator, ["@Label", "@NlmCategory", "#text"])
        == "@Label" + SectionSeparator + Join(SectionSeparator, ["@NlmCategory", "#text"]);
  }

  // ===========================================================================
  // Relevance filter
  // ===========================================================================

  /** The text a section contributes to the searched abstract text: a
      dictionary's `#text` (or the empty string), any other section itself. */
  function SectionText(section: Section): string {
    match section
    case Labeled(_, t) => t.GetOr("")
    case Plain(s) => s
  }

  function SectionTexts(sections: seq<Section>): (r: seq<string>)
    ensures |r| == |sections|
    ensures forall i :: 0 <= i < |r| ==> r[i] == SectionText(sections[i])
    decreases |sections|
  {
    if sections == [] then [] else [SectionText(sections[0])] + SectionTexts(sections[1..])
  }

  /** The lowercased, space-joined abstract text the filter searches. */
  function FullText(a: Abstract): string {
    Lower(Join(" ", SectionTexts(Sections(a))))
  }

  /** Each section contributes its text, lowercased, at its join offset in
      the searched text. */
  lemma FullTextSection(a: Abstract, i: nat)
    requires i < |Sections(a)|
    ensures
      var texts := SectionTexts(Sections(a));
      var o := Offset(" ", texts, i);
      && o + |texts[i]| <= |FullText(a)|
      && FullText(a)[o..o + |texts[i]|] == Lower(SectionText(Sections(a)[i]))
  {
    SearchedText(" ", Sections(a), i);
  }

  /** Nothing follows the last section's text, and an abstract without
      sections is searched as the empty string. */
  lemma FullTextEnd(a: Abstract)
    ensures |Sections(a)| == 0 ==> FullText(a) == ""
    ensures
      var texts := SectionTexts(Sections(a));
      |texts| > 0 ==> |FullText(a)| == Offset(" ", texts, |texts| - 1) + |texts[|texts| - 1]|
  {
    var texts := SectionTexts(Sections(a));
    if |texts| > 0 {
      JoinLength(" ", texts);
    }
  }

  /** Every section's text but the last is followed by one space in the
      searched text. */
  lemma FullTextSpace(a: Abstract, i: nat)
    requires i + 1 < |Sections(a)|
    ensures
      var texts := SectionTexts(Sections(a));
      var e := Offset(" ", texts, i) + |texts[i]|;
      e < |FullText(a)| && FullText(a)[e] == ' '
  {
    SearchedSeparator(" ", Sections(a), i);
    assert LowerChar(' ') == ' ';
  }

  /** Section `i`'s text, lowercased, stands at its offset in the lowercased
      join of the section texts. */
  lemma SearchedText(sep: string, secs: seq<Section>, i: nat)
    requires i < |secs|
    ensures
      var texts := SectionTexts(secs);
      var o := Offset(sep, texts, i);
      && o + |texts[i]| <= |Lower(Join(sep, texts))|
      && Lower(Join(sep, texts))[o..o + |texts[i]|] == Lower(SectionText(secs[i]))
  {
    var texts := SectionTexts(secs);
    LowerJoinPiece(sep, texts, i);
    assert texts[i] == SectionText(secs[i]);
  }

  /** The character after section `i`'s text in the lowercased join at a
      one-character separator is that separator, lowercased. */
  lemma SearchedSeparator(sep: string, secs: seq<Section>, i: nat)
    requires i < |secs| && |sep| == 1
    ensures
      var texts := SectionTexts(secs);
      var e := Offset(sep, texts, i) + |texts[i]|;
      i + 1 < |texts| ==> e < |Lower(Join(sep, texts))| && Lower(Join(sep, texts))[e] == LowerChar(sep[0])
  {
    var texts := SectionTexts(secs);
    if i + 1 < |texts| {
      var out := Lower(Join(sep, texts));
      var e := Offset(sep, texts, i) + |texts[i]|;
      LowerJoinSeparator(sep, texts, i);
      assert Offset(sep, texts, i + 1) == e + 1;
      assert out[e] == out[e..e + 1][0];
    }
  }

  /** A lone dictionary is searched through its key names, lowercased and
      joined by spaces, whatever its label and text values are. */
  lemma FullTextSingleDictionary(keys: seq<string>)
    ensures FullText(Single(keys)) == Lower(Join(" ", keys))
  {
    var texts := SectionTexts(Sections(Single(keys)));
    forall i | 0 <= i < |keys|
      ensures texts[i] == keys[i]
    {
      assert Sections(Single(keys))[i] == Plain(keys[i]);
    }
    assert texts == keys;
  }

  /** The exception the filter raises: a missing dictionary key. */
  datatype FilterError = KeyError(key: string)

  /** An article has both keys the filter reads. */
  predicate HasKeys(article: Article) {
    article.articleAbstract.Some? && article.title.Some?
  }

  /** The relevance test as written: the lowercased query occurs in the
      lowercased abstract text and in the title as it is (not lowercased). */
  predicate Relevant(query: string, article: Article) {
    && HasKeys(article)
    && Contains(FullText(article.articleAbstract.value), Lower(query))
    && Contains(article.title.value, Lower(query))
  }

  /** An article is relevant exactly when it has both keys and the lowercased
      query starts at some index of the searched abstract text and at some
      index of the title. */
  lemma RelevantOccurs(query: string, article: Article)
    ensures Relevant(query, article) <==>
              && HasKeys(article)
              && (exists i :: OccursAt(FullText(article.articleAbstract.value), Lower(query), i))
              && (exists j :: OccursAt(article.title.value, Lower(query), j))
  {
    if HasKeys(article) {
      var text := FullText(article.articleAbstract.value);
      ContainsIffOccurs(text, Lower(query));
      ContainsIffOccurs(article.title.value, Lower(query));
      assert Relevant(query, article) <==> Contains(text, Lower(query)) && Contains(article.title.value, Lower(query));
    }
  }

  /** What the filter's loop body does with one article: keep it, skip it, or
      raise. The `abstract` key is always read; the `title` key only when the
      abstract test succeeded, since `and` stops at a false left operand. */
  function Check(query: string, article: Article): (r: Result<bool, FilterError>)
    ensures r.Ok? ==> r.value == Relevant(query, article)
    ensures r == Err(KeyError("abstract")) <==> article.articleAbstract.None?
    ensures r == Err(KeyError("title")) <==>
              article.articleAbstract.Some? && article.title.None?
              && Contains(FullText(article.articleAbstract.value), Lower(query))
    ensures HasKeys(article) ==> r.Ok?
    ensures r.Err? <==>
              article.articleAbstract.None?
              || (article.title.None? && Contains(FullText(article.articleAbstract.value), Lower(query)))
  {
    if article.articleAbstract.None? then Err(KeyError("abstract"))
    else if !Contains(FullText(article.articleAbstract.value), Lower(query)) then Ok(false)
    else if article.title.None? then Err(KeyError("title"))
    else Ok(Contains(article.title.value, Lower(query)))
  }

  /** The filter's outcome: the kept articles in order, or the exception of
      the first article that raises. */
  function Select(query: string, articles: seq<Article>): Result<seq<Article>, FilterError>
    decreases |articles|
  {
    if articles == [] then Ok([])
    else
      match Check(query, articles[0])
      case Err(e) => Err(e)
      case Ok(keep) => Prepend(if keep then [articles[0]] else [], Select(query, articles[1..]))
  }

  /** One step of `Select`: the first article's outcome, then the rest. */
  lemma SelectStep(query: string, articles: seq<Article>)
    requires articles != []
    ensures Check(query, articles[0]).Err? ==> Select(query, articles) == Err(Check(query, articles[0]).error)
    ensures Check(query, articles[0]) == Ok(true) ==>
              Select(query, articles) == Prepend([articles[0]], Select(query, articles[1..]))
    ensures Check(query, articles[0]) == Ok(false) ==>
              Select(query, articles) == Prepend([], Select(query, articles[1..]))
  {
  }

  /** The filter loop's invariant, with `kept` the articles kept from the
      first `i`, survives an article that is kept or skipped. */
  lemma SelectLoopKeeps(query: string, articles: seq<Article>, i: nat, kept: seq<Article>, keep: bool)
    requires i < |articles| && Check(query, articles[i]) == Ok(keep)
    requires Select(query, articles) == Prepend(kept, Select(query, articles[i..]))
    ensures Select(query, articles)
         == Prepend(kept + (if keep then [articles[i]] else []), Select(query, articles[i + 1..]))
  {
    assert articles[i..][0] == articles[i];
    assert articles[i..][1..] == articles[i + 1..];
    SelectStep(query, articles[i..]);
    PrependTwice(kept, if keep then [articles[i]] else [], Select(query, articles[i + 1..]));
  }

  /** Under the loop's invariant, an article that raises decides the outcome. */
  lemma SelectLoopRaises(query: string, articles: seq<Article>, i: nat, kept: seq<Article>)
    requires i < |articles| && Check(query, articles[i]).Err?
    requires Select(query, articles) == Prepend(kept, Select(query, articles[i..]))
    ensures Select(query, articles) == Err(Check(query, articles[i]).error)
  {
    assert articles[i..][0] == articles[i];
    SelectStep(query, articles[i..]);
  }

  /** Loops over the articles, keeping the relevant ones in order; a missing
      key raises as in the code. */
  method SelectDiseaseInformedArticles(userInput: UserQuery, newsDataPubmed: seq<Article>)
    returns (relevantArticles: Result<seq<Article>, FilterError>)
    ensures relevantArticles == Select(userInput.query, newsDataPubmed)
  {
    var kept: seq<Article> := [];
    var i := 0;
    ghost var outcome := Select(userInput.query, newsDataPubmed);
    assert newsDataPubmed[0..] == newsDataPubmed;
    PrependNothing(outcome);
    while i < |newsDataPubmed|
      invariant 0 <= i <= |newsDataPubmed|
      invariant outcome == Prepend(kept, Select(userInput.query, newsDataPubmed[i..]))
    {
      var articleSections := newsDataPubmed[i];
      if articleSections.articleAbstract.None? {
        assert Check(userInput.query, articleSections).Err?;
        SelectLoopRaises(userInput.query, newsDataPubmed, i, kept);
        return Err(KeyError("abstract"));
      }
      var fullText := FullText(articleSections.articleAbstract.value);
      var keep := false;
      if Contains(fullText, Lower(userInput.query)) {
        if articleSections.title.None? {
          assert Check(userInput.query, articleSections).Err?;
          SelectLoopRaises(userInput.query, newsDataPubmed, i, kept);
          return Err(KeyError("title"));
        }
        keep := Contains(articleSections.title.value, Lower(userInput.query));
      }
      assert Check(userInput.query, articleSections) == Ok(keep);
      SelectLoopKeeps(userInput.query, newsDataPubmed, i, kept, keep);
      if keep {
        kept := kept + [articleSections];
      } else {
        assert kept + [] == kept;
      }
      i := i + 1;
    }
    assert kept + [] == kept;
    relevantArticles := Ok(kept);
  }

  // ---------------------------------------------------------------------------
  // An independent reference for the filter, and what it guarantees
  // ---------------------------------------------------------------------------

  /** The relevant articles of `articles`, in order. */
  function KeepRelevant(query: string, articles: seq<Article>): seq<Article>
    decreases |articles|
  {
    if articles == [] then []
    else (if Relevant(query, articles[0]) then [articles[0]] else []) + KeepRelevant(query, articles[1..])
  }

  /** `xs` is `ys` with some elements left out, the rest in their order. */
  predicate IsSubsequence<T(==)>(xs: seq<T>, ys: seq<T>)
    decreases |ys|
  {
    if xs == [] then true
    else if ys == [] then false
    else (xs[0] == ys[0] && IsSubsequence(xs[1..], ys[1..])) || IsSubsequence(xs, ys[1..])
  }

  /** The filter raises exactly when some article raises, and then with the
      exception of the first such article; otherwise it returns the
      relevant articles in order. Empty input gives an empty list. */
  lemma {:induction false} SelectOutcome(query: string, articles: seq<Article>)
    ensures articles == [] ==> Select(query, articles) == Ok([])
    ensures Select(query, articles).Ok? <==> forall i :: 0 <= i < |articles| ==> Check(query, articles[i]).Ok?
    ensures Select(query, articles).Ok? ==> Select(query, articles).value == KeepRelevant(query, articles)
    ensures Select(query, articles).Err? ==>
              exists i :: 0 <= i < |articles|
                && Check(query, articles[i]) == Err(Select(query, articles).error)
                && forall j :: 0 <= j < i ==> Check(query, articles[j]).Ok?
  {
    SelectSucceeds(query, articles);
    SelectRaises(query, articles);
  }

  /** The filter succeeds exactly when no article raises, and then returns
      the relevant articles in order. */
  lemma {:induction false} SelectSucceeds(query: string, articles: seq<Article>)
    ensures Select(query, articles).Ok? <==> forall i :: 0 <= i < |articles| ==> Check(query, articles[i]).Ok?
    ensures Select(query, articles).Ok? ==> Select(query, articles).value == KeepRelevant(query, articles)
    decreases |articles|
  {
    if articles != [] {
      SelectSucceeds(query, articles[1..]);
      if forall i :: 0 <= i < |articles| ==> Check(query, articles[i]).Ok? {
        forall i | 0 <= i < |articles[1..]|
          ensures Check(query, articles[1..][i]).Ok?
        {
          assert articles[1..][i] == articles[i + 1];
        }
      } else if Check(query, articles[0]).Ok? {
        var k :| 0 <= k < |articles| && Check(query, articles[k]).Err?;
        assert articles[1..][k - 1] == articles[k];
      }
    }
  }

  /** When the filter raises, it raises with the exception of the first
      article that raises. */
  lemma {:induction false} SelectRaises(query: string, articles: seq<Article>)
    ensures Select(query, articles).Err? ==>
              exists i :: 0 <= i < |articles|
                && Check(query, articles[i]) == Err(Select(query, articles).error)
                && forall j :: 0 <= j < i ==> Check(query, articles[j]).Ok?
    decreases |articles|
  {
    if articles != [] {
      SelectRaises(query, articles[1..]);
      var r := Select(query, articles);
      if Check(query, articles[0]).Err? {
        assert Check(query, articles[0]) == Err(r.error);
      } else if r.Err? {
        var i :| 0 <= i < |articles[1..]|
          && Check(query, articles[1..][i]) == Err(Select(query, articles[1..]).error)
          && forall j :: 0 <= j < i ==> Check(query, articles[1..][j]).Ok?;
        assert Check(query, articles[i + 1]) == Err(r.error);
        forall j | 0 <= j < i + 1
          ensures Check(query, articles[j]).Ok?
        {
          if j > 0 {
            assert articles[j] == articles[1..][j - 1];
          }
        }
      }
    }
  }

  /** On articles that all carry both keys the filter never raises. */
  lemma SelectKeyed(query: string, articles: seq<Article>)
    requires forall i :: 0 <= i < |articles| ==> HasKeys(articles[i])
    ensures Select(query, articles) == Ok(KeepRelevant(query, articles))
  {
    SelectOutcome(query, articles);
  }

  /** An article is kept exactly when it is in the input and relevant. */
  lemma {:induction false} KeepRelevantMembers(query: string, articles: seq<Article>)
    ensures forall a :: a in KeepRelevant(query, articles) <==> a in articles && Relevant(query, a)
    decreases |articles|
  {
    if articles != [] {
      KeepRelevantMembers(query, articles[1..]);
      assert articles == [articles[0]] + articles[1..];
    }
  }

  /** The kept articles are an order-preserving subsequence of the input. */
  lemma {:induction false} KeepRelevantSubsequence(query: string, articles: seq<Article>)
    ensures IsSubsequence(KeepRelevant(query, articles), articles)
    decreases |articles|
  {
    if articles != [] {
      KeepRelevantSubsequence(query, articles[1..]);
      var rest := KeepRelevant(query, articles[1..]);
      if Relevant(query, articles[0]) {
        assert ([articles[0]] + rest)[1..] == rest;
      } else {
        assert KeepRelevant(query, articles) == rest;
      }
    }
  }

  /** Filtering a list of relevant articles keeps all of them. */
  lemma {:induction false} KeepRelevantOfRelevant(query: string, articles: seq<Article>)
    requires forall i :: 0 <= i < |articles| ==> Relevant(query, articles[i])
    ensures KeepRelevant(query, articles) == articles
    decreases |articles|
  {
    if articles != [] {
      KeepRelevantOfRelevant(query, articles[1..]);
    }
  }

  /** What the filter returns is an order-preserving subsequence of its
      input made of relevant articles only, and every relevant article of the
      input is in it. */
  lemma SelectKeepsExactlyRelevant(query: string, articles: seq<Article>)
    requires Select(query, articles).Ok?
    ensures IsSubsequence(Select(query, articles).value, articles)
    ensures forall a :: a in Select(query, articles).value <==> a in articles && Relevant(query, a)
  {
    SelectOutcome(query, articles);
    KeepRelevantSubsequence(query, articles);
    KeepRelevantMembers(query, articles);
  }

  /** Filtering the filter's result again with the same query returns it unchanged. */
  lemma SelectIdempotent(query: string, articles: seq<Article>)
    requires Select(query, articles).Ok?
    ensures Select(query, Select(query, articles).value) == Select(query, articles)
  {
    var r := Select(query, articles).value;
    SelectKeepsExactlyRelevant(query, articles);
    assert forall i :: 0 <= i < |r| ==> r[i] in r;
    SelectKeyed(query, r);
    KeepRelevantOfRelevant(query, r);
  }

  // ---------------------------------------------------------------------------
  // The cardiovascular article: the title test does not lowercase the title
  // ---------------------------------------------------------------------------

  const ScenarioTitle := "Cardiovascular Drug Trial Shows Promise"
  const ScenarioLabel := "RESULTS"
  const ScenarioText := "cardiovascular outcomes improved"

  const ScenarioArticle := Article(
    Some(ScenarioTitle),
    Some(List([Labeled(Some(ScenarioLabel), Some(ScenarioText))])),
    None, None, None, None)

  /** The article formats as the title line, a blank line, `Abstract:` and
      its one labeled section. */
  lemma ScenarioSummary()
    ensures Summary(ScenarioArticle)
         == "Title: " + ScenarioTitle + "\n\nAbstract:\n" + ScenarioLabel + ": " + ScenarioText
  {
    SummaryOneSection(ScenarioArticle, Labeled(Some(ScenarioLabel), Some(ScenarioText)));
  }

  /** A string without upper-case letters is its own lowercase form. */
  lemma LowerOfLowercase(s: string)
    requires forall i :: 0 <= i < |s| ==> !IsUpper(s[i])
    ensures Lower(s) == s
  {
  }

  /** A needle whose first two characters never stand side by side in `hay`
      does not occur in `hay`. */
  lemma NoAdjacentPair(hay: string, needle: string)
    requires |needle| >= 2
    requires forall k :: 0 <= k < |hay| - 1 ==> !(hay[k] == needle[0] && hay[k + 1] == needle[1])
    ensures !Contains(hay, needle)
  {
    forall i
      ensures !OccursAt(hay, needle, i)
    {
      if 0 <= i && i + |needle| <= |hay| {
        assert hay[i..i + |needle|][0] == hay[i];
        assert hay[i..i + |needle|][1] == hay[i + 1];
      }
    }
    ContainsIffOccurs(hay, needle);
  }

  /** The capitalised title does not contain the lowercase query: its only
      lowercase `c` is followed by `u`, never by `a`. */
  lemma ScenarioTitleLacksQuery()
    ensures !Contains(ScenarioTitle, "cardiovascular")
  {
    assert forall k :: 0 <= k < |ScenarioTitle| && k != 9 ==> ScenarioTitle[k] != 'c';
    assert ScenarioTitle[10] == 'u';
    NoAdjacentPair(ScenarioTitle, "cardiovascular");
  }

  /** An article whose title lacks the lowercased query is never in the
      filter's result, whatever list it stands in. */
  lemma {:induction false} SelectOneTitleMismatch(query: string, a: Article, articles: seq<Article>)
    requires HasKeys(a) && !Contains(a.title.value, Lower(query))
    ensures Select(query, articles).Ok? ==> a !in Select(query, articles).value
  {
    if Select(query, articles).Ok? {
      SelectKeepsExactlyRelevant(query, articles);
    }
  }

  /** The one-article list holding such an article filters to `[]`. */
  lemma SelectSingleTitleMismatch(query: string, a: Article)
    requires HasKeys(a) && !Contains(a.title.value, Lower(query))
    ensures Select(query, [a]) == Ok([])
  {
    assert Check(query, a) == Ok(false);
    SelectStep(query, [a]);
    assert [a][1..] == [];
    PrependNothing(Select(query, []));
  }

  /** For the query `cardiovascular` the title test fails, because the
      capitalised title is compared unlowered: the filter drops the article
      whatever its abstract says. */
  lemma ScenarioDropped()
    ensures !Contains(ScenarioArticle.title.value, Lower("cardiovascular"))
    ensures Select("cardiovascular", [ScenarioArticle]) == Ok([])
  {
    LowerOfLowercase("cardiovascular");
    ScenarioTitleLacksQuery();
    SelectSingleTitleMismatch("cardiovascular", ScenarioArticle);
  }
}
