/** The three literature and trial adapters: PubMed (E-utilities esearch then
    efetch), Europe PMC (REST search) and the clinical-trials registry. The
    HTTP calls and the XML/JSON decoding are not modelled: each adapter takes
    what the decoder would have produced (the identifier list, the decoded
    records, the status code and decoded payload) and returns the request
    parameters it would send together with the records it builds. */
module Pubmed {
  import opened Wrappers
  import opened Strings
  import opened Records
  import Utils

  // ===========================================================================
  // PubMed
  // ===========================================================================

  const PubmedTermMarker := " AND (\"last "
  const PubmedTermSuffix := " days\"[dp])"

  /** The esearch `term`: the user query followed by a relative
      publication-date filter covering the last `pastNumDays` days. The term
      starts with the query and determines the query and the day window it
      was built from, whatever the query holds. */
  function PubmedSearchTerm(query: string, pastNumDays: int): (term: string)
    ensures query <= term
    ensures ParsePubmedSearchTerm(term) == Some((query, pastNumDays))
  {
    SearchTermReadsBack(query, pastNumDays);
    query + PubmedTermMarker + IntToString(pastNumDays) + PubmedTermSuffix
  }

  /** Reads a search term back into the query and the number of days. */
  function ParsePubmedSearchTerm(term: string): Option<(string, int)> {
    if !EndsWith(term, PubmedTermSuffix) then None
    else
      var (left, days) := TrailingRun(term[..|term| - |PubmedTermSuffix|], ' ');
      if !EndsWith(left, PubmedTermMarker) then None
      else
        match ParseInt(days)
        case None => None
        case Some(n) => Some((left[..|left| - |PubmedTermMarker|], n))
  }

  lemma SearchTermReadsBack(query: string, pastNumDays: int)
    ensures ParsePubmedSearchTerm(query + PubmedTermMarker + IntToString(pastNumDays) + PubmedTermSuffix)
         == Some((query, pastNumDays))
  {
    var digits := IntToString(pastNumDays);
    var left := query + PubmedTermMarker;
    var body := left + digits;
    var term := query + PubmedTermMarker + IntToString(pastNumDays) + PubmedTermSuffix;
    assert term == body + PubmedTermSuffix;
    assert term[|term| - |PubmedTermSuffix|..] == PubmedTermSuffix;
    assert term[..|term| - |PubmedTermSuffix|] == body;
    assert left[|left| - 1] == ' ';
    TrailingRunOf(left, digits, ' ');
    assert left[|left| - |PubmedTermMarker|..] == PubmedTermMarker;
    assert left[..|left| - |PubmedTermMarker|] == query;
    ParseIntToString(pastNumDays);
  }

  /** The query parameters of the esearch request. */
  datatype EsearchParams = EsearchParams(db: string, term: string, retmode: string, retmax: int)

  /** The query parameters of the efetch request. */
  datatype EfetchParams = EfetchParams(db: string, id: string, retmode: string)

  /** The `IdList` of the esearch answer as the XML decoder gives it: a list
      for several identifiers, a bare string for exactly one, and `None` for
      an `IdList` element without children (a search without hits). A
      missing `IdList` key reads as a list without identifiers. */
  datatype IdList = Ids(ids: seq<string>) | OneId(id: string) | EmptyIdList

  /** What iterating the decoded identifiers yields: the list's elements, or
      the characters of a lone identifier. */
  function IdPieces(l: IdList): (r: seq<string>)
    requires !l.EmptyIdList?
    ensures l.Ids? ==> r == l.ids
    ensures l.OneId? ==> |r| == |l.id| && forall i :: 0 <= i < |r| ==> r[i] == [l.id[i]]
  {
    match l
    case Ids(ids) => ids
    case OneId(s) => Chars(s)
  }

  /** The truth value of the decoded identifiers: non-empty list or string. */
  predicate HasIds(l: IdList) {
    !l.EmptyIdList? && |IdPieces(l)| > 0
  }

  /** The comma-joined `id` parameter of the efetch request. When the
      identifiers iterated hold no comma, efetch is sent exactly those
      identifiers: splitting the parameter at its commas gives them back. */
  function EfetchIds(l: IdList): (r: string)
    requires !l.EmptyIdList?
    ensures HasIds(l) && (forall k :: 0 <= k < |IdPieces(l)| ==> ',' !in IdPieces(l)[k]) ==>
              Split(r, ',') == IdPieces(l)
  {
    if HasIds(l) && (forall k :: 0 <= k < |IdPieces(l)| ==> ',' !in IdPieces(l)[k]) then
      SplitJoin(IdPieces(l), ',');
      Join(",", IdPieces(l))
    else Join(",", IdPieces(l))
  }

  /** A lone identifier is joined character by character: efetch is asked for
      each of its digits separately, `12345` becoming `1,2,3,4,5`. */
  lemma EfetchIdsOfOneId(id: string)
    requires |id| > 0
    ensures |EfetchIds(OneId(id))| == 2 * |id| - 1
    ensures forall i :: 0 <= i < |id| ==> EfetchIds(OneId(id))[2 * i] == id[i]
    ensures forall i :: 0 <= i < |id| - 1 ==> EfetchIds(OneId(id))[2 * i + 1] == ','
    ensures |id| > 1 ==> EfetchIds(OneId(id)) != id
  {
    JoinChars(',', id);
  }

  /** The `Abstract` element of a record as the decoder gives it: missing
      (the lookup falls back to an empty dictionary), an element without
      children (decoded as `None`), or an element whose `AbstractText` may
      be missing. */
  datatype AbstractElement =
    | AbsentAbstract
    | EmptyAbstract
    | AbstractWith(abstractText: Option<Abstract>)

  /** One decoded `PubmedArticle`, reduced to the four values the adapter
      reads: `MedlineCitation/Article/ArticleTitle`,
      `MedlineCitation/Article/Abstract(/AbstractText)`,
      `MedlineCitation/Article/Journal/Title` and `MedlineCitation/PMID/#text`.
      `None` marks a value whose key (or an enclosing key) is missing. */
  datatype PubmedRecord = PubmedRecord(
    articleTitle: Option<string>,
    abstractElement: AbstractElement,
    journalTitle: Option<string>,
    pmid: Option<string>)

  /** The exceptions raised inside the adapter: a missing key, naming the
      value that could not be read, or the `AttributeError` of calling
      `.get` on a value the decoder made `None`. */
  datatype AdapterError = MissingKey(key: string) | AttributeError(attribute: string)

  const NoAbstract := "No abstract available"
  const PubmedUrlPrefix := "https://pubmed.ncbi.nlm.nih.gov/"

  /** The article page of a PubMed identifier; the address determines the
      identifier, so distinct identifiers give distinct addresses. */
  function PubmedUrl(pmid: string): (url: string)
    ensures PubmedIdOfUrl(url) == Some(pmid)
  {
    var url := PubmedUrlPrefix + pmid + "/";
    assert url[..|PubmedUrlPrefix|] == PubmedUrlPrefix;
    assert url[|PubmedUrlPrefix|..|url| - 1] == pmid;
    url
  }

  /** Reads the identifier back out of an article page address. */
  function PubmedIdOfUrl(url: string): Option<string> {
    if |url| > |PubmedUrlPrefix| && url[..|PubmedUrlPrefix|] == PubmedUrlPrefix && url[|url| - 1] == '/'
    then Some(url[|PubmedUrlPrefix|..|url| - 1])
    else None
  }

  /** The abstract value of a record whose `Abstract` element is not empty:
      the `AbstractText`, or the `No abstract available` string. */
  function AbstractValue(e: AbstractElement): Abstract
    requires !e.EmptyAbstract?
  {
    if e.AbstractWith? && e.abstractText.Some? then e.abstractText.value else Bare(NoAbstract)
  }

  /** The record holds every value the adapter reads without a default. */
  predicate Complete(rec: PubmedRecord) {
    rec.articleTitle.Some? && !rec.abstractElement.EmptyAbstract? && rec.journalTitle.Some? && rec.pmid.Some?
  }

  /** The article dictionary built from one record, or the exception of the
      first value that cannot be read, in the order the code reads them:
      title, abstract (an empty `Abstract` element raises), journal,
      identifier. A missing `Abstract` or `AbstractText` becomes the
      `No abstract available` string. */
  function PubmedArticleOf(rec: PubmedRecord): (r: Result<Article, AdapterError>)
    ensures r.Ok? <==> Complete(rec)
    ensures rec.articleTitle.None? ==> r == Err(MissingKey("ArticleTitle"))
    ensures rec.articleTitle.Some? && rec.abstractElement.EmptyAbstract? ==> r == Err(AttributeError("get"))
    ensures rec.articleTitle.Some? && !rec.abstractElement.EmptyAbstract? && rec.journalTitle.None? ==>
              r == Err(MissingKey("Journal/Title"))
    ensures (rec.articleTitle.Some? && !rec.abstractElement.EmptyAbstract? && rec.journalTitle.Some?
             && rec.pmid.None?) ==> r == Err(MissingKey("PMID/#text"))
    ensures r.Ok? ==>
              && r.value.title == rec.articleTitle
              && r.value.journal == rec.journalTitle
              && r.value.authors.None? && r.value.doi.None?
              && r.value.url.Some? && PubmedIdOfUrl(r.value.url.value) == rec.pmid
              && r.value.articleAbstract
                 == Some(if rec.abstractElement.AbstractWith? && rec.abstractElement.abstractText.Some?
                         then rec.abstractElement.abstractText.value else Bare(NoAbstract))
  {
    if rec.articleTitle.None? then Err(MissingKey("ArticleTitle"))
    else if rec.abstractElement.EmptyAbstract? then Err(AttributeError("get"))
    else if rec.journalTitle.None? then Err(MissingKey("Journal/Title"))
    else if rec.pmid.None? then Err(MissingKey("PMID/#text"))
    else
      Ok(Article(
        rec.articleTitle,
        Some(AbstractValue(rec.abstractElement)),
        rec.journalTitle,
        None,
        None,
        Some(PubmedUrl(rec.pmid.value))))
  }

  /** The adapter's loop over the fetched records: the articles in order, or
      the exception of the first record that raises. */
  function PubmedArticles(records: seq<PubmedRecord>): Result<seq<Article>, AdapterError>
    decreases |records|
  {
    if records == [] then Ok([])
    else
      match PubmedArticleOf(records[0])
      case Err(e) => Err(e)
      case Ok(a) => Prepend([a], PubmedArticles(records[1..]))
  }

  lemma PubmedArticlesStep(records: seq<PubmedRecord>)
    requires records != []
    ensures PubmedArticleOf(records[0]).Err? ==> PubmedArticles(records) == Err(PubmedArticleOf(records[0]).error)
    ensures PubmedArticleOf(records[0]).Ok? ==>
              PubmedArticles(records) == Prepend([PubmedArticleOf(records[0]).value], PubmedArticles(records[1..]))
  {
  }

  /** The record loop's invariant, with `result` the articles built from the
      first `i` records, survives a record that yields an article. */
  lemma PubmedLoopKeeps(records: seq<PubmedRecord>, i: nat, result: seq<Article>, built: Article)
    requires i < |records| && PubmedArticleOf(records[i]) == Ok(built)
    requires PubmedArticles(records) == Prepend(result, PubmedArticles(records[i..]))
    ensures PubmedArticles(records) == Prepend(result + [built], PubmedArticles(records[i + 1..]))
  {
    assert records[i..][0] == records[i];
    assert records[i..][1..] == records[i + 1..];
    PubmedArticlesStep(records[i..]);
    PrependTwice(result, [built], PubmedArticles(records[i + 1..]));
  }

  /** Under the record loop's invariant, a record that raises decides the
      outcome. */
  lemma PubmedLoopRaises(records: seq<PubmedRecord>, i: nat, result: seq<Article>)
    requires i < |records| && PubmedArticleOf(records[i]).Err?
    requires PubmedArticles(records) == Prepend(result, PubmedArticles(records[i..]))
    ensures PubmedArticles(records) == Err(PubmedArticleOf(records[i]).error)
  {
    assert records[i..][0] == records[i];
    PubmedArticlesStep(records[i..]);
  }

  /** The adapter's loop over the decoded efetch records: it builds one
      article per record and stops at the first record that raises. */
  method ParsePubmedArticles(fetched: seq<PubmedRecord>) returns (articles: Result<seq<Article>, AdapterError>)
    ensures articles == PubmedArticles(fetched)
  {
    var result: seq<Article> := [];
    var i := 0;
    ghost var outcome := PubmedArticles(fetched);
    assert fetched[0..] == fetched;
    PrependNothing(outcome);
    while i < |fetched|
      invariant 0 <= i <= |fetched|
      invariant outcome == Prepend(result, PubmedArticles(fetched[i..]))
    {
      var article := fetched[i];
      if article.articleTitle.None? {
        assert PubmedArticleOf(article) == Err(MissingKey("ArticleTitle"));
        PubmedLoopRaises(fetched, i, result);
        return Err(MissingKey("ArticleTitle"));
      }
      var title := article.articleTitle.value;
      var abstractValue: Abstract;
      match article.abstractElement {
        case AbsentAbstract =>
          abstractValue := Bare(NoAbstract);
        case EmptyAbstract =>
          assert PubmedArticleOf(article) == Err(AttributeError("get"));
          PubmedLoopRaises(fetched, i, result);
          return Err(AttributeError("get"));
        case AbstractWith(text) =>
          abstractValue := text.GetOr(Bare(NoAbstract));
      }
      if article.journalTitle.None? {
        assert PubmedArticleOf(article) == Err(MissingKey("Journal/Title"));
        PubmedLoopRaises(fetched, i, result);
        return Err(MissingKey("Journal/Title"));
      }
      var journal := article.journalTitle.value;
      if article.pmid.None? {
        assert PubmedArticleOf(article) == Err(MissingKey("PMID/#text"));
        PubmedLoopRaises(fetched, i, result);
        return Err(MissingKey("PMID/#text"));
      }
      var articleUrl := PubmedUrl(article.pmid.value);
      var built := Article(Some(title), Some(abstractValue), Some(journal), None, None, Some(articleUrl));
      assert PubmedArticleOf(article) == Ok(built);
      PubmedLoopKeeps(fetched, i, result, built);
      result := result + [built];
      i := i + 1;
    }
    assert result + [] == result;
    articles := Ok(result);
  }

  /** The model's `fetch_pubmed_articles`. `idList` is the decoded
      `IdList` of the esearch answer and `fetched` the decoded
      `PubmedArticle` records of the efetch answer. It returns the esearch
      parameters, the efetch parameters (none when no identifier came back,
      in which case no second request is made) and the articles. A search
      without hits answers with an empty `IdList` element, which the decoder
      makes `None`, so reading its `Id` raises before efetch is reached. */
  method FetchPubmedArticles(query: string, maxResults: int, pastNumDays: int,
                             idList: IdList, fetched: seq<PubmedRecord>)
    returns (esearch: EsearchParams, efetch: Option<EfetchParams>,
             articles: Result<seq<Article>, AdapterError>)
    ensures esearch == EsearchParams("pubmed", PubmedSearchTerm(query, pastNumDays), "xml", maxResults)
    ensures efetch.Some? <==> HasIds(idList)
    ensures efetch.Some? ==> efetch.value == EfetchParams("pubmed", EfetchIds(idList), "xml")
    ensures idList.EmptyIdList? ==> articles == Err(AttributeError("get"))
    ensures !idList.EmptyIdList? ==> articles == if HasIds(idList) then PubmedArticles(fetched) else Ok([])
  {
    var searchQuery := PubmedSearchTerm(query, pastNumDays);
    esearch := EsearchParams("pubmed", searchQuery, "xml", maxResults);
    if idList.EmptyIdList? {
      return esearch, None, Err(AttributeError("get"));
    }
    var articleIds := IdPieces(idList);
    efetch := None;
    articles := Ok([]);
    if |articleIds| > 0 {
      efetch := Some(EfetchParams("pubmed", Join(",", articleIds), "xml"));
      articles := ParsePubmedArticles(fetched);
    }
  }

  /** The adapter raises exactly when some record lacks a required value,
      and then with the first such record's exception; otherwise it returns
      one article per record, in order. */
  lemma {:induction false} PubmedArticlesOutcome(records: seq<PubmedRecord>)
    ensures PubmedArticles(records).Ok? <==> forall i :: 0 <= i < |records| ==> Complete(records[i])
    ensures PubmedArticles(records).Ok? ==>
              && |PubmedArticles(records).value| == |records|
              && forall i :: 0 <= i < |records| ==>
                   Ok(PubmedArticles(records).value[i]) == PubmedArticleOf(records[i])
    ensures PubmedArticles(records).Err? ==>
              exists i :: 0 <= i < |records|
                && PubmedArticleOf(records[i]) == Err(PubmedArticles(records).error)
                && forall j :: 0 <= j < i ==> Complete(records[j])
    decreases |records|
  {
    if records != [] {
      var tail := records[1..];
      PubmedArticlesOutcome(tail);
      var r := PubmedArticles(records);
      var first := PubmedArticleOf(records[0]);
      if first.Ok? && PubmedArticles(tail).Err? {
        var i :| 0 <= i < |tail|
          && PubmedArticleOf(tail[i]) == Err(PubmedArticles(tail).error)
          && forall j :: 0 <= j < i ==> Complete(tail[j]);
        assert PubmedArticleOf(records[i + 1]) == Err(r.error);
        forall j | 0 <= j < i + 1
          ensures Complete(records[j])
        {
          if j > 0 {
            assert records[j] == tail[j - 1];
          }
        }
      }
      if r.Ok? {
        var rest := PubmedArticles(tail).value;
        assert r.value == [first.value] + rest;
        forall i | 0 <= i < |records|
          ensures Ok(r.value[i]) == PubmedArticleOf(records[i])
        {
          if i > 0 {
            assert r.value[i] == rest[i - 1];
            assert records[i] == tail[i - 1];
          }
        }
      }
      if forall i :: 0 <= i < |records| ==> Complete(records[i]) {
        forall i | 0 <= i < |tail|
          ensures Complete(tail[i])
        {
          assert tail[i] == records[i + 1];
        }
      }
    }
  }

  /** Every PubMed article carries a title and an abstract, so the relevance
      filter never raises on the adapter's output: it returns the relevant
      articles in order. */
  lemma PubmedArticlesFilterable(records: seq<PubmedRecord>, query: string)
    requires PubmedArticles(records).Ok?
    ensures forall i :: 0 <= i < |PubmedArticles(records).value| ==> Utils.HasKeys(PubmedArticles(records).value[i])
    ensures Utils.Select(query, PubmedArticles(records).value)
         == Ok(Utils.KeepRelevant(query, PubmedArticles(records).value))
  {
    PubmedArticlesOutcome(records);
    var articles := PubmedArticles(records).value;
    forall i | 0 <= i < |articles|
      ensures Utils.HasKeys(articles[i])
    {
      assert Ok(articles[i]) == PubmedArticleOf(records[i]);
    }
    Utils.SelectKeyed(query, articles);
  }

  /** The text the filter searches for a bare-string abstract has a space at
      every odd position. */
  lemma BareFullTextSpaced(s: string)
    ensures forall j :: 0 <= j < |Utils.FullText(Bare(s))| && j % 2 == 1 ==> Utils.FullText(Bare(s))[j] == ' '
  {
    var joined := Join(" ", Utils.SectionTexts(Sections(Bare(s))));
    assert Utils.SectionTexts(Sections(Bare(s))) == Chars(s);
    if |s| > 0 {
      JoinChars(' ', s);
      forall j | 0 <= j < |joined| && j % 2 == 1
        ensures LowerChar(joined[j]) == ' '
      {
        assert joined[2 * (j / 2) + 1] == ' ';
      }
    }
  }

  /** Lowercasing puts no space where there was none. */
  lemma LowerKeepsSpaceFree(q: string)
    requires ' ' !in q
    ensures ' ' !in Lower(q)
  {
    forall k | 0 <= k < |q|
      ensures Lower(q)[k] != ' '
    {
      assert q[k] != ' ';
    }
  }

  /** A string of two or more characters without spaces does not occur in a
      text that has a space at every odd position. */
  lemma NoMatchAcrossSpaces(hay: string, needle: string)
    requires |needle| >= 2 && ' ' !in needle
    requires forall j :: 0 <= j < |hay| && j % 2 == 1 ==> hay[j] == ' '
    ensures !Contains(hay, needle)
  {
    forall i
      ensures !OccursAt(hay, needle, i)
    {
      if 0 <= i && i + |needle| <= |hay| {
        var j := if i % 2 == 1 then i else i + 1;
        assert hay[j] == ' ';
        assert hay[i..i + |needle|][j - i] == ' ';
      }
    }
    ContainsIffOccurs(hay, needle);
  }

  /** A bare-string abstract is searched through its characters joined by
      single spaces, so a query of two or more characters without a space can
      never occur in it: an article whose abstract is a bare string (such as
      the `No abstract available` sentinel) is never selected by such a
      query. */
  lemma BareAbstractNeverMatches(s: string, query: string)
    requires |query| >= 2 && ' ' !in query
    ensures !Contains(Utils.FullText(Bare(s)), Lower(query))
  {
    BareFullTextSpaced(s);
    LowerKeepsSpaceFree(query);
    NoMatchAcrossSpaces(Utils.FullText(Bare(s)), Lower(query));
  }

  /** A PubMed record without an abstract yields an article the filter never
      keeps for a query of two or more characters without spaces. */
  lemma NoAbstractNeverSelected(rec: PubmedRecord, query: string)
    requires Complete(rec) && (rec.abstractElement.AbsentAbstract? || rec.abstractElement == AbstractWith(None))
    requires |query| >= 2 && ' ' !in query
    ensures !Utils.Relevant(query, PubmedArticleOf(rec).value)
  {
    BareAbstractNeverMatches(NoAbstract, query);
  }

  // ===========================================================================
  // Europe PMC
  // ===========================================================================

  const EpmcDateMarker := " AND FIRST_PDATE:["
  const EpmcDateKey := "FIRST_PDATE:["

  /** The search query: the user query restricted to first publication dates
      between `startDate` and `endDate` (both `YYYY-MM-DD` strings). */
  function EuropePmcQuery(query: string, startDate: string, endDate: string): (q: string)
    ensures query <= q
    ensures ' ' !in startDate && ' ' !in endDate ==>
              ParseEuropePmcQuery(q) == Some((query, startDate, endDate))
  {
    EuropePmcQueryReadsBack(query, startDate, endDate);
    query + EpmcDateMarker + startDate + " TO " + endDate + "]"
  }

  /** Reads a search query back into the user query and the two dates. */
  function ParseEuropePmcQuery(q: string): Option<(string, string, string)> {
    if !EndsWith(q, "]") then None
    else
      var (left, endDate) := TrailingRun(q[..|q| - 1], ' ');
      if !EndsWith(left, " TO ") then None
      else
        var (before, run) := TrailingRun(left[..|left| - 4], ' ');
        if !(EpmcDateKey <= run) || !EndsWith(before, " AND ") then None
        else Some((before[..|before| - 5], run[|EpmcDateKey|..], endDate))
  }

  lemma EpmcDateKeyHasNoSpace()
    ensures ' ' !in EpmcDateKey
  {
  }

  /** With dates free of spaces (as `YYYY-MM-DD` dates are) the search query
      determines the user query and both dates. */
  lemma EuropePmcQueryReadsBack(query: string, startDate: string, endDate: string)
    ensures ' ' !in startDate && ' ' !in endDate ==>
              ParseEuropePmcQuery(query + EpmcDateMarker + startDate + " TO " + endDate + "]")
              == Some((query, startDate, endDate))
  {
    if ' ' !in startDate && ' ' !in endDate {
      var q := query + EpmcDateMarker + startDate + " TO " + endDate + "]";
      var before := query + " AND ";
      var run := EpmcDateKey + startDate;
      var left := before + run + " TO ";
      assert EpmcDateMarker == " AND " + EpmcDateKey;
      assert q == left + endDate + "]";
      assert q[..|q| - 1] == left + endDate;
      TrailingRunOf(left, endDate, ' ');
      assert left[|left| - 4..] == " TO ";
      assert left[..|left| - 4] == before + run;
      EpmcDateKeyHasNoSpace();
      TrailingRunOf(before, run, ' ');
      assert run[..|EpmcDateKey|] == EpmcDateKey;
      assert run[|EpmcDateKey|..] == startDate;
      assert before[|before| - 5..] == " AND ";
      assert before[..|before| - 5] == query;
    }
  }

  /** The query parameters of the search request. */
  datatype EpmcParams = EpmcParams(query: string, format: string, pageSize: int)

  /** One decoded result of the search answer, reduced to the keys the
      adapter reads. */
  datatype EpmcItem = EpmcItem(
    title: Option<string>,
    authorString: Option<string>,
    abstractText: Option<string>,
    doi: Option<string>,
    source: Option<string>,
    id: Option<string>)

  datatype EpmcResultList = EpmcResultList(result: Option<seq<EpmcItem>>)

  /** The decoded JSON body of a successful answer. */
  datatype EpmcPayload = EpmcPayload(resultList: Option<EpmcResultList>)

  /** The results the adapter iterates: `resultList.result`, empty when
      either key is missing. */
  function EpmcItems(payload: EpmcPayload): (r: seq<EpmcItem>)
    ensures payload.resultList.Some? && payload.resultList.value.result.Some? ==>
              r == payload.resultList.value.result.value
    ensures payload.resultList.None? || payload.resultList.value.result.None? ==> r == []
  {
    payload.resultList.GetOr(EpmcResultList(None)).result.GetOr([])
  }

  const EpmcUrlPrefix := "https://europepmc.org/article/"
  const NoTitle := "No title available"
  const NoAuthors := "No authors available"
  const NoDoi := "No DOI available"

  /** The article page built from the result's source and identifier. An
      identifier without `/` can be read back, together with the source. */
  function EuropePmcUrl(source: string, id: string): (url: string)
    ensures EpmcUrlPrefix <= url
    ensures '/' !in id ==> ParseEuropePmcUrl(url) == Some((source, id))
  {
    EuropePmcUrlReadsBack(source, id);
    EpmcUrlPrefix + source + "/" + id
  }

  /** Reads source and identifier back out of an article page address. */
  function ParseEuropePmcUrl(url: string): Option<(string, string)> {
    if |url| < |EpmcUrlPrefix| || url[..|EpmcUrlPrefix|] != EpmcUrlPrefix then None
    else
      var (left, id) := TrailingRun(url[|EpmcUrlPrefix|..], '/');
      if left == [] then None else Some((left[..|left| - 1], id))
  }

  lemma EuropePmcUrlReadsBack(source: string, id: string)
    ensures '/' !in id ==> ParseEuropePmcUrl(EpmcUrlPrefix + source + "/" + id) == Some((source, id))
  {
    if '/' !in id {
      var url := EpmcUrlPrefix + source + "/" + id;
      var left := source + "/";
      assert url == EpmcUrlPrefix + (left + id);
      assert url[..|EpmcUrlPrefix|] == EpmcUrlPrefix;
      assert url[|EpmcUrlPrefix|..] == left + id;
      TrailingRunOf(left, id, '/');
      assert left[..|left| - 1] == source;
    }
  }

  /** The article dictionary built from one result: every missing key gets
      its placeholder text; a missing source or identifier becomes the empty
      string inside the address. */
  function EuropePmcArticleOf(item: EpmcItem): (a: Article)
    ensures a.title == Some(item.title.GetOr(NoTitle))
    ensures a.authors == Some(item.authorString.GetOr(NoAuthors))
    ensures a.articleAbstract == Some(Bare(item.abstractText.GetOr(NoAbstract)))
    ensures a.doi == Some(item.doi.GetOr(NoDoi))
    ensures a.journal.None?
    ensures a.url == Some(EuropePmcUrl(item.source.GetOr(""), item.id.GetOr("")))
    ensures '/' !in item.id.GetOr("") ==>
              ParseEuropePmcUrl(a.url.value) == Some((item.source.GetOr(""), item.id.GetOr("")))
  {
    Article(
      Some(item.title.GetOr(NoTitle)),
      Some(Bare(item.abstractText.GetOr(NoAbstract))),
      None,
      Some(item.authorString.GetOr(NoAuthors)),
      Some(item.doi.GetOr(NoDoi)),
      Some(EuropePmcUrl(item.source.GetOr(""), item.id.GetOr(""))))
  }

  /** One article per result, in order. */
  function EuropePmcArticles(items: seq<EpmcItem>): (r: seq<Article>)
    ensures |r| == |items|
    ensures forall i :: 0 <= i < |items| ==> r[i] == EuropePmcArticleOf(items[i])
    decreases |items|
  {
    if items == [] then [] else [EuropePmcArticleOf(items[0])] + EuropePmcArticles(items[1..])
  }

  /** The model's `fetch_europe_pmc_articles`. The dates are parameters
      (`startDate` is `pastNumDays` before `endDate`, today); `statusCode` and
      `payload` are the status and decoded body of the answer. Any status
      other than 200 gives an empty list. */
  method FetchEuropePmcArticles(query: string, maxResults: int, startDate: string, endDate: string,
                                statusCode: int, payload: EpmcPayload)
    returns (params: EpmcParams, articles: seq<Article>)
    ensures params == EpmcParams(EuropePmcQuery(query, startDate, endDate), "json", maxResults)
    ensures statusCode != 200 ==> articles == []
    ensures statusCode == 200 ==> articles == EuropePmcArticles(EpmcItems(payload))
  {
    var searchQuery := EuropePmcQuery(query, startDate, endDate);
    params := EpmcParams(searchQuery, "json", maxResults);
    if statusCode != 200 {
      return params, [];
    }
    var items := EpmcItems(payload);
    articles := [];
    for i := 0 to |items|
      invariant |articles| == i
      invariant forall k :: 0 <= k < i ==> articles[k] == EuropePmcArticleOf(items[k])
    {
      articles := articles + [EuropePmcArticleOf(items[i])];
    }
  }

  // ===========================================================================
  // Clinical trials
  // ===========================================================================

  const TrialFields := "NCTId,BriefTitle,OverallStatus,LastUpdatePostDate,InterventionName,InterventionType"
  const NotAvailable := "N/A"

  /** The query parameters of the study-fields request. */
  datatype TrialsParams = TrialsParams(expr: string, fields: string, minRnk: int, maxRnk: int, fmt: string)

  /** One decoded study, reduced to the three values read from
      `protocolSection`: `identificationModule.nctId`,
      `identificationModule.briefTitle` and `statusModule.overallStatus`;
      `None` when the value or an enclosing section is missing. */
  datatype Study = Study(nctId: Option<string>, briefTitle: Option<string>, overallStatus: Option<string>)

  /** The decoded JSON body of a successful answer. */
  datatype TrialsPayload = TrialsPayload(studies: Option<seq<Study>>, nextPageToken: Option<string>)

  /** One trial summary. */
  datatype Trial = Trial(nctId: string, title: string, overallStatus: string)

  /** The summary of one study; each missing value becomes `N/A`. */
  function TrialOf(study: Study): (t: Trial)
    ensures study.nctId.Some? ==> t.nctId == study.nctId.value
    ensures study.nctId.None? ==> t.nctId == NotAvailable
    ensures study.briefTitle.Some? ==> t.title == study.briefTitle.value
    ensures study.briefTitle.None? ==> t.title == NotAvailable
    ensures study.overallStatus.Some? ==> t.overallStatus == study.overallStatus.value
    ensures study.overallStatus.None? ==> t.overallStatus == NotAvailable
  {
    Trial(study.nctId.GetOr(NotAvailable), study.briefTitle.GetOr(NotAvailable), study.overallStatus.GetOr(NotAvailable))
  }

  /** One summary per study, in order. */
  function Trials(studies: seq<Study>): (r: seq<Trial>)
    ensures |r| == |studies|
    ensures forall i :: 0 <= i < |studies| ==> r[i] == TrialOf(studies[i])
    decreases |studies|
  {
    if studies == [] then [] else [TrialOf(studies[0])] + Trials(studies[1..])
  }

  /** The model's `fetch_new_drug_development_trials`: the request parameters,
      the trial summaries and the next-page token. Any status other than 200
      gives no trials and no token. */
  method FetchNewDrugDevelopmentTrials(condition: string, maxResults: int,
                                       statusCode: int, payload: TrialsPayload)
    returns (params: TrialsParams, results: seq<Trial>, nextPageToken: Option<string>)
    ensures params == TrialsParams(condition, TrialFields, 1, maxResults, "json")
    ensures statusCode != 200 ==> results == [] && nextPageToken.None?
    ensures statusCode == 200 ==>
              results == Trials(payload.studies.GetOr([])) && nextPageToken == payload.nextPageToken
  {
    params := TrialsParams(condition, TrialFields, 1, maxResults, "json");
    if statusCode != 200 {
      return params, [], None;
    }
    var studies := payload.studies.GetOr([]);
    nextPageToken := payload.nextPageToken;
    results := [];
    for i := 0 to |studies|
      invariant |results| == i
      invariant forall k :: 0 <= k < i ==> results[k] == TrialOf(studies[k])
    {
      var study := studies[i];
      var nctId := study.nctId.GetOr(NotAvailable);
      var title := study.briefTitle.GetOr(NotAvailable);
      var overallStatus := study.overallStatus.GetOr(NotAvailable);
      results := results + [Trial(nctId, title, overallStatus)];
    }
  }
}
