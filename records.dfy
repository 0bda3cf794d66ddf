/** The dictionary-shaped records that flow between the literature adapters,
    the relevance filter and the summary formatter. Every dictionary key that
    may be missing is an `Option`. */
module Records {
  import opened Wrappers

  /** One element of an abstract list: a dictionary (an `AbstractText`
      element with attributes, of which the code reads `@Label` and `#text`)
      or a bare string. */
  datatype Section =
    | Labeled(sectionLabel: Option<string>, sectionText: Option<string>)
    | Plain(s: string)

  /** The value stored under an article's `"abstract"` key: a list of
      sections, a bare string (the PubMed sentinel, a Europe PMC abstract, or
      a lone `AbstractText` without attributes), or a lone dictionary (a single
      `AbstractText` with attributes), of which only the key names, in their
      order, are ever looked at (for instance `@Label`, `@NlmCategory`,
      `#text`). */
  datatype Abstract =
    | List(sections: seq<Section>)
    | Bare(chars: string)
    | Single(keys: seq<string>)

  /** The elements a Python `for` loop visits when it iterates the abstract
      value: the list's elements, a bare string's characters one by one, or a
      lone dictionary's key names. */
  function Sections(a: Abstract): seq<Section> {
    match a
    case List(ss) => ss
    case Bare(s) => seq(|s|, i requires 0 <= i < |s| => Plain([s[i]]))
    case Single(keys) => seq(|keys|, i requires 0 <= i < |keys| => Plain(keys[i]))
  }

  /** The loop visits one element per list element, per character of a bare
      string (as a one-character string) or per key name of a lone
      dictionary, in order. */
  lemma SectionsOf(a: Abstract)
    ensures a.List? ==> Sections(a) == a.sections
    ensures a.Bare? ==>
              |Sections(a)| == |a.chars| && forall i :: 0 <= i < |a.chars| ==> Sections(a)[i] == Plain([a.chars[i]])
    ensures a.Single? ==>
              |Sections(a)| == |a.keys| && forall i :: 0 <= i < |a.keys| ==> Sections(a)[i] == Plain(a.keys[i])
  {
  }

  /** An article dictionary; `None` marks a key that is not present. PubMed
      articles carry title, abstract, journal and url; Europe PMC articles
      carry title, authors, abstract, doi and url. */
  datatype Article = Article(
    title: Option<string>,
    articleAbstract: Option<Abstract>,
    journal: Option<string>,
    authors: Option<string>,
    doi: Option<string>,
    url: Option<string>)

  /** The request body of the chat endpoint. */
  datatype UserQuery = UserQuery(query: string, conversationId: Option<string>)
}
