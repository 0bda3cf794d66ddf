# Drug-news pipeline core, modelled in Dafny

The drug-news assistant answers a disease query from three sources:

- PubMed articles, fetched with an esearch request followed by an efetch request;
- Europe PMC articles;
- clinical-trial studies.

It keeps the PubMed articles whose abstract and title mention the query and renders each kept article as a text block for a language-model prompt. This project models the data logic of that pipeline and proves what it does:

- **Summary formatter.** `process_article_for_summary` in `app/services/utils.py` and its copy in `app/main.py` turn an article dictionary into `Title: <title>\n\nAbstract:\n` followed by the rendered abstract sections, joined by blank lines.
- **Relevance filter.** `select_disease_informed_articles` in `app/services/utils.py` and its copy in `app/main.py` keep, in order, the articles whose lowercased, space-joined abstract text contains the lowercased query and whose title contains it too. The title itself is not lowercased. A missing `abstract` key raises `KeyError`. A missing `title` key raises only when the abstract test succeeded, because `and` stops at a false left operand.
- **Source adapters.** In `app/services/pubmed.py` the adapters build the search strings, the request parameters and the article or trial records, including every default and sentinel string. They also implement the status-code early returns.

The modules follow the program:

- `Wrappers` holds `Option` for dictionary lookups and `Result` for raised exceptions.
- `Strings` holds the Python string operations the source uses: `join`, ASCII `lower`, `in` and `str(int)`. It also holds `Split` and `ParseInt`, which the source never calls: they are the model's inverses of `join` and `str(int)`, used to state round trips.
- `Records` holds the article and abstract shapes. It also holds `Sections`, the elements a Python `for` loop visits when it iterates an abstract value.
- `Utils` models `app/services/utils.py`.
- `AppMain` models the two copies in `app/main.py`.
- `Pubmed` models `app/services/pubmed.py`.

The loops in the source are methods with loop invariants. Each method is proved equal to a recursive specification function (`Summary`, `Select`, `PubmedArticles`, `EuropePmcArticles`, `Trials`). The properties of those functions are lemmas.

The model follows the code where its behaviour differs from what the names and comments suggest:

- **The title is compared unlowered.** One would expect the query `cardiovascular` to keep an article titled `Cardiovascular Drug Trial Shows Promise` whose abstract mentions cardiovascular outcomes. The code drops it, because the lowercased query is searched in the title as it is, and `Utils.ScenarioDropped` proves that. The formatter renders that article as `Title: Cardiovascular Drug Trial Shows Promise`, a blank line, `Abstract:` and `RESULTS: cardiovascular outcomes improved` (`Utils.ScenarioSummary`).
- **Abstracts are not normalised into sequences.** A bare-string abstract, including the `No abstract available` sentinel and every Europe PMC abstract, is iterated character by character. A lone labelled `AbstractText` dictionary is iterated by its key names, for instance `@Label`, `@NlmCategory` and `#text`.
- **Empty XML elements decode as `None`.** A search without hits answers with an empty `IdList`, and a record may carry an empty `Abstract`. In both cases the following `.get` raises `AttributeError`, so a search without hits raises instead of returning `[]`.
- **The adapters do not catch exceptions.** A missing required PubMed key raises; the model returns an `Err`.
- **The trials adapter neither extracts drug names nor applies a date window.** It only maps the fields.
- **A lone PubMed identifier is decoded as a bare string.** `",".join` then separates its characters with commas.

## Model

| member | source | states |
|---|---|---|
| Records.SectionsOf | app/services/utils.py:10 | what a `for` loop over the abstract visits: a list's elements; a bare string's characters, each as a one-character string; a lone dictionary's key names, in order |
| Utils.HeaderParts | app/services/utils.py:20 | `Title: `, then the title, then `\n\nAbstract:\n`, so the header determines the title |
| Utils.RenderParts | app/services/utils.py:11-17 | a dictionary section is its label (`SECTION` when missing), `: `, then its text (`""` when missing); any other section is itself |
| Utils.RenderAll | app/services/utils.py:9-17 | one rendered piece per section, in order |
| Utils.ProcessArticleForSummary | app/services/utils.py:1-21 | the loop's output is `Summary(article)` and starts with the header of the title, `""` when missing |
| Utils.SummaryWithoutAbstract | app/services/utils.py:3-20 | when the loop visits no section (no abstract key, an empty list, an empty string) the output is exactly the header |
| Utils.SummarySection | app/services/utils.py:9-20 | section i appears after the header at its join offset: a dict as `<@Label or SECTION>: <#text or "">`, a bare section unchanged |
| Utils.SummarySeparator | app/services/utils.py:20 | every section but the last is followed by exactly `\n\n`, and the next section starts right after it |
| Utils.SummaryEnd | app/services/utils.py:20 | nothing follows the last section's piece |
| Utils.SummaryOneSection | app/services/utils.py:10-20 | a one-section list renders as the header plus that section's piece |
| Utils.SummaryOnePlainSection | app/services/utils.py:15-17 | a one-element list holding a bare string renders as header plus the string, with no label |
| Utils.SummaryBareAbstract | app/services/utils.py:6-20 | a bare-string abstract yields its characters three positions apart, separated by `\n\n`; the output length is header + 3n - 2 |
| Utils.SummarySingleDictionary | app/services/utils.py:6-20 | a lone abstract dictionary renders as the header followed by its key names joined by `\n\n`, none of its values |
| Utils.SummaryLabelledAbstractText | app/services/utils.py:6-20 | a lone dictionary with the keys `@Label`, `@NlmCategory`, `#text` renders as `@Label\n\n@NlmCategory\n\n#text` after the header |
| Utils.ScenarioSummary | app/services/utils.py:1-21 | the cardiovascular article renders as `Title: Cardiovascular Drug Trial Shows Promise\n\nAbstract:\nRESULTS: cardiovascular outcomes improved` |
| Utils.SectionTexts | app/services/utils.py:28-30 | one text per section, in order: a dict's `#text` or `""`, any other section itself |
| Utils.FullTextSection | app/services/utils.py:28-31 | each section's text, lowercased, stands at its join offset in the searched text |
| Utils.FullTextSpace | app/services/utils.py:28 | every section's text but the last is followed by exactly one space in the searched text |
| Utils.FullTextEnd | app/services/utils.py:28-31 | an abstract without sections is searched as `""`; otherwise the searched text ends with the last section's lowercased text |
| Utils.FullTextSingleDictionary | app/services/utils.py:28-31 | a lone dictionary is searched through its key names, lowercased and joined by spaces |
| Utils.RelevantOccurs | app/services/utils.py:32 | an article is relevant iff it has both keys and the lowercased query starts at some index of the lowercased abstract text and at some index of the unlowered title |
| Utils.Check | app/services/utils.py:28-32 | keep iff relevant; it raises iff the abstract key is missing, or the title key is missing and the abstract text matched; KeyError('abstract') iff no abstract key; KeyError('title') iff abstract present, no title, and abstract text matched |
| Utils.SelectDiseaseInformedArticles | app/services/utils.py:23-34 | the loop's result (kept list or first exception) is `Select(query, articles)` |
| Utils.SelectOutcome | app/services/utils.py:25-34 | empty input gives `[]`; the filter succeeds iff no article raises, then returns exactly `KeepRelevant`; otherwise it raises the first raising article's exception |
| Utils.SelectKeyed | app/services/utils.py:25-34 | on articles carrying both keys the filter returns the relevant articles in order |
| Utils.KeepRelevantMembers | app/services/utils.py:32-33 | an article is kept iff it is in the input and relevant |
| Utils.KeepRelevantSubsequence | app/services/utils.py:25-34 | the kept articles are an order-preserving subsequence of the input |
| Utils.KeepRelevantOfRelevant | app/services/utils.py:25-34 | a list of relevant articles is kept whole |
| Utils.SelectKeepsExactlyRelevant | app/services/utils.py:25-34 | the result is an order-preserving subsequence whose members are exactly the relevant input articles |
| Utils.SelectIdempotent | app/services/utils.py:25-34 | filtering the result again with the same query returns it unchanged |
| Utils.SelectOneTitleMismatch | app/services/utils.py:32-33 | an article with both keys whose title lacks the lowercased query is in no successful result, whatever list it stands in |
| Utils.ScenarioTitleLacksQuery | app/services/utils.py:32 | `cardiovascular` does not occur in `Cardiovascular Drug Trial Shows Promise` |
| Utils.ScenarioDropped | app/services/utils.py:32 | the cardiovascular article is dropped for the query `cardiovascular`, as a one-article list filtered to `[]` |
| Strings.JoinPiece | app/services/utils.py:20 | piece i of a join stands at its offset and is followed by exactly one separator |
| Strings.JoinLength | app/services/utils.py:20 | a join ends with its last piece |
| Strings.Lower | app/services/utils.py:31-32 | lowercasing keeps the length and maps every character through the ASCII case map |
| Strings.ContainsIffOccurs | app/services/utils.py:32 | `needle in hay` holds iff the needle occurs at some index |
| Strings.ParseIntToString | app/services/pubmed.py:10 | the decimal rendering of an int reads back as that int |
| Strings.SplitJoin | app/services/pubmed.py:30 | splitting a comma join gives back comma-free pieces |
| Strings.JoinChars | app/services/pubmed.py:30 | joining a bare string's characters interleaves them with the separator |
| AppMain.ProcessArticleForSummary | app/main.py:6-26 | the copy's output equals the services formatter's `Summary(article)`, so every formatter lemma above holds for it |
| AppMain.SelectDiseaseInformedArticles | app/main.py:28-39 | the copy, over the module-level list with a plain query string, returns `Select(userInput, list)`: the services filter's result when its request query is that string |
| Pubmed.PubmedSearchTerm | app/services/pubmed.py:10 | the term `query AND ("last N days"[dp])` starts with the query and reads back as query and N, whatever the query holds |
| Pubmed.IdPieces | app/services/pubmed.py:23-30 | iterating the decoded ids visits the list's elements, or each character of a lone id |
| Pubmed.EfetchIds | app/services/pubmed.py:26-30 | when there are ids and none holds a comma, the efetch `id` parameter splits back into exactly the ids iterated |
| Pubmed.EfetchIdsOfOneId | app/services/pubmed.py:23-30 | a lone identifier is joined character by character, so efetch receives `1,2,3` for `123` |
| Pubmed.PubmedUrl | app/services/pubmed.py:43 | the address `https://pubmed.ncbi.nlm.nih.gov/<pmid>/` reads back as the identifier |
| Pubmed.PubmedArticleOf | app/services/pubmed.py:39-50 | a record maps to `{title, abstract, journal, url}`; a missing `Abstract` or `AbstractText` gives `No abstract available`; a missing title, an empty `Abstract`, a missing journal or PMID raises, in that order |
| Pubmed.FetchPubmedArticles | app/services/pubmed.py:5-55 | the esearch parameters are built; an empty `IdList` raises `AttributeError` before efetch; otherwise efetch is requested iff identifiers came back, with the comma-joined ids; no identifiers give `[]`; otherwise the articles are `ParsePubmedArticles`' result |
| Pubmed.ParsePubmedArticles | app/services/pubmed.py:38-49 | the loop over the efetch records equals `PubmedArticles`: one article per record with title, abstract (the `Bare("No abstract available")` placeholder when absent), journal and PubMed URL, in order, or the exception of the first record lacking a title, having an empty `Abstract`, or lacking a journal title or PMID |
| Pubmed.PubmedArticlesOutcome | app/services/pubmed.py:38-50 | one article per record in order, or the first incomplete record's exception |
| Pubmed.PubmedArticlesFilterable | app/services/pubmed.py:45-50 | PubMed articles always carry title and abstract, so the relevance filter never raises on them |
| Pubmed.BareAbstractNeverMatches | app/services/pubmed.py:40 | a bare-string abstract never matches a query of two or more characters without spaces |
| Pubmed.NoAbstractNeverSelected | app/services/pubmed.py:40 | a PubMed article with the `No abstract available` sentinel is never kept for such a query |
| Pubmed.EuropePmcQuery | app/services/pubmed.py:68 | the query `q AND FIRST_PDATE:[start TO end]` starts with q and, for space-free dates, reads back as q, start and end |
| Pubmed.EpmcItems | app/services/pubmed.py:86 | the results iterated are `resultList.result`, or none when either key is missing |
| Pubmed.EuropePmcUrl | app/services/pubmed.py:92 | `https://europepmc.org/article/<source>/<id>` reads back as source and id when the id holds no `/` |
| Pubmed.EuropePmcArticleOf | app/services/pubmed.py:87-93 | missing title, authors, abstract and doi get their placeholder strings; the address uses `""` for a missing source or id and reads back as them |
| Pubmed.EuropePmcArticles | app/services/pubmed.py:85-93 | one article per result, in order |
| Pubmed.FetchEuropePmcArticles | app/services/pubmed.py:57-99 | parameters `{query, format json, pageSize}`; a non-200 status gives `[]`; otherwise one article per `resultList.result` item |
| Pubmed.TrialOf | app/services/pubmed.py:129-139 | nctId, title and overallStatus are copied, `N/A` when missing |
| Pubmed.Trials | app/services/pubmed.py:127-139 | one trial per study, in order |
| Pubmed.FetchNewDrugDevelopmentTrials | app/services/pubmed.py:101-141 | parameters `{expr, fields, min_rnk 1, max_rnk, fmt json}`; a non-200 status gives `([], None)`; otherwise the trials and `nextPageToken` |

## Left out

- HTTP requests, XML decoding and JSON decoding are not modelled (app/services/pubmed.py:20-21, 34-35, 76, 83, 118, 123). The identifier list, the decoded records, the status codes and the decoded payloads are inputs.
- A KeyError on `eSearchResult` or `PubmedArticleSet`, or a server whose answer is not XML, is not modelled.
- An empty `<Id/>` or `<AbstractText/>` element, which the decoder makes `None`, is not modelled. A lone empty `<Id/>` makes `article_ids` `None`, so no efetch request is sent and `[]` is returned; a `None` among other ids makes `",".join` raise. A lone empty `<AbstractText/>` makes the abstract itself `None`, so the formatter's and the filter's loops both raise. A `None` inside an abstract list renders as `None` in the formatter (`str(None)`) and makes the filter's `" ".join` raise.
- `datetime.today()` and `timedelta` are not modelled. The Europe PMC start and end dates are parameters.
- The `print` logging is a side effect and is not modelled.
- main.py's filter reads a module-level global; in the model it is the parameter `newsDataPubmed`. The NameError raised when that global is undefined is not modelled.
- Default argument values (`max_results=10`, `past_num_days=30`, `days=30`) are not modelled. Callers pass every argument.
- The trials adapter's `days` argument and `start_date` are computed or accepted but never used, so they are not modelled.
- xmltodict turns a lone `PubmedArticle` into a dictionary, and iterating it then fails on string keys. The model takes the decoded records as a list, so this failure is not modelled.
- Pubmed.PubmedArticleOf: a record whose `MedlineCitation` or `Article` key is missing raises with that key's name in Python. The model reports it under the name of the first value that cannot be read (`ArticleTitle`, `Journal/Title` or `PMID/#text`).
- Records.Section: inside an abstract list only the `@Label` and `#text` keys of an `AbstractText` dictionary are modelled, since the code reads no other key there. A listed dictionary with other attributes only (for example `@NlmCategory`) is covered, since both keys are then missing. A lone dictionary keeps all its key names (`Records.Abstract.Single`).
- Records.Section: a `None` section and JSON `null` values are not modelled.
- Pubmed.PubmedArticleOf: a title that is not a string is not modelled. An `ArticleTitle` with inline markup (`<i>…</i>`) decodes as a dictionary; the filter's `in` then asks whether the query is one of its keys, and the formatter prints its repr.
- Strings.Lower: lowercasing covers ASCII letters only. Python's `str.lower` also folds other Unicode letters.
- app/routers/chat.py is not part of this model (route, identifiers from uuid4, calls to the language model, vector store and notifications). Note that it hands the request object itself to the adapters, where strings are expected.
- The `__main__` script of app/main.py (lines 41-72) is not part of this model, because it only orchestrates network calls.
- app/services/memory.py, app/services/notification.py, app/gmail_auth_flow.py, app/services/llm.py and app/config.py are not part of this model. They wrap external services.
- Of app/schemas.py only the `UserQuery` request shape is mirrored, as `Records.UserQuery`.
