# Medical RAG Assistant — a verified Dafny model of its core

This project models the deterministic core of a small retrieval-augmented health
information assistant, and proves properties of that model:

- **Retriever** (`rag.dfy`). A `Retriever` object loads two line-delimited corpus files
  in a fixed order: `medlineplus.jsonl`, then `cdc.jsonl`. It skips lines that do not
  parse. The class runs the corrected loader of the "Findings" section: it also skips
  lines that decode to a JSON value other than an object, where the code as written
  fails (`Rag.LoadAsWritten` models the code as written). When nothing loads, it falls back to one "Setup Required" sentinel document.
  It keeps the document list and the text list row-aligned, and ranks documents by
  similarity score to return the top `k`. The module also models the two string
  builders the service answers with: the retrieval context and the templated answer
  with at most two citations.
- **Condition lookup** (`condition_links.dfy`). The first key of an ordered disease
  table with a variation that occurs, bounded by word boundaries, in the lower-cased
  and trimmed question. That key becomes a MedlinePlus page and, for conditions on
  the CDC list, a CDC page. The page titles come out letter-spaced.
- **Emergency guardrail** (`guardrails.dfy`). A case-insensitive substring scan
  against a fixed keyword list, plus the fixed disclaimer and instruction texts.
- **Ingestion pipeline** (`search_and_ingest.dfy`). URL normalisation (drop the
  fragment, remove `utm_` parameters) and the domain filter. Then the
  keyword-to-corpus pipeline: clean the keywords, collect each site's accepted
  links into a set, fetch and chunk them in sorted order, write one file per site,
  and count the records written. The search engine, the fetcher, the HTML parser,
  the splitter and the digest are parameters (`Env`).
- **Chunk records and whitespace clean-up** (`common.dfy`). Splitter chunks become
  numbered records. The newline collapse and strip end the HTML clean-up.

`text.dfy` holds the ASCII string helpers Python supplies: `lower`, `strip`, `in`
on strings, `join`, string ordering and `str(int)`. `wrappers.dfy` holds `Option`
and `Result`.

Modelling choices:

- The disease table and the list of CDC conditions are parameters.
  `ConditionLinks.CdcDiseases` is the list the service uses.
- A file system is a `Store`: a map from file name to decoded lines. A line is
  either malformed or a decoded JSON value.
- Similarity scores are an input sequence, one per document.
- A Python `set` of links is kept as its strictly sorted list of distinct
  elements. The ordering is the code-point ordering Python's `sorted` uses.
  `SortedListsUnique` shows the list is determined by its members.
- The pattern `#.*$` is modelled exactly: `.` does not match a newline, and `$`
  also matches before a final newline. `SearchAndIngest.StripFragmentWithoutNewline`
  states the consequence for URLs without newlines.
- A leading `utm_` parameter takes the `?` with it. `https://h/p?utm_a=1&x=2`
  becomes `https://h/p&x=2`, so the remaining parameter becomes part of the path.
  `SearchAndIngest.LeadingUtmParameterTakesQuestionMark` proves this for every path
  of that shape. The model keeps the behaviour as the code has it.

## Model

| member | source | states |
|---|---|---|
| Guardrails.EmergencyFlag | app/guardrails.py:11-13 | the flag is raised iff some emergency keyword is a substring of the lower-cased text |
| Guardrails.AnyKeywordIn | app/guardrails.py:13 | `any(k in t ...)` holds iff some keyword of the list occurs in `t` |
| Guardrails.EmergencyFlagIgnoresCase | app/guardrails.py:12 | the flag of a text equals the flag of its lower-cased form |
| Guardrails.EmergencyFlagMonotone | app/guardrails.py:13 | a flagged text keeps the flag inside any text that contains it |
| Guardrails.ShortTextNotFlagged | app/guardrails.py:1-4 | no text shorter than the shortest keyword (six characters), in particular the empty text, is flagged |
| Guardrails.HeatstrokeFlagged | app/guardrails.py:1-4 | matching ignores word boundaries: "Heatstroke" is flagged through "stroke" |
| Text.Lower | app/guardrails.py:12 | `str.lower` on ASCII: same length, each character lower-cased |
| Text.StripLeft | data_ingest/common.py:12 | `lstrip`: a suffix of the input that does not start with whitespace, and everything removed is whitespace |
| Text.StripRight | data_ingest/common.py:12 | `rstrip`: a prefix of the input that does not end with whitespace, and everything removed is whitespace |
| Text.Strip | data_ingest/common.py:12 | `str.strip`: a piece of the input with no whitespace at either end |
| Text.StripRemovesOnlyPadding | data_ingest/common.py:12 | `strip` removes only whitespace, and only at the two ends: the input is the result with whitespace before and after it |
| ConditionLinks.NormalizeQuery | app/condition_links.py:244 | `query.lower().strip()`: a piece of the lower-cased query with no whitespace at either end |
| ConditionLinks.EmbeddedVariationNotFound | app/condition_links.py:251-252 | a variation inside a longer word does not match: "tb" is not found in "tbsp" |
| ConditionLinks.StandaloneVariationFound | app/condition_links.py:251-252 | a variation standing as a word is found: "flu" in "i think i have the flu" |
| ConditionLinks.FirstMatch | app/condition_links.py:248-254 | nothing iff no entry has a word-bounded variation in the query; otherwise the key of the first such entry in table order |
| ConditionLinks.MatchingKeysEmpty | app/condition_links.py:248-254 | the collected keys are empty iff no entry matches |
| ConditionLinks.MatchingKeysStartWithFirst | app/condition_links.py:248-254 | the collected keys start with the key of the first matching entry |
| ConditionLinks.DedupProperties | app/condition_links.py:256-262 | the dedupe keeps exactly the same terms, leaves no duplicates and keeps the first term first |
| ConditionLinks.CollectMatchingKeys | app/condition_links.py:245-254 | the nested loop with `break` adds each matching entry's key once, in table order |
| ConditionLinks.RemoveDuplicates | app/condition_links.py:257-262 | the `seen`-set loop yields the order-preserving dedupe |
| ConditionLinks.UniqueKeysStartWithFirstMatch | app/condition_links.py:256-264 | the deduplicated keys are empty iff nothing matches, and otherwise start with the first match |
| ConditionLinks.ExtractDiseaseTerms | app/condition_links.py:244-264 | at most one term; none when no entry matches, otherwise exactly the first matching key |
| ConditionLinks.TitleOfSpread | app/condition_links.py:277 | `term.replace('', ' ').title()` puts a space before each character, upper-cases it, and adds a final space |
| ConditionLinks.PageTitle | app/condition_links.py:277 | the title is the letter-spaced upper-cased term followed by the suffix |
| ConditionLinks.ThreeLetterTitle | app/condition_links.py:277 | a three-letter term is titled with each letter spaced and upper-cased, e.g. " F L U  - MedlinePlus" |
| ConditionLinks.MedlinePlusPage | app/condition_links.py:274-279 | provider "MedlinePlus", url `https://medlineplus.gov/<term>.html`, and the letter-spaced upper-cased term followed by " - MedlinePlus" as title |
| ConditionLinks.CdcPage | app/condition_links.py:286-292 | provider "CDC", url `https://www.cdc.gov/<term>/index.html`, and the letter-spaced upper-cased term followed by " - CDC" as title |
| ConditionLinks.TermPages | app/condition_links.py:274-292 | one or two pages: the MedlinePlus page first, a second (CDC) page iff the term is on the CDC list |
| ConditionLinks.FluGetsCdcPage | app/condition_links.py:282-292 | with the service's CDC list, "flu" gets its MedlinePlus page and then its CDC page |
| ConditionLinks.MigraineGetsNoCdcPage | app/condition_links.py:282-292 | with the service's CDC list, "migraine" gets only its MedlinePlus page |
| ConditionLinks.CollectPages | app/condition_links.py:270-292 | the loop over the recognised conditions appends, condition by condition, each one's MedlinePlus page and then its CDC page iff it is on the CDC list (`PagesFor`) |
| ConditionLinks.FindConditionPages | app/condition_links.py:266-294 | no pages when no term matches; otherwise the matched term's MedlinePlus page, then its CDC page iff it is on the CDC list |
| ConditionLinks.ExtractSymptomsFromPages | app/condition_links.py:296-298 | always the empty list |
| Rag.DecodedObjectsAppend | app/rag.py:23-28 | the line loop is compositional: the records of two runs of lines are the records of each, in order |
| Rag.MalformedLineSkipped | app/rag.py:24-28 | an unparsable line is skipped without aborting, and the lines around it keep their order |
| Rag.CorpusItems | app/rag.py:32-36 | the items are those of `medlineplus.jsonl` followed by those of `cdc.jsonl` |
| Rag.Collection | app/rag.py:37-50 | never empty; exactly the sentinel document when nothing loads; otherwise one document per item, in order, with a missing text as "" and missing metadata as {} |
| Rag.Retriever.LoadJsonl | app/rag.py:18-29 | the decoded objects of the file's lines in order; nothing for a missing file. This is the corrected loader: a line that decodes to a non-object is skipped, where the code as written fails (`Rag.LoadAsWritten`). |
| Rag.Retriever.Load | app/rag.py:31-52 | the sentinel document and its text when nothing loads; otherwise every item appended as a document and as its text; the texts are encoded; row alignment is kept. This is the corrected loader: a line that decodes to a non-object is skipped, where the code as written fails (`Rag.LoadAsWritten`). |
| Rag.Retriever.constructor | app/rag.py:11-16 | a new retriever is valid (aligned, non-empty, encoded) and holds exactly the collection of the store. This is the corrected loader: a line that decodes to a non-object is skipped, where the code as written fails (`Rag.LoadAsWritten`). |
| Rag.Retriever.Reload | app/rag.py:54-56 | the state after reloading equals a fresh construction over the same files, so nothing is appended twice. This is the corrected loader: a line that decodes to a non-object is skipped, where the code as written fails (`Rag.LoadAsWritten`). |
| Rag.InsertByScoreMembers | app/rag.py:63 | inserting an index into a ranking adds exactly that index |
| Rag.InsertByScoreOrdered | app/rag.py:63 | insertion keeps the ranking in non-increasing score order |
| Rag.InsertByScoreDistinct | app/rag.py:63 | insertion of a new index keeps the ranking free of repeats |
| Rag.Rank | app/rag.py:63 | `argsort(-sims)` over the first n documents: a permutation of 0..n-1 in non-increasing score order |
| Rag.SliceLen | app/rag.py:63 | the length of `[:k]` on a list of n elements, including negative k, never more than n |
| Rag.TopK | app/rag.py:63 | the selection has the slice's length, distinct indices, non-increasing scores, and scores at least those of every omitted index |
| Rag.TopKDominates | app/rag.py:62-63 | every index in a prefix of the ranking scores at least as high as every index left out |
| Rag.TopKAllWhenLarge | app/rag.py:63 | with k at least the collection size, every document is returned |
| Rag.TopKNegative | app/rag.py:63 | a negative k drops the last abs(k) ranked indices |
| Rag.Retriever.Retrieve | app/rag.py:58-64 | nothing before encoding or without texts; otherwise `min(k, N)` documents (slice length for negative k), the documents of an admissible top-k ranking |
| Rag.RowAlignedSnoc | app/rag.py:47-50 | appending a document and its text keeps `doc_texts[i] == docs[i].page_content` |
| Rag.SingleDocumentRetrieved | app/rag.py:58-64 | a one-document collection returns that document for any k of at least 1 |
| Rag.EmptyCorpusRetrievesSetup | app/rag.py:37-45 | with an empty corpus every retrieval returns the sentinel document |
| Rag.ContextPart | app/rag.py:71-74 | a part is laid out as `[title](source) :: text`: '[' , then the title (default "Source") at position 1, then `](source) :: ` right after it, then the text to the end, and nothing else |
| Rag.FormatContext | app/rag.py:68-75 | empty input gives "", and one document gives its single `[title](source) :: text` part |
| Rag.FormatContextConcat | app/rag.py:75 | parts are joined by the delimiter: formatting two runs is formatting each, separated by "\n\n---\n\n" |
| Rag.FormatContextMentions | app/rag.py:70-74 | each document's title (default "Source"), source (default "") and text occur in the context |
| Rag.Citation | app/rag.py:82-88 | a document without a source is cited by its title alone; one with a source is cited as `[title](source)`: '[' , the title at position 1, then `](source)`, and nothing else; the title (default "Source") and the source always occur in the citation |
| Rag.Citations | app/rag.py:80-88 | only the first two documents are cited, in order: entry i is the citation of document i |
| Rag.CitationsJoined | app/rag.py:95 | the citations are one citation alone or the first two joined by ", " |
| Rag.SynthesizeAnswer | app/rag.py:77-96 | the fixed body, then "Sources: " and "N/A" with no documents, one citation with one, the first two joined by ", " otherwise |
| Rag.AnswerUsesFirstTwoOnly | app/rag.py:77-96 | the answer depends only on the first two documents, not on the query or the prompt |
| Rag.FluCorpusLoads | app/rag.py:31-52 | a store holding only the flu record loads as exactly the flu document |
| Rag.FluScenario | app/rag.py:58-75 | retrieving one passage from the flu corpus yields the flu page, and its context names the title and the link |
| Rag.LoadAsWritten | app/rag.py:18-52 | the loader as written: when it succeeds the collection is never empty |
| Rag.LoadAsWrittenAgrees | app/rag.py:18-52 | when every decoded line is an object, the loader as written and the corrected loader agree |
| Rag.NonObjectLineAbortsLoad | app/rag.py:25-26 | one example: a valid record followed by a `null` line makes the loader as written fail, while the corrected loader keeps the record |
| Rag.NonObjectLineSkipped | app/rag.py:18-29 | in the corrected loader, a line that decodes to a non-object contributes nothing, for any lines around it |
| Rag.ValuesToDocumentsFails | app/rag.py:47-50 | the `d.get` loop as written fails exactly when one of the decoded values is not an object |
| Rag.NonObjectLineFailsLoad | app/rag.py:18-52 | the loader as written fails exactly when some line of either corpus file decodes to a non-object |
| Common.ChunkRecords | data_ingest/common.py:17-24 | one record per chunk |
| Common.ChunkRecordsNumbered | data_ingest/common.py:18-24 | one record per chunk in chunk order; record i holds chunk i, number i, and the given source and title |
| Common.ChunkKeysDistinct | data_ingest/common.py:18-23 | within one call the pairs (source, chunk_id) are pairwise distinct |
| Common.ChunkText | data_ingest/common.py:14-25 | the loop yields exactly the records of the splitter's chunks, each numbered by position under the given source and title |
| Common.CollapseNewlines | data_ingest/common.py:12 | `re.sub(r"\n{2,}", "\n", s)` never lengthens the text and keeps its first character |
| Common.CollapseAroundChar | data_ingest/common.py:12 | a character other than a newline is kept, and the substitution works on the text before it and the text after it separately |
| Common.NewlineRunCollapses | data_ingest/common.py:12 | a run of one or more newlines becomes a single newline |
| Common.CollapseLeavesNoDoubleNewline | data_ingest/common.py:12 | after the substitution no two newlines are adjacent |
| Common.CollapseKeepsClean | data_ingest/common.py:12 | text without adjacent newlines is left unchanged |
| Common.CollapseIdempotent | data_ingest/common.py:12 | collapsing twice equals collapsing once |
| Common.CleanHtml | data_ingest/common.py:10-12 | the cleaned text has no two adjacent newlines and no whitespace at either end |
| Common.CleanHtmlTrimsCollapsed | data_ingest/common.py:10-12 | the cleaned text is the collapsed extracted text less whitespace at its two ends, and nothing else is removed |
| SearchAndIngest.NormalizeUrl | data_ingest/search_and_ingest.py:31-35 | the normalised URL is never longer than the URL and holds only characters of the URL |
| SearchAndIngest.StripFragment | data_ingest/search_and_ingest.py:33 | the URL changes exactly when `#.*$` matches, gets no longer, and gains no character |
| SearchAndIngest.StripUtm | data_ingest/search_and_ingest.py:34 | the `utm_` removal never lengthens the text |
| SearchAndIngest.FirstFragment | data_ingest/search_and_ingest.py:33 | the first position where `#.*$` matches, or none |
| SearchAndIngest.StripFragmentWithoutNewline | data_ingest/search_and_ingest.py:33 | for a URL without newlines the fragment removal leaves no '#' |
| SearchAndIngest.NormalizeUrlDropsFragment | data_ingest/search_and_ingest.py:31-35 | a normalised URL without newlines contains no '#' |
| SearchAndIngest.StripUtmKeepsCharacters | data_ingest/search_and_ingest.py:34 | the `utm_` removal adds no character |
| SearchAndIngest.StripUtmWithoutUtm | data_ingest/search_and_ingest.py:34 | text not containing "utm_" is unchanged by the removal |
| SearchAndIngest.NormalizeUrlKeepsCleanUrl | data_ingest/search_and_ingest.py:31-35 | a URL containing neither '#' nor "utm_" is returned unchanged |
| SearchAndIngest.UtmMatch | data_ingest/search_and_ingest.py:34 | a match of `[?&]utm_[^=&]+=[^&]+` spans at least eight characters (`?utm_k=v`) and stays inside the text |
| SearchAndIngest.UtmMatchParameter | data_ingest/search_and_ingest.py:34 | at a `?utm_k=v` or `&utm_k=v` parameter the pattern matches exactly that parameter |
| SearchAndIngest.UtmParameterRemoved | data_ingest/search_and_ingest.py:34 | such a parameter is removed and the rest of the text is processed as before |
| SearchAndIngest.StripUtmAppend | data_ingest/search_and_ingest.py:34 | the removal works parameter by parameter: it splits at every '&' boundary |
| SearchAndIngest.StripUtmPlainPrefix | data_ingest/search_and_ingest.py:34 | the text before the first '?' or '&' is kept unchanged |
| SearchAndIngest.StripUtmKeepsOtherParameter | data_ingest/search_and_ingest.py:34 | a parameter led by '?' or '&' whose name does not start with "utm_" is kept |
| SearchAndIngest.StripFragmentBeforeHash | data_ingest/search_and_ingest.py:33 | everything from the first '#' on is removed |
| SearchAndIngest.StripFragmentWithoutHash | data_ingest/search_and_ingest.py:33 | a URL without '#' is unchanged by the fragment removal |
| SearchAndIngest.LeadingUtmParameterTakesQuestionMark | data_ingest/search_and_ingest.py:31-35 | a leading `?utm_k=v` is removed together with its '?', so `path?utm_k=v&other` becomes `path&other` |
| SearchAndIngest.FilterDomain | data_ingest/search_and_ingest.py:37-38 | a passing URL is at least as long as "http://" and as the domain |
| SearchAndIngest.DomainAnywherePasses | data_ingest/search_and_ingest.py:37-38 | the domain is found anywhere in the URL, not only in the host |
| SearchAndIngest.FilterDomainPiece | data_ingest/search_and_ingest.py:38 | a URL that passes for a domain passes for every piece of that domain |
| SearchAndIngest.CleanKeywords | data_ingest/search_and_ingest.py:56 | every kept keyword is trimmed and non-empty, and there are no more of them than entries |
| SearchAndIngest.CleanKeywordsHead | data_ingest/search_and_ingest.py:56 | the first keyword is kept, stripped, in front of the cleaned rest iff it is present and its stripped form is non-empty |
| SearchAndIngest.CleanKeywordsMembers | data_ingest/search_and_ingest.py:56 | the kept keywords are exactly the stripped forms of the present entries whose stripped form is non-empty |
| SearchAndIngest.CleanOneKeyword | data_ingest/search_and_ingest.py:56 | a single entry is dropped when missing or blank, and kept as its `strip()` otherwise |
| SearchAndIngest.CleanKeywordsAppend | data_ingest/search_and_ingest.py:56 | cleaning keeps the keywords' order |
| SearchAndIngest.ResultLink | data_ingest/search_and_ingest.py:64 | `r.get("href") or r.get("link") or ""`: the href when it is non-empty, else the link when non-empty, else "" |
| SearchAndIngest.AcceptedUrlsPass | data_ingest/search_and_ingest.py:64-66 | every accepted link is non-empty and passes the domain filter |
| SearchAndIngest.CandidatesPass | data_ingest/search_and_ingest.py:60-66 | the same holds for a site's links over all keywords |
| SearchAndIngest.InsertSortedKeepsOrder | data_ingest/search_and_ingest.py:66 | `set.add` on the sorted form keeps it strictly sorted and adds exactly the link |
| SearchAndIngest.AddUrlsSorted | data_ingest/search_and_ingest.py:63-66 | adding links one by one leaves a strictly sorted list holding exactly the old and new links |
| SearchAndIngest.AddUrlsAppend | data_ingest/search_and_ingest.py:60-66 | adding two runs of links is adding the first, then the second |
| SearchAndIngest.SortedListsUnique | data_ingest/search_and_ingest.py:73 | two strictly sorted lists with the same members are equal, so `sorted(set)` is determined by the set |
| SearchAndIngest.SiteUrlsCollected | data_ingest/search_and_ingest.py:57-66 | a site's collected links are sorted, are exactly its accepted candidates, and each is non-empty and passes the filter |
| SearchAndIngest.AddAcceptedStep | data_ingest/search_and_ingest.py:63-66 | one more result adds its normalised link iff it is non-empty and passes the filter |
| SearchAndIngest.SiteUrlsStep | data_ingest/search_and_ingest.py:60-66 | one more keyword adds that keyword's accepted links to the site's set |
| SearchAndIngest.AddAccepted | data_ingest/search_and_ingest.py:63-66 | the innermost loop adds exactly the accepted normalised links of one search |
| SearchAndIngest.CollectUrls | data_ingest/search_and_ingest.py:57-66 | after the search loops each site holds exactly the set of its accepted links over all keywords |
| SearchAndIngest.SiteRecordsSnoc | data_ingest/search_and_ingest.py:73-82 | each link in turn contributes its chunk records, or nothing when its fetch fails |
| SearchAndIngest.IngestSite | data_ingest/search_and_ingest.py:72-82 | the fetch loop yields the records of every link in sorted order, skipping failed fetches without aborting |
| SearchAndIngest.SiteRecordSources | data_ingest/search_and_ingest.py:73-78 | every record's source is one of the site's links |
| SearchAndIngest.UrlRecordsOfOneSource | data_ingest/search_and_ingest.py:75-78 | the records of one link all carry that link as source and have distinct keys |
| SearchAndIngest.KeysDistinctAppend | data_ingest/search_and_ingest.py:78 | extending with another link's records keeps the (source, chunk_id) keys distinct |
| SearchAndIngest.SiteRecordKeysDistinct | data_ingest/search_and_ingest.py:73-78 | over distinct links, no two records of a site share (source, chunk_id) |
| SearchAndIngest.WrittenFilesKeysDistinct | data_ingest/search_and_ingest.py:69-87 | no written file repeats a (source, chunk_id) key |
| SearchAndIngest.AllSiteDocs | data_ingest/search_and_ingest.py:70 | one record list per site |
| SearchAndIngest.WriteSitesFiles | data_ingest/search_and_ingest.py:84-91 | a site with records has its file replaced by those records' lines; a site without records leaves its file as it was; no other file changes |
| SearchAndIngest.TotalRecordsBothSites | data_ingest/search_and_ingest.py:69-93 | the count returned is the sum of the records written for both sites |
| SearchAndIngest.IngestFromKeywords | data_ingest/search_and_ingest.py:51-93 | the count and the written files are those of the cleaned keywords' collected, fetched and chunked links |
| SearchAndIngest.RecordLinesDecode | data_ingest/search_and_ingest.py:86-87 | every written line decodes to an object with the record's text, title, source and number |
| SearchAndIngest.WrittenFileLoadsBack | data_ingest/search_and_ingest.py:84-87 | a written file loads back into the retriever as one record per written chunk, in order |

## Left out

- Embeddings and similarity. The sentence-transformer model, `normalize_embeddings` and
  `np.dot` are left out. Retrieval takes one score per document as input, and
  `doc_embs` is modelled only by whether it is set and how many rows it has.
- Rag.Retriever.Retrieve and Rag.Rank: the tie order of `np.argsort` is not promised.
  The contracts state what holds for any order among equal scores: a permutation,
  non-increasing scores and dominance.
- File and JSON I/O. A file is its sequence of lines. Each line is either malformed
  (`json.loads` raises) or a decoded value, and a decoded object carries an optional
  text and optional metadata. The file encoding and the JSON text format are not
  modelled.
- Rag.FormatContext and Rag.Citation: metadata is modelled as the three keys the
  service reads (title, source, chunk_id). Other keys are not kept, and a key present
  with a null value is not told apart from a missing one.
- Concurrency: the module-level singleton and the lack of locking in `reload`.
- The HTTP API, the request and response schemas, the web UI, the evaluation script,
  and the two standalone ingestion scripts. They are glue around the functions above.
- `ddg_site_search` and `fetch_html`, including the `<title>` extraction, are the
  `search` and `fetch` parameters of `Env`. A failing fetch, or any exception in the
  fetch, clean and chunk step, is a `None` from `fetch`. The `[warn]`/`[ok]`/`[info]`
  output and `time.sleep(sleep_s)` are left out, and so is the `sleep_s` parameter.
- BeautifulSoup parsing and tag removal in `clean_html` is the `getText` parameter.
  The text splitter is `split`, and the md5 hex digest is `digest`.
- Character classes cover ASCII only: `lower`, `title`, `strip` whitespace and
  `\w`/`\b` are not extended to Unicode letters and spaces.
- The literal disease table is not copied: the matcher takes any ordered table. In
  the shipped table the repeated key "osteoporosis" keeps its first position, as a
  Python dict literal does.
- SearchAndIngest.IngestFromKeywords: the `search` parameter is total. In the code a
  raising `ddg_site_search` (network failure, rate limit) is not caught and ends the
  run before step 2, with no file written and no count returned; the model does not
  have that path.
- Rag.Retriever.LoadJsonl, Rag.Retriever.Load, Rag.Retriever.constructor and
  Rag.Retriever.Reload run the corrected loader: a line that decodes to a JSON value
  other than an object is skipped. The code as written fails there; that behaviour is
  modelled by `Rag.LoadAsWritten` and characterised by `Rag.NonObjectLineFailsLoad`.
- Rag.LoadAsWritten, Rag.Collection: a record's text and metadata are modelled as a
  string or missing, and metadata as an object or missing. A key present with a `null`
  or otherwise ill-typed value is not modelled: `d.get("page_content", "")` returns
  that value rather than the default, and the code passes it on to `Document` and
  `doc_texts` outside the `try`.
- ConditionLinks.FindConditionPages: the CDC list is a parameter.
  `ConditionLinks.CdcDiseases` holds the list the service passes.
- The `__main__` command line of the ingestion script.

## Findings

| source | as written | input that shows it | evidently intended | confidence | as-written member | corrected member |
|---|---|---|---|---|---|---|
| app/rag.py:25-49 | `_load_jsonl` keeps any value that `json.loads` accepts, and `_load` then calls `d.get`, which fails outside the `try` for a value that is not an object | a corpus line `null` or `[]` after a valid record: constructing the retriever raises, and the whole corpus is lost | lines that are not JSON objects are skipped like unparsable lines | medium; not executed | Rag.NonObjectLineFailsLoad | Rag.Collection |
