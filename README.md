# Film search engine: a Dafny model of `SearchEngine`

This project models the core of the film search service: the `SearchEngine` class in
`MarketingCodingAssignment/MarketingCodingAssignment/Services/SearchEngine.cs`. It
covers:

- **Ingestion.** `PopulateIndexFromCsv` and `PopulateIndex` turn CSV rows into film
  records and Lucene documents. Runtime and revenue use `int.TryParse` /
  `long.TryParse` with default 0. The release date is an optional `yyyyMMdd` key, and
  the combined text is analyzed. `DeleteIndex` empties the index.
- **Query building.** `GetLuceneQuery` translates a search request into "match all
  documents" or a Boolean query whose every clause is required. There is one term
  clause per analyzer token, plus clauses for the runtime range, the vote-average range
  (up to 10.0) and the release-date key range. The model also defines what such a
  query matches.
- **Searching.** `Search` collects at most 1000 ranked hits and cuts out page
  `startPage` of size `rowsPerPage`. It reports the collector's total and reads every
  hit's stored fields back into a film.
- **Autocomplete.** `GetAutocompleteSuggestions` builds one prefix clause per
  space-separated word of the lower-cased prefix. It then walks the top 1000 hits and
  keeps each title that starts with the prefix (ignoring case) and is not yet listed.
  It stops once the list holds `maxSuggestions` titles.

Modules, one per file:

| module | file | contents |
|---|---|---|
| `Wrappers` | `wrappers.dfy` | `Option` |
| `Text` | `text.dfy` | `char.IsWhiteSpace`, `string.IsNullOrWhiteSpace`, ordinal string order, ASCII case mapping, `Split(' ')` with its inverse `Join` |
| `Numbers` | `numbers.dfy` | C# `int`/`long`, the unchecked 32-bit product, decimal text and `TryParse` |
| `Dates` | `dates.dfy` | `DateTime` dates, their `yyyyMMdd` key and `TryParseExact` of it |
| `Films` | `films.dfy` | CSV rows, `FilmLuceneRecord`, documents, and the engine object holding the index |
| `Queries` | `queries.dfy` | clauses, queries, `GetLuceneQuery` and its meaning |
| `Ranking` | `ranking.dfy` | what the model assumes of the searcher and `TopDocsCollector.GetTopDocs` |
| `Search` | `search.dfy` | pagination and `Search` |
| `Autocomplete` | `autocomplete.dfy` | `GetAutocompleteSuggestions` |

Modelling choices:

- **Analyzer.** `CustomAnalyzer` is a function parameter `analyze: string -> seq<Term>`.
  The same value is passed to ingestion and to `GetLuceneQuery`. This matches the code,
  which uses one analyzer class on both sides.
- **Ranking.** Lucene's scoring is not modelled. `Search` and autocomplete receive the
  searcher's hit list `ranked`, and their precondition `IsRanking` states what a
  `TopScoreDocCollector` guarantees about it:
  - every matching document appears exactly once, and nothing else does;
  - hits are ordered by descending score, with ties broken by ascending document number.
- **Index.** The index a `DirectoryReader` opens is a `seq<Document>` snapshot. The
  engine object holds that sequence as a field, which `PopulateIndex` appends to and
  `DeleteIndex` clears.

Where the system's written specification describes different behaviour, the model
follows the code:

- **Stop-word-only search.** A non-blank search string that analyzes to no token, with
  no bound, gives an empty Boolean query. That query matches nothing; it does not
  match everything (`Queries.StopWordsOnlyMatchNothing`).
- **Unparsable numbers.** A runtime or revenue that does not parse is stored as 0, not
  left absent. So a search bounded only by a runtime maximum finds such films
  (`Queries.UnparsedRuntimeWithinMaximum`). An unparsable release date does leave the
  field absent (`Queries.UnparsedDateNeverInDateRange`).
- **Reported count.** `RecordsCount` is Lucene's `TotalHits`: all matches, not capped
  at 1000. It is 0 when the requested page is empty (`Search.RecordsCountReported`).
- **Suggestion limit.** Autocomplete checks the limit only after appending a title. So
  `maxSuggestions <= 0` still yields one suggestion when any title qualifies
  (`Autocomplete.Limit`).
- **Deleting.** `DeleteIndex` deletes all documents of the one index in place.
- **Spell suggestions.** No spell-correction suggestions are produced. The
  `Suggestions` field of the search result is always empty.

## Model

| member | source | states |
|---|---|---|
| Text.Split | MarketingCodingAssignment/MarketingCodingAssignment/Services/SearchEngine.cs:242 | `Split(' ')` yields one more word than there are spaces (empty words kept) and no word contains a space |
| Text.JoinSplit | MarketingCodingAssignment/MarketingCodingAssignment/Services/SearchEngine.cs:242 | joining the split words with the separator gives back the original string |
| Text.SplitJoin | MarketingCodingAssignment/MarketingCodingAssignment/Services/SearchEngine.cs:242 | splitting the join of separator-free words gives back exactly those words |
| Text.LexAppend | MarketingCodingAssignment/MarketingCodingAssignment/Services/SearchEngine.cs:222 | ordinal order on concatenations with equal-length heads is decided by the heads unless they are equal, then by the tails |
| Numbers.Wrap32 | MarketingCodingAssignment/MarketingCodingAssignment/Services/SearchEngine.cs:156 | the unchecked `int` result is congruent to the true value modulo 2^32 and equals it when it fits |
| Numbers.ParseInteger | MarketingCodingAssignment/MarketingCodingAssignment/Services/SearchEngine.cs:72-74 | a successful `TryParse` lies within the range of the target type |
| Numbers.ParseShowInteger | MarketingCodingAssignment/MarketingCodingAssignment/Services/SearchEngine.cs:169-171 | parsing the decimal text of an integer gives that integer when it fits the range and fails otherwise |
| Dates.DateKey | MarketingCodingAssignment/MarketingCodingAssignment/Services/SearchEngine.cs:112 | a date's `yyyyMMdd` key is exactly eight decimal digits |
| Dates.KeyRoundTrip | MarketingCodingAssignment/MarketingCodingAssignment/Services/SearchEngine.cs:173 | `TryParseExact` of a date's stored key gives back that date |
| Dates.ParsedKeyIsKey | MarketingCodingAssignment/MarketingCodingAssignment/Services/SearchEngine.cs:173 | every string that `TryParseExact` accepts is the key of the date it yields |
| Dates.DigitsOrder | MarketingCodingAssignment/MarketingCodingAssignment/Services/SearchEngine.cs:220-222 | zero-padded numerals of one width compare ordinally exactly as the numbers compare |
| Dates.KeyOrder | MarketingCodingAssignment/MarketingCodingAssignment/Services/SearchEngine.cs:220-222 | one date is on or before another exactly when its key is ordinally at most the other's key |
| Films.StoredRoundTrip | MarketingCodingAssignment/MarketingCodingAssignment/Services/SearchEngine.cs:163-175 | reading a document's stored fields back the way `Search` does gives exactly the film it was made from |
| Films.RuntimeFromText | MarketingCodingAssignment/MarketingCodingAssignment/Services/SearchEngine.cs:72 | a runtime cell holding the text of `n` converts to `n` if it fits an `int` and to 0 otherwise |
| Films.RevenueFromText | MarketingCodingAssignment/MarketingCodingAssignment/Services/SearchEngine.cs:74 | a revenue cell holding the text of `n` converts to `n` if it fits a `long` and to 0 otherwise |
| Films.ConversionDefaults | MarketingCodingAssignment/MarketingCodingAssignment/Services/SearchEngine.cs:67-77 | unparsable runtime, revenue and vote average become 0; the document has a `ReleaseDate` field exactly when the date parses, holding its key |
| Films.SearchEngine.PopulateIndex | MarketingCodingAssignment/MarketingCodingAssignment/Services/SearchEngine.cs:85-121 | the index afterwards is the old index followed by one document per film, in order |
| Films.SearchEngine.PopulateIndexFromCsv | MarketingCodingAssignment/MarketingCodingAssignment/Services/SearchEngine.cs:61-83 | the old documents stay in place and row `i` adds, as new document `i`, the document of its converted film |
| Films.SearchEngine.DeleteIndex | MarketingCodingAssignment/MarketingCodingAssignment/Services/SearchEngine.cs:123-132 | no document is left in the index |
| Queries.GetLuceneQuery | MarketingCodingAssignment/MarketingCodingAssignment/Services/SearchEngine.cs:187-233 | the query built is `QueryFor(req)`: the term clauses of the tokens then the bound clauses, or match-all for a blank string without bound clauses |
| Queries.MatchAllCondition | MarketingCodingAssignment/MarketingCodingAssignment/Services/SearchEngine.cs:225-229 | the query is match-all exactly when the string is null or blank and no bound is given, and then it matches every document |
| Queries.StopWordsOnlyMatchNothing | MarketingCodingAssignment/MarketingCodingAssignment/Services/SearchEngine.cs:191-232 | a non-blank string with no tokens and no bound gives the empty Boolean query, which matches no document |
| Queries.TermClausePerToken | MarketingCodingAssignment/MarketingCodingAssignment/Services/SearchEngine.cs:198-203 | clause `i` is the term clause of token `i`, and no clause after the tokens is a term clause |
| Queries.TermClausesConjunctive | MarketingCodingAssignment/MarketingCodingAssignment/Services/SearchEngine.cs:198-203 | a document passes all term clauses exactly when its combined text holds every token |
| Queries.RuntimeClausePresence | MarketingCodingAssignment/MarketingCodingAssignment/Services/SearchEngine.cs:208-212 | the runtime clause is present exactly when a runtime bound is given, and every runtime clause carries both bounds as given |
| Queries.VoteClausePresence | MarketingCodingAssignment/MarketingCodingAssignment/Services/SearchEngine.cs:213-217 | a vote clause is present exactly when a minimum is given, and every vote clause spans that minimum to 10.0 |
| Queries.DateClausePresence | MarketingCodingAssignment/MarketingCodingAssignment/Services/SearchEngine.cs:218-224 | the date clause is present exactly when a date bound is given, and it carries the bounds' keys (null for a missing bound) |
| Queries.DateClauseMeaning | MarketingCodingAssignment/MarketingCodingAssignment/Services/SearchEngine.cs:218-224 | on a film's document the date clause holds exactly when the film has a release date within the given bounds, compared as dates |
| Queries.RangeClausesMeaning | MarketingCodingAssignment/MarketingCodingAssignment/Services/SearchEngine.cs:208-224 | a film's document passes all bound clauses exactly when its runtime, vote average and release date lie within the bounds given |
| Queries.SearchSemantics | MarketingCodingAssignment/MarketingCodingAssignment/Services/SearchEngine.cs:187-233 | the query matches a film's document exactly when the film is `Selected`: holds every token and lies within every bound given, or the query is match-all |
| Queries.UnparsedDateNeverInDateRange | MarketingCodingAssignment/MarketingCodingAssignment/Services/SearchEngine.cs:76 | a row whose release date does not parse is never found by a search with a date bound |
| Queries.UnparsedRuntimeWithinMaximum | MarketingCodingAssignment/MarketingCodingAssignment/Services/SearchEngine.cs:72 | a row whose runtime does not parse is found by a blank search bounded only by a non-negative runtime maximum |
| Ranking.CollectTopDocs | MarketingCodingAssignment/MarketingCodingAssignment/Services/SearchEngine.cs:157 | the collected window never exceeds the collector's capacity or the match count, and is non-empty only for a positive count it does not exceed |
| Search.PageIsSlice | MarketingCodingAssignment/MarketingCodingAssignment/Services/SearchEngine.cs:149-158 | a page is the slice of ranked hits from `startPage*rowsPerPage`, at most `rowsPerPage` long, within the first 1000; empty for a negative page, a non-positive size or a start past the end |
| Search.RecordsCountReported | MarketingCodingAssignment/MarketingCodingAssignment/Services/SearchEngine.cs:157 | the total is the number of all matches when the page holds hits, and 0 when it is empty |
| Search.PagesArePrefix | MarketingCodingAssignment/MarketingCodingAssignment/Services/SearchEngine.cs:149-158 | the first `n` pages of size `s`, concatenated, are the first `min(n*s, window)` ranked hits |
| Search.PagesCoverWindow | MarketingCodingAssignment/MarketingCodingAssignment/Services/SearchEngine.cs:149-158 | pages `0..ceil(W/s)-1` together are exactly the `W = min(N, 1000)` best hits, in rank order |
| Search.PageHit | MarketingCodingAssignment/MarketingCodingAssignment/Services/SearchEngine.cs:156-158 | entry `k` of a page is ranked hit `startPage*rowsPerPage + k` |
| Search.PageHitsMatch | MarketingCodingAssignment/MarketingCodingAssignment/Services/SearchEngine.cs:154-158 | every hit of a page is a document of the index that the query matches |
| Search.ReadHits | MarketingCodingAssignment/MarketingCodingAssignment/Services/SearchEngine.cs:160-177 | one film per hit, in hit order, each the stored-field reading of the hit's document with the hit's score |
| Search.Search | MarketingCodingAssignment/MarketingCodingAssignment/Services/SearchEngine.cs:140-186 | the films are the page's hits read back, each a matching index document with its score; the count is `TotalHits`; no spelling suggestions |
| Search.StartIndexOverflows | MarketingCodingAssignment/MarketingCodingAssignment/Services/SearchEngine.cs:156 | as written, page 65536 of size 65536 starts at 0 and shows the first hit of a one-hit result, although that page lies past the end |
| Search.PageBeyondEndIsEmpty | MarketingCodingAssignment/MarketingCodingAssignment/Services/SearchEngine.cs:156-157 | with the start computed without overflow, every page starting at or past the window is empty |
| Autocomplete.BuildPrefixQuery | MarketingCodingAssignment/MarketingCodingAssignment/Services/SearchEngine.cs:242-250 | the query built is the conjunction of one prefix clause per word of the lower-cased, space-split prefix |
| Autocomplete.PrefixQueryShape | MarketingCodingAssignment/MarketingCodingAssignment/Services/SearchEngine.cs:242-250 | there is one clause per word, one more than the prefix has spaces; the words contain no space and join back to the lower-cased prefix |
| Autocomplete.PrefixQueryMeaning | MarketingCodingAssignment/MarketingCodingAssignment/Services/SearchEngine.cs:245-250 | a document matches exactly when every word is a prefix of some term of its combined text |
| Autocomplete.SuggestionsCharacterized | MarketingCodingAssignment/MarketingCodingAssignment/Services/SearchEngine.cs:259-270 | the unbounded walk lists exactly the titles starting with the prefix ignoring case, each once, in the order of their first occurrence |
| Autocomplete.SuggestionsGrow | MarketingCodingAssignment/MarketingCodingAssignment/Services/SearchEngine.cs:259-270 | walking part of the titles gives a prefix of what walking all of them gives |
| Autocomplete.KeptWhenFull | MarketingCodingAssignment/MarketingCodingAssignment/Services/SearchEngine.cs:264-268 | when the walk reaches the limit after `n` titles, its list is the first `limit` suggestions of the whole walk |
| Autocomplete.SuggestedProperties | MarketingCodingAssignment/MarketingCodingAssignment/Services/SearchEngine.cs:259-270 | every kept prefix of the suggestions starts with the prefix, has no repeats, keeps first-occurrence order and names matching documents |
| Autocomplete.CollectSuggestions | MarketingCodingAssignment/MarketingCodingAssignment/Services/SearchEngine.cs:259-270 | the loop returns the first `max(1, maxSuggestions)` suggestions of the full walk over the hits' titles |
| Autocomplete.GetAutocompleteSuggestions | MarketingCodingAssignment/MarketingCodingAssignment/Services/SearchEngine.cs:235-273 | at most `max(1, maxSuggestions)` distinct titles, each starting with the prefix ignoring case, in rank order of first occurrence, each the title of a document the prefix query matches |

## Left out

- File system and I/O are not modelled: `ReadFilmsFromCsv` (lines 39-58) reading the CSV file, the constructor creating the index directory (lines 25-37), and opening directories, readers and writers. `PopulateIndexFromCsv` takes the CSV rows as a parameter.
- `IndexExists` and the lazy `PopulateIndexFromCsv` at the start of `Search` (lines 134-144) are not modelled: `Search` works on the index snapshot it is given.
- Films.SearchEngine.constructor: starts from an empty index; an index left in the directory by an earlier run is not modelled.
- Lucene's analysis is not modelled. `CustomAnalyzer` (in `Models/CustomAnalyzer.cs`) is an uninterpreted function parameter.
- Lucene's scoring is not modelled. The ranked hit list is an input whose ordering and completeness are the precondition `IsRanking`.
- `BooleanQuery`'s limit of 1024 clauses, and the exception it throws beyond that, are not modelled.
- A null `prefix` makes autocomplete throw; the model's strings are never null.
- Floating point is not modelled. Vote averages are mathematical reals, and `double.TryParse` / `DateTime.TryParse`, which depend on the current culture, are the parameters in `Culture`.
- Films.FromStored: the stored vote average is read back as the value itself; formatting and parsing a `double` is not modelled.
- The time of day of a parsed `DateTime` is not modelled; only the date reaches the key.
- Case mapping is ASCII only: `ToLowerInvariant` and `OrdinalIgnoreCase` on non-ASCII letters are not modelled.
- Numbers.ParseInteger: `TryParse` accepting trailing NUL characters is not modelled.
- The web layer (`HomeController.cs`, with its index reload, and `wwwroot/js/scripts.js`) and `SearchResultsViewModel.cs` beyond its three fields are not part of this model.
- Search.Search: the start of the page is the product computed without wrap-around; the source's 32-bit overflow is listed under Findings.

## Findings

| source | as written | input that shows it | evidently intended | confidence | as-written member | corrected member |
|---|---|---|---|---|---|---|
| MarketingCodingAssignment/MarketingCodingAssignment/Services/SearchEngine.cs:156 | `startIndex` is the `int` product `startPage * rowsPerPage`, which wraps modulo 2^32 | `startPage = 65536`, `rowsPerPage = 65536` over one hit: the start wraps to 0 and the page shows the first hit | a page past the end of the results is empty | high; not executed | Search.StartIndexOverflows | Search.PageBeyondEndIsEmpty |
