/**
 * `Search`: build the query, collect at most 1000 ranked hits, cut out the requested
 * page and read each hit's stored fields back into a film record.
 */
module Search {
  import opened Numbers
  import opened Films
  import opened Queries
  import opened Ranking

  /** The collector's capacity: at most this many hits are ever ranked. */
  const HITS_LIMIT: nat := 1000

  /** A film of the result page with the score of its hit. */
  datatype FoundFilm = FoundFilm(film: FilmRecord, score: real)

  /** `SearchResultsViewModel`; `Suggestions` is never filled in. */
  datatype SearchResults = SearchResults(recordsCount: int, films: seq<FoundFilm>, suggestions: seq<string>)

  /** The index of the first hit of a page, as the source's `int` product computes it: modulo 2^32. */
  function StartIndexAsWritten(startPage: Int32, rowsPerPage: Int32): Int32 {
    Wrap32(startPage * rowsPerPage)
  }

  /** The index of the first hit of a page, computed without overflow. */
  function StartIndex(startPage: int, rowsPerPage: int): int {
    startPage * rowsPerPage
  }

  function TopDocsOf(ranked: seq<ScoreDoc>, startPage: int, rowsPerPage: int): TopDocs {
    CollectTopDocs(ranked, HITS_LIMIT, StartIndex(startPage, rowsPerPage), rowsPerPage)
  }

  /** The hits shown on page `startPage` of size `rowsPerPage`. */
  function PageOf(ranked: seq<ScoreDoc>, startPage: int, rowsPerPage: int): seq<ScoreDoc> {
    TopDocsOf(ranked, startPage, rowsPerPage).scoreDocs
  }

  /** The number of hits that can ever be paged through: the matches, capped at the collector's capacity. */
  function Window(ranked: seq<ScoreDoc>): nat {
    Min(|ranked|, HITS_LIMIT)
  }

  /**
   * A page is the slice of the ranked hits that starts at `startPage * rowsPerPage`
   * and holds at most `rowsPerPage` of the first `min(N, 1000)` hits; a negative page,
   * a non-positive size or a start at or past the end of those hits gives an empty page.
   */
  lemma PageIsSlice(ranked: seq<ScoreDoc>, startPage: int, rowsPerPage: int)
    ensures var page, start := PageOf(ranked, startPage, rowsPerPage), StartIndex(startPage, rowsPerPage);
      if startPage < 0 || rowsPerPage <= 0 || start >= Window(ranked) then page == []
      else page == ranked[start .. Min(Window(ranked), start + rowsPerPage)]
  {
    var start := StartIndex(startPage, rowsPerPage);
    if startPage < 0 && rowsPerPage > 0 {
      assert start < 0;
    }
  }

  /** The reported count: every match (not capped at 1000) when the page holds hits, and 0 when it is empty. */
  lemma RecordsCountReported(ranked: seq<ScoreDoc>, startPage: int, rowsPerPage: int)
    ensures TopDocsOf(ranked, startPage, rowsPerPage).totalHits ==
            if PageOf(ranked, startPage, rowsPerPage) == [] then 0 else |ranked|
  {
  }

  /** Pages `0 .. n-1` of size `s`, one after the other. */
  function Pages(ranked: seq<ScoreDoc>, s: int, n: nat): seq<ScoreDoc> {
    if n == 0 then [] else Pages(ranked, s, n - 1) + PageOf(ranked, n - 1, s)
  }

  /** The first `n` pages of size `s` are, in order, the first `min(n*s, window)` ranked hits. */
  lemma {:induction false} PagesArePrefix(ranked: seq<ScoreDoc>, s: int, n: nat)
    requires s > 0
    ensures Pages(ranked, s, n) == ranked[..Min(Window(ranked), n * s)]
  {
    if n > 0 {
      PagesArePrefix(ranked, s, n - 1);
      PageIsSlice(ranked, n - 1, s);
      assert (n - 1) * s + s == n * s;
      var w := Window(ranked);
      if (n - 1) * s < w {
        assert ranked[..(n - 1) * s] + ranked[(n - 1) * s .. Min(w, n * s)] == ranked[..Min(w, n * s)];
      }
    }
  }

  /**
   * Pagination completeness: pages `0 .. ceil(W/s)-1` of size `s`, put together, are
   * exactly the `W = min(N, 1000)` best hits in rank order, whether or not `s` divides `W`.
   */
  lemma PagesCoverWindow(ranked: seq<ScoreDoc>, s: int)
    requires s > 0
    ensures Pages(ranked, s, (Window(ranked) + s - 1) / s) == ranked[..Window(ranked)]
  {
    var w := Window(ranked);
    var n := (w + s - 1) / s;
    PagesArePrefix(ranked, s, n);
    CeilingCovers(w, s);
  }

  lemma CeilingCovers(w: nat, s: int)
    requires s > 0
    ensures (w + s - 1) / s * s >= w
  {
    var n, r := (w + s - 1) / s, (w + s - 1) % s;
    assert w + s - 1 == n * s + r && r < s;
  }

  /** Page `p` holds ranked hit `p*s + k` as its entry `k`. */
  lemma PageHit(ranked: seq<ScoreDoc>, startPage: int, rowsPerPage: int, k: int)
    requires 0 <= k < |PageOf(ranked, startPage, rowsPerPage)|
    ensures 0 <= StartIndex(startPage, rowsPerPage) + k < |ranked|
    ensures PageOf(ranked, startPage, rowsPerPage)[k] == ranked[StartIndex(startPage, rowsPerPage) + k]
  {
  }

  /** Every hit of a page is a document of the index that the query matches. */
  lemma PageHitsMatch(index: seq<Document>, q: Query, ranked: seq<ScoreDoc>, startPage: int, rowsPerPage: int)
    requires IsRanking(index, q, ranked)
    ensures var page := PageOf(ranked, startPage, rowsPerPage);
      forall k | 0 <= k < |page| :: page[k].doc < |index| && Matches(index[page[k].doc], q)
  {
    var page := PageOf(ranked, startPage, rowsPerPage);
    forall k | 0 <= k < |page| ensures page[k].doc < |index| && Matches(index[page[k].doc], q) {
      PageHit(ranked, startPage, rowsPerPage, k);
    }
  }

  /**
   * The loop of `Search` over the page's hits: each becomes the film that `read`
   * (reading the stored fields back, `FromStored`) gives for its document, with its score.
   */
  method ReadHits(index: seq<Document>, hits: seq<ScoreDoc>, read: Document -> FilmRecord) returns (films: seq<FoundFilm>)
    requires forall k | 0 <= k < |hits| :: hits[k].doc < |index|
    ensures |films| == |hits|
    ensures forall k | 0 <= k < |hits| :: films[k] == FoundFilm(read(index[hits[k].doc]), hits[k].score)
  {
    films := [];
    for i := 0 to |hits|
      invariant |films| == i
      invariant forall k | 0 <= k < i :: films[k] == FoundFilm(read(index[hits[k].doc]), hits[k].score)
    {
      var hit := hits[i];
      var film := read(index[hit.doc]);
      films := films + [FoundFilm(film, hit.score)];
    }
  }

  /**
   * `Search`, with the index snapshot the reader opens and the ranked hits the
   * searcher produces for the query passed in. Each hit of the page becomes the film
   * read back from its stored fields, with the hit's score.
   */
  method Search(index: seq<Document>, analyze: Analyzer, req: SearchRequest, ranked: seq<ScoreDoc>,
                startPage: Int32, rowsPerPage: Int32)
    returns (result: SearchResults)
    requires IsRanking(index, QueryFor(req, analyze), ranked)
    ensures var page := PageOf(ranked, startPage, rowsPerPage);
      && |result.films| == |page|
      && (forall k | 0 <= k < |page| ::
            && page[k].doc < |index|
            && Matches(index[page[k].doc], QueryFor(req, analyze))
            && result.films[k] == FoundFilm(FromStored(index[page[k].doc]), page[k].score))
    ensures result.recordsCount == if PageOf(ranked, startPage, rowsPerPage) == [] then 0 else |ranked|
    ensures result.suggestions == []
  {
    var query := GetLuceneQuery(req, analyze);
    var hits := TopDocsOf(ranked, startPage, rowsPerPage);
    var scoreDocs := hits.scoreDocs;
    PageHitsMatch(index, query, ranked, startPage, rowsPerPage);
    RecordsCountReported(ranked, startPage, rowsPerPage);
    var films := ReadHits(index, scoreDocs, FromStored);
    result := SearchResults(hits.totalHits, films, []);
  }

  /**
   * As the source computes it, the start index of page 65536 of size 65536 wraps to 0:
   * over a single hit that page shows the first hit instead of nothing.
   */
  lemma StartIndexOverflows(h: ScoreDoc)
    ensures StartIndexAsWritten(65536, 65536) == 0
    ensures CollectTopDocs([h], HITS_LIMIT, StartIndexAsWritten(65536, 65536), 65536).scoreDocs == [h]
    ensures PageOf([h], 65536, 65536) == []
  {
  }

  /** With the start computed without overflow, every page that starts at or past the window is empty. */
  lemma PageBeyondEndIsEmpty(ranked: seq<ScoreDoc>, startPage: int, rowsPerPage: int)
    requires startPage >= 0 && rowsPerPage > 0
    requires startPage * rowsPerPage >= Window(ranked)
    ensures PageOf(ranked, startPage, rowsPerPage) == []
  {
  }
}
