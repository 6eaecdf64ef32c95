/**
 * What this model assumes of Lucene's searcher and collector, which it does not
 * model: the ranked hit list of a query, and the window `TopDocsCollector.GetTopDocs`
 * cuts from it.
 */
module Ranking {
  import opened Films
  import opened Queries

  /** A hit: a document number in the index and its relevance score. */
  datatype ScoreDoc = ScoreDoc(doc: nat, score: real)

  /** `TopDocs`: the reported total and the hits of the requested window. */
  datatype TopDocs = TopDocs(totalHits: int, scoreDocs: seq<ScoreDoc>)

  /**
   * `ranked` lists every document of `index` that `q` matches, each exactly once and
   * nothing else, by descending score with ties broken by ascending document number:
   * the order in which a `TopScoreDocCollector` keeps them. Scores themselves are not modelled.
   */
  ghost predicate IsRanking(index: seq<Document>, q: Query, ranked: seq<ScoreDoc>) {
    && (forall k | 0 <= k < |ranked| :: ranked[k].doc < |index| && Matches(index[ranked[k].doc], q))
    && (forall j, k | 0 <= j < k < |ranked| ::
          && ranked[j].doc != ranked[k].doc
          && (ranked[j].score > ranked[k].score
              || (ranked[j].score == ranked[k].score && ranked[j].doc < ranked[k].doc)))
    && (forall d | 0 <= d < |index| && Matches(index[d], q) ::
          exists k | 0 <= k < |ranked| :: ranked[k].doc == d)
  }

  function Min(a: int, b: int): int { if a <= b then a else b }

  /**
   * A collector created for `numHits` hits, asked for `GetTopDocs(start, howMany)`:
   * it keeps the best `numHits` hits; a start outside them or a non-positive count
   * gives the empty result, whose total is 0; otherwise the window starting at
   * `start`, cut at `howMany` hits or at the end of the kept hits, together with the
   * number of all matching documents.
   */
  function CollectTopDocs(ranked: seq<ScoreDoc>, numHits: nat, start: int, howMany: int): (top: TopDocs)
    ensures |top.scoreDocs| <= Min(|ranked|, numHits)
    ensures top.scoreDocs != [] ==> howMany > 0 && |top.scoreDocs| <= howMany
  {
    var size := Min(|ranked|, numHits);
    if start < 0 || start >= size || howMany <= 0 then TopDocs(0, [])
    else TopDocs(|ranked|, ranked[start .. start + Min(size - start, howMany)])
  }
}
