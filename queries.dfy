/**
 * `GetLuceneQuery`: the translation of a search request (free text plus optional
 * runtime, vote-average and release-date bounds) into a Lucene query, and what such a
 * query matches. A query is either "match all documents" or a Boolean query whose
 * clauses are all required (`Occur.MUST`).
 */
module Queries {
  import opened Wrappers
  import opened Text
  import opened Numbers
  import opened Dates
  import opened Films

  /** The fixed upper end of the vote-average range. */
  const VOTE_CEILING: real := 10.0

  datatype Clause =
    /** `TermQuery` on `CombinedText`. */
    | TermClause(term: Term)
    /** `NumericRangeQuery.NewInt32Range("Runtime", min, max, true, true)`; a missing bound is open. */
    | IntRange(min: Option<Int32>, max: Option<Int32>)
    /** `NumericRangeQuery.NewDoubleRange("VoteAverage", min, max, true, true)`. */
    | VoteRange(least: real, most: real)
    /** `TermRangeQuery.NewStringRange("ReleaseDate", lower, upper, true, true)`; a missing bound is open. */
    | DateRange(lower: Option<string>, upper: Option<string>)
    /** `PrefixQuery` on `CombinedText` (built by autocomplete). */
    | PrefixClause(prefix: string)

  datatype Query =
    /** `MatchAllDocsQuery`. */
    | MatchAll
    /** A `BooleanQuery` in which every clause is `Occur.MUST`. */
    | Conj(clauses: seq<Clause>)

  /** What one clause matches. Range ends are inclusive; a document without a `ReleaseDate` field is outside every date range. */
  predicate ClauseMatches(doc: Document, c: Clause) {
    match c
    case TermClause(t) => t in doc.combinedText
    case IntRange(lo, hi) =>
      (lo.Some? ==> lo.value <= doc.runtime) && (hi.Some? ==> doc.runtime <= hi.value)
    case VoteRange(lo, hi) => lo <= doc.voteAverage <= hi
    case DateRange(lo, hi) =>
      && doc.releaseDate.Some?
      && (lo.Some? ==> LexLe(lo.value, doc.releaseDate.value))
      && (hi.Some? ==> LexLe(doc.releaseDate.value, hi.value))
    case PrefixClause(p) => exists t | t in doc.combinedText :: p <= t
  }

  predicate AllMatch(doc: Document, cs: seq<Clause>) {
    forall i | 0 <= i < |cs| :: ClauseMatches(doc, cs[i])
  }

  /**
   * What a query matches. A Boolean query with no clauses matches no document
   * (Lucene's Boolean scorer has nothing to score); only `MatchAll` matches everything.
   */
  predicate Matches(doc: Document, q: Query) {
    match q
    case MatchAll => true
    case Conj(cs) => |cs| > 0 && AllMatch(doc, cs)
  }

  lemma AllMatchAppend(doc: Document, a: seq<Clause>, b: seq<Clause>)
    ensures AllMatch(doc, a + b) <==> AllMatch(doc, a) && AllMatch(doc, b)
  {
    if AllMatch(doc, a) && AllMatch(doc, b) {
      forall i | 0 <= i < |a + b| ensures ClauseMatches(doc, (a + b)[i]) {
        if i >= |a| { assert (a + b)[i] == b[i - |a|]; }
      }
    }
    if AllMatch(doc, a + b) {
      forall i | 0 <= i < |a| ensures ClauseMatches(doc, a[i]) {
        assert (a + b)[i] == a[i];
      }
      forall i | 0 <= i < |b| ensures ClauseMatches(doc, b[i]) {
        assert (a + b)[|a| + i] == b[i];
      }
    }
  }

  /** The parameters of `GetLuceneQuery`. */
  datatype SearchRequest = SearchRequest(
    searchString: Option<string>,
    durationMinimum: Option<Int32>, durationMaximum: Option<Int32>,
    voteAverageMinimum: Option<real>,
    releaseDateStart: Option<Date>, releaseDateEnd: Option<Date>)

  predicate HasRuntimeBound(req: SearchRequest) {
    req.durationMinimum.Some? || req.durationMaximum.Some?
  }

  predicate HasDateBound(req: SearchRequest) {
    req.releaseDateStart.Some? || req.releaseDateEnd.Some?
  }

  predicate HasBounds(req: SearchRequest) {
    HasRuntimeBound(req) || req.voteAverageMinimum.Some? || HasDateBound(req)
  }

  /** The tokens of the search string; a null or blank string is not analyzed at all. */
  function QueryTokens(req: SearchRequest, analyze: Analyzer): seq<Term> {
    if IsNullOrWhiteSpace(req.searchString) then [] else analyze(req.searchString.value)
  }

  /** The `yyyyMMdd` key of a date bound, null when the bound is not given. */
  function BoundKey(d: Option<Date>): Option<string> {
    match d
    case Some(v) => Some(DateKey(v))
    case None => None
  }

  function TermClauses(tokens: seq<Term>): (cs: seq<Clause>)
    ensures |cs| == |tokens|
  {
    seq(|tokens|, i requires 0 <= i < |tokens| => TermClause(tokens[i]))
  }

  function RuntimeClauses(req: SearchRequest): seq<Clause> {
    if HasRuntimeBound(req) then [IntRange(req.durationMinimum, req.durationMaximum)] else []
  }

  function VoteClauses(req: SearchRequest): seq<Clause> {
    if req.voteAverageMinimum.Some? then [VoteRange(req.voteAverageMinimum.value, VOTE_CEILING)] else []
  }

  function DateClauses(req: SearchRequest): seq<Clause> {
    if HasDateBound(req) then [DateRange(BoundKey(req.releaseDateStart), BoundKey(req.releaseDateEnd))] else []
  }

  /** The bound clauses, in the order `GetLuceneQuery` adds them. */
  function RangeClauses(req: SearchRequest): seq<Clause> {
    RuntimeClauses(req) + VoteClauses(req) + DateClauses(req)
  }

  lemma AppendAssociative(a: seq<Clause>, b: seq<Clause>, c: seq<Clause>, d: seq<Clause>)
    ensures a + b + c + d == a + (b + c + d)
  {
  }

  /** The query `GetLuceneQuery` returns, as a function of its arguments. */
  function QueryFor(req: SearchRequest, analyze: Analyzer): Query {
    var clauses := TermClauses(QueryTokens(req, analyze)) + RangeClauses(req);
    if IsNullOrWhiteSpace(req.searchString) && |clauses| == 0 then MatchAll else Conj(clauses)
  }

  /**
   * `GetLuceneQuery`: one required term clause per token of the analyzed search
   * string, then a runtime, a vote-average and a release-date clause for the bounds
   * given; "match all" when the search string is blank and no bound clause was added.
   */
  method GetLuceneQuery(req: SearchRequest, analyze: Analyzer) returns (q: Query)
    ensures q == QueryFor(req, analyze)
  {
    var clauses: seq<Clause> := [];
    if !IsNullOrWhiteSpace(req.searchString) {
      var tokens := analyze(req.searchString.value);
      for i := 0 to |tokens|
        invariant clauses == TermClauses(tokens[..i])
      {
        clauses := clauses + [TermClause(tokens[i])];
      }
      assert tokens[..|tokens|] == tokens;
    }
    ghost var terms := clauses;
    assert terms == TermClauses(QueryTokens(req, analyze));
    if req.durationMaximum.Some? || req.durationMinimum.Some? {
      clauses := clauses + [IntRange(req.durationMinimum, req.durationMaximum)];
    }
    assert clauses == terms + RuntimeClauses(req);
    if req.voteAverageMinimum.Some? {
      clauses := clauses + [VoteRange(req.voteAverageMinimum.value, VOTE_CEILING)];
    }
    assert clauses == terms + RuntimeClauses(req) + VoteClauses(req);
    if req.releaseDateStart.Some? || req.releaseDateEnd.Some? {
      var start := if req.releaseDateStart.Some? then Some(DateKey(req.releaseDateStart.value)) else None;
      var end := if req.releaseDateEnd.Some? then Some(DateKey(req.releaseDateEnd.value)) else None;
      assert start == BoundKey(req.releaseDateStart) && end == BoundKey(req.releaseDateEnd);
      clauses := clauses + [DateRange(start, end)];
    }
    assert clauses == terms + RuntimeClauses(req) + VoteClauses(req) + DateClauses(req);
    AppendAssociative(terms, RuntimeClauses(req), VoteClauses(req), DateClauses(req));
    if IsNullOrWhiteSpace(req.searchString) && |clauses| == 0 {
      return MatchAll;
    }
    return Conj(clauses);
  }

  /**
   * "Match all" is returned exactly when the search string is null or blank and no
   * bound is given; a blank search without bounds matches every document.
   */
  lemma MatchAllCondition(req: SearchRequest, analyze: Analyzer)
    ensures QueryFor(req, analyze) == MatchAll <==> IsNullOrWhiteSpace(req.searchString) && !HasBounds(req)
    ensures IsNullOrWhiteSpace(req.searchString) && !HasBounds(req) ==>
      forall doc :: Matches(doc, QueryFor(req, analyze))
  {
  }

  /**
   * A non-blank search string that analyzes to no token (stop words only), with no
   * bound, gives an empty Boolean query rather than "match all", and it matches nothing.
   */
  lemma StopWordsOnlyMatchNothing(req: SearchRequest, analyze: Analyzer, doc: Document)
    requires !IsNullOrWhiteSpace(req.searchString) && analyze(req.searchString.value) == []
    requires !HasBounds(req)
    ensures QueryFor(req, analyze) == Conj([])
    ensures !Matches(doc, QueryFor(req, analyze))
  {
  }

  /** Every token adds one term clause, in token order, ahead of the bound clauses. */
  lemma TermClausePerToken(req: SearchRequest, analyze: Analyzer)
    requires QueryFor(req, analyze).Conj?
    ensures var q, ts := QueryFor(req, analyze), QueryTokens(req, analyze);
      && |ts| <= |q.clauses|
      && (forall i | 0 <= i < |ts| :: q.clauses[i] == TermClause(ts[i]))
      && (forall i | |ts| <= i < |q.clauses| :: !q.clauses[i].TermClause?)
  {
  }

  /** Term clauses are conjunctive: a document passes them all exactly when it holds every token. */
  lemma TermClausesConjunctive(doc: Document, tokens: seq<Term>)
    ensures AllMatch(doc, TermClauses(tokens)) <==> forall t | t in tokens :: t in doc.combinedText
  {
    var cs := TermClauses(tokens);
    if AllMatch(doc, cs) {
      forall t | t in tokens ensures t in doc.combinedText {
        var i :| 0 <= i < |tokens| && tokens[i] == t;
        assert ClauseMatches(doc, cs[i]);
      }
    }
  }

  /** The runtime clause is present exactly when a runtime bound is given, and it carries both bounds as given. */
  lemma RuntimeClausePresence(req: SearchRequest, analyze: Analyzer)
    requires QueryFor(req, analyze).Conj?
    ensures var cs := QueryFor(req, analyze).clauses;
      && (IntRange(req.durationMinimum, req.durationMaximum) in cs <==> HasRuntimeBound(req))
      && (forall c | c in cs && c.IntRange? :: c == IntRange(req.durationMinimum, req.durationMaximum))
  {
  }

  /** The vote-average clause is present exactly when a minimum is given, and spans that minimum to 10.0. */
  lemma VoteClausePresence(req: SearchRequest, analyze: Analyzer)
    requires QueryFor(req, analyze).Conj?
    ensures var cs := QueryFor(req, analyze).clauses;
      && ((exists c | c in cs :: c.VoteRange?) <==> req.voteAverageMinimum.Some?)
      && (forall c | c in cs && c.VoteRange? :: c == VoteRange(req.voteAverageMinimum.value, VOTE_CEILING))
  {
    var cs := QueryFor(req, analyze).clauses;
    if req.voteAverageMinimum.Some? {
      assert VoteRange(req.voteAverageMinimum.value, VOTE_CEILING) in cs;
    }
  }

  /** The release-date clause is present exactly when a date bound is given, and compares the bounds' `yyyyMMdd` keys. */
  lemma DateClausePresence(req: SearchRequest, analyze: Analyzer)
    requires QueryFor(req, analyze).Conj?
    ensures var cs := QueryFor(req, analyze).clauses;
      && (DateRange(BoundKey(req.releaseDateStart), BoundKey(req.releaseDateEnd)) in cs <==> HasDateBound(req))
      && (forall c | c in cs && c.DateRange? :: c == DateRange(BoundKey(req.releaseDateStart), BoundKey(req.releaseDateEnd)))
  {
  }

  /**
   * On a film's document, the date clause selects the films released on or after
   * the start and on or before the end, compared as calendar dates; a film without a
   * release date is never selected.
   */
  lemma DateClauseMeaning(f: FilmRecord, analyze: Analyzer, start: Option<Date>, end: Option<Date>)
    ensures ClauseMatches(ToDocument(f, analyze), DateRange(BoundKey(start), BoundKey(end)))
      <==> && f.releaseDate.Some?
           && (start.Some? ==> DateLe(start.value, f.releaseDate.value))
           && (end.Some? ==> DateLe(f.releaseDate.value, end.value))
  {
    if f.releaseDate.Some? {
      if start.Some? { KeyOrder(start.value, f.releaseDate.value); }
      if end.Some? { KeyOrder(f.releaseDate.value, end.value); }
    }
  }

  /**
   * Which films a search selects, stated on the film itself and with dates compared
   * as dates: with a blank string and no bounds, all of them; otherwise there must be
   * at least one clause, and the film must contain every token and lie within every
   * bound given (inclusive; a missing bound is open; no release date fails any date bound).
   */
  ghost predicate Selected(f: FilmRecord, req: SearchRequest, analyze: Analyzer) {
    if IsNullOrWhiteSpace(req.searchString) && !HasBounds(req) then true
    else
      && (|QueryTokens(req, analyze)| > 0 || HasBounds(req))
      && (forall t | t in QueryTokens(req, analyze) :: t in analyze(CombinedText(f)))
      && (req.durationMinimum.Some? ==> req.durationMinimum.value <= f.runtime)
      && (req.durationMaximum.Some? ==> f.runtime <= req.durationMaximum.value)
      && (req.voteAverageMinimum.Some? ==> req.voteAverageMinimum.value <= f.voteAverage <= VOTE_CEILING)
      && (HasDateBound(req) ==>
            && f.releaseDate.Some?
            && (req.releaseDateStart.Some? ==> DateLe(req.releaseDateStart.value, f.releaseDate.value))
            && (req.releaseDateEnd.Some? ==> DateLe(f.releaseDate.value, req.releaseDateEnd.value)))
  }

  lemma RangeClausesMeaning(f: FilmRecord, req: SearchRequest, analyze: Analyzer)
    ensures AllMatch(ToDocument(f, analyze), RangeClauses(req)) <==>
      && (req.durationMinimum.Some? ==> req.durationMinimum.value <= f.runtime)
      && (req.durationMaximum.Some? ==> f.runtime <= req.durationMaximum.value)
      && (req.voteAverageMinimum.Some? ==> req.voteAverageMinimum.value <= f.voteAverage <= VOTE_CEILING)
      && (HasDateBound(req) ==>
            && f.releaseDate.Some?
            && (req.releaseDateStart.Some? ==> DateLe(req.releaseDateStart.value, f.releaseDate.value))
            && (req.releaseDateEnd.Some? ==> DateLe(f.releaseDate.value, req.releaseDateEnd.value)))
  {
    var doc := ToDocument(f, analyze);
    var rt, va, dr := RuntimeClauses(req), VoteClauses(req), DateClauses(req);
    AllMatchAppend(doc, rt + va, dr);
    AllMatchAppend(doc, rt, va);
    assert rt != [] ==> (AllMatch(doc, rt) <==> ClauseMatches(doc, rt[0]));
    assert va != [] ==> (AllMatch(doc, va) <==> ClauseMatches(doc, va[0]));
    assert dr != [] ==> (AllMatch(doc, dr) <==> ClauseMatches(doc, dr[0]));
    DateClauseMeaning(f, analyze, req.releaseDateStart, req.releaseDateEnd);
  }

  /** The query built for a request matches a film's document exactly when the film is `Selected`. */
  lemma SearchSemantics(f: FilmRecord, req: SearchRequest, analyze: Analyzer)
    ensures Matches(ToDocument(f, analyze), QueryFor(req, analyze)) <==> Selected(f, req, analyze)
  {
    var doc := ToDocument(f, analyze);
    var ts := QueryTokens(req, analyze);
    AllMatchAppend(doc, TermClauses(ts), RangeClauses(req));
    TermClausesConjunctive(doc, ts);
    RangeClausesMeaning(f, req, analyze);
    assert |RangeClauses(req)| > 0 <==> HasBounds(req);
  }

  /** A CSV row whose release date does not parse is never found by a search with a date bound. */
  lemma UnparsedDateNeverInDateRange(r: CsvRecord, culture: Culture, req: SearchRequest, analyze: Analyzer)
    requires culture.parseDateTime(r.releaseDate).None?
    requires HasDateBound(req)
    ensures !Matches(ToDocument(ToFilmRecord(r, culture), analyze), QueryFor(req, analyze))
  {
    SearchSemantics(ToFilmRecord(r, culture), req, analyze);
  }

  /**
   * A CSV row whose runtime does not parse is indexed with runtime 0, so a search
   * bounded only by a non-negative runtime maximum finds it.
   */
  lemma UnparsedRuntimeWithinMaximum(r: CsvRecord, culture: Culture, req: SearchRequest, analyze: Analyzer)
    requires ParseInt32(r.runtime).None?
    requires IsNullOrWhiteSpace(req.searchString)
    requires req.durationMinimum.None? && req.durationMaximum.Some? && req.durationMaximum.value >= 0
    requires req.voteAverageMinimum.None? && !HasDateBound(req)
    ensures Matches(ToDocument(ToFilmRecord(r, culture), analyze), QueryFor(req, analyze))
  {
    SearchSemantics(ToFilmRecord(r, culture), req, analyze);
  }
}
