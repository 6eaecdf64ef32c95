/**
 * `GetAutocompleteSuggestions`: every space-separated word of the lower-cased prefix
 * becomes a required prefix clause on `CombinedText`; the titles of the ranked hits
 * are then filtered to those that start with the raw prefix (ignoring case),
 * de-duplicated in rank order and cut off once the requested number is reached.
 */
module Autocomplete {
  import opened Text
  import opened Numbers
  import opened Films
  import opened Queries
  import opened Ranking

  /** The collector's capacity, and the number of hits fetched. */
  const AUTOCOMPLETE_HITS: nat := 1000

  /** `prefix.ToLowerInvariant().Split(' ')`. */
  function QueryWords(prefix: string): seq<string> {
    Split(ToLowerInvariant(prefix), ' ')
  }

  function PrefixClauses(words: seq<string>): (cs: seq<Clause>)
    ensures |cs| == |words|
  {
    seq(|words|, i requires 0 <= i < |words| => PrefixClause(words[i]))
  }

  /** The Boolean query of one required prefix clause per word. */
  function PrefixQueryFor(prefix: string): Query {
    Conj(PrefixClauses(QueryWords(prefix)))
  }

  /** The loop of `GetAutocompleteSuggestions` that adds one `PrefixQuery` per word. */
  method BuildPrefixQuery(prefix: string) returns (q: Query)
    ensures q == PrefixQueryFor(prefix)
  {
    var words := ToLowerInvariant(prefix);
    var split := Split(words, ' ');
    var clauses: seq<Clause> := [];
    for i := 0 to |split|
      invariant clauses == PrefixClauses(split[..i])
    {
      clauses := clauses + [PrefixClause(split[i])];
    }
    assert split[..|split|] == split;
    q := Conj(clauses);
  }

  lemma {:induction false} LowerKeepsSpaces(s: string)
    ensures Occurrences(ToLowerInvariant(s), ' ') == Occurrences(s, ' ')
  {
    if s != [] {
      assert ToLowerInvariant(s)[1..] == ToLowerInvariant(s[1..]);
      LowerKeepsSpaces(s[1..]);
    }
  }

  /**
   * There is one prefix clause per space-separated word, empty words from repeated,
   * leading or trailing spaces included: one more clause than the prefix has spaces.
   * The words are the pieces of the lower-cased prefix, in order.
   */
  lemma PrefixQueryShape(prefix: string)
    ensures var cs := PrefixQueryFor(prefix).clauses;
      && |cs| == Occurrences(prefix, ' ') + 1
      && (forall i | 0 <= i < |cs| :: cs[i] == PrefixClause(QueryWords(prefix)[i]) && ' ' !in QueryWords(prefix)[i])
      && Join(QueryWords(prefix), ' ') == ToLowerInvariant(prefix)
  {
    LowerKeepsSpaces(prefix);
    JoinSplit(ToLowerInvariant(prefix), ' ');
  }

  /** A document matches the prefix query exactly when every word is a prefix of one of its terms. */
  lemma PrefixQueryMeaning(doc: Document, prefix: string)
    ensures Matches(doc, PrefixQueryFor(prefix)) <==>
      forall w | w in QueryWords(prefix) :: exists t | t in doc.combinedText :: w <= t
  {
    var ws := QueryWords(prefix);
    var cs := PrefixClauses(ws);
    if Matches(doc, PrefixQueryFor(prefix)) {
      forall w | w in ws ensures exists t | t in doc.combinedText :: w <= t {
        var i :| 0 <= i < |ws| && ws[i] == w;
        assert ClauseMatches(doc, cs[i]);
      }
    } else {
      var i :| 0 <= i < |cs| && !ClauseMatches(doc, cs[i]);
      assert ws[i] in ws;
    }
  }

  /**
   * The suggestions found in `titles` when nothing stops the walk: each title that
   * starts with `prefix` (ignoring case) and is not yet in the list is appended.
   */
  function Suggestions(titles: seq<string>, prefix: string): seq<string> {
    if titles == [] then []
    else
      var prev := Suggestions(titles[..|titles| - 1], prefix);
      var t := titles[|titles| - 1];
      if StartsWithIgnoreCase(t, prefix) && t !in prev then prev + [t] else prev
  }

  /** Position of the first occurrence of `x` in `s`. */
  function FirstIndex(s: seq<string>, x: string): (k: nat)
    requires x in s
    ensures k < |s| && s[k] == x && x !in s[..k]
  {
    if s[0] == x then 0 else 1 + FirstIndex(s[1..], x)
  }

  lemma {:induction false} FirstIndexInPrefix(s: seq<string>, n: nat, x: string)
    requires n <= |s| && x in s[..n]
    ensures FirstIndex(s, x) == FirstIndex(s[..n], x)
  {
    if s[0] != x {
      assert s[..n][1..] == s[1..][..n - 1];
      FirstIndexInPrefix(s[1..], n - 1, x);
    }
  }

  /** Every element of `sug` occurs in `titles`, and they are listed in the order of their first occurrences there. */
  predicate InFirstOccurrenceOrder(titles: seq<string>, sug: seq<string>) {
    && (forall i | 0 <= i < |sug| :: sug[i] in titles)
    && (forall i, j | 0 <= i < j < |sug| ::
          sug[i] in titles && sug[j] in titles && FirstIndex(titles, sug[i]) < FirstIndex(titles, sug[j]))
  }

  predicate Distinct(s: seq<string>) {
    forall i, j | 0 <= i < j < |s| :: s[i] != s[j]
  }

  /**
   * The suggestions are exactly the distinct titles that start with the prefix, each
   * once, in the order in which they first occur among the titles.
   */
  lemma {:induction false} SuggestionsCharacterized(titles: seq<string>, prefix: string)
    ensures forall x :: x in Suggestions(titles, prefix) <==> x in titles && StartsWithIgnoreCase(x, prefix)
    ensures Distinct(Suggestions(titles, prefix))
    ensures InFirstOccurrenceOrder(titles, Suggestions(titles, prefix))
  {
    if titles != [] {
      var init := titles[..|titles| - 1];
      var t := titles[|titles| - 1];
      SuggestionsCharacterized(init, prefix);
      var prev := Suggestions(init, prefix);
      assert titles == init + [t];
      forall x | x in prev ensures FirstIndex(titles, x) == FirstIndex(init, x) < |init| {
        FirstIndexInPrefix(titles, |init|, x);
      }
      var sug := Suggestions(titles, prefix);
      if StartsWithIgnoreCase(t, prefix) && t !in prev {
        assert sug == prev + [t];
        assert t !in init;
        assert titles[..|init|] == init;
        assert FirstIndex(titles, t) == |init|;
        forall i, j | 0 <= i < j < |sug| ensures sug[i] in titles && sug[j] in titles && FirstIndex(titles, sug[i]) < FirstIndex(titles, sug[j]) {
          assert sug[i] == prev[i];
          assert prev[i] in prev;
          if j < |prev| {
            assert sug[j] == prev[j];
            assert prev[j] in prev;
          } else {
            assert sug[j] == t;
          }
        }
      } else {
        assert sug == prev;
        forall i, j | 0 <= i < j < |sug| ensures sug[i] in titles && sug[j] in titles && FirstIndex(titles, sug[i]) < FirstIndex(titles, sug[j]) {
          assert prev[i] in prev && prev[j] in prev;
          assert FirstIndex(init, prev[i]) < FirstIndex(init, prev[j]);
          assert FirstIndex(titles, prev[i]) == FirstIndex(init, prev[i]);
          assert FirstIndex(titles, prev[j]) == FirstIndex(init, prev[j]);
        }
      }
    }
  }

  /** The suggestions found in the first `n` titles begin the suggestions found in all of them. */
  lemma {:induction false} SuggestionsGrow(titles: seq<string>, prefix: string, n: nat)
    requires n <= |titles|
    ensures var early := Suggestions(titles[..n], prefix);
      |early| <= |Suggestions(titles, prefix)| && Suggestions(titles, prefix)[..|early|] == early
  {
    if n < |titles| {
      var init := titles[..|titles| - 1];
      assert init[..n] == titles[..n];
      SuggestionsGrow(init, prefix, n);
    } else {
      assert titles[..n] == titles;
    }
  }

  /** How many suggestions are kept: the loop stops once the count reaches `maxSuggestions`, which it checks after an append, so always at least one. */
  function Limit(maxSuggestions: int): nat {
    if maxSuggestions < 1 then 1 else maxSuggestions
  }

  /** The titles of the hits the collector keeps, in rank order. */
  function TopTitles(index: seq<Document>, ranked: seq<ScoreDoc>): (titles: seq<string>)
    requires forall k | 0 <= k < |ranked| :: ranked[k].doc < |index|
    ensures |titles| == Min(|ranked|, AUTOCOMPLETE_HITS)
  {
    TitlesOf(index, ranked[..Min(|ranked|, AUTOCOMPLETE_HITS)])
  }

  /** The titles of a list of hits, in order. */
  function TitlesOf(index: seq<Document>, hits: seq<ScoreDoc>): (titles: seq<string>)
    requires forall k | 0 <= k < |hits| :: hits[k].doc < |index|
    ensures |titles| == |hits|
  {
    seq(|hits|, k requires 0 <= k < |hits| => index[hits[k].doc].title)
  }

  /**
   * The `foreach` over the hits in `GetAutocompleteSuggestions`: a hit's title is
   * appended when it starts with the prefix and is not in the list yet, and the walk
   * stops as soon as the list holds `maxSuggestions` titles.
   */
  method CollectSuggestions(index: seq<Document>, hits: seq<ScoreDoc>, prefix: string, maxSuggestions: Int32)
    returns (suggestions: seq<string>)
    requires forall k | 0 <= k < |hits| :: hits[k].doc < |index|
    ensures var all := Suggestions(TitlesOf(index, hits), prefix);
      suggestions == all[..Min(|all|, Limit(maxSuggestions))]
  {
    ghost var titles := TitlesOf(index, hits);
    suggestions := [];
    for i := 0 to |hits|
      invariant suggestions == Suggestions(titles[..i], prefix)
      invariant |suggestions| < Limit(maxSuggestions)
    {
      var title := index[hits[i].doc].title;
      assert titles[..i + 1][..i] == titles[..i];
      if StartsWithIgnoreCase(title, prefix) && title !in suggestions {
        suggestions := suggestions + [title];
        if |suggestions| >= maxSuggestions as int {
          KeptWhenFull(titles, prefix, i + 1, Limit(maxSuggestions));
          break;
        }
      }
    }
    assert titles[..|hits|] == titles;
  }

  /**
   * `GetAutocompleteSuggestions`, with the index snapshot the reader opens and the
   * ranked hits the searcher produces for the prefix query. The result is the first
   * `max(1, maxSuggestions)` of the `Suggestions` of the top 1000 hits' titles: titles
   * that start with the raw prefix ignoring case, with no repeats, in ranked-hit
   * order, each the title of a document that the prefix query matches.
   */
  method GetAutocompleteSuggestions(index: seq<Document>, ranked: seq<ScoreDoc>, prefix: string, maxSuggestions: Int32)
    returns (suggestions: seq<string>)
    requires IsRanking(index, PrefixQueryFor(prefix), ranked)
    ensures var all := Suggestions(TopTitles(index, ranked), prefix);
      suggestions == all[..Min(|all|, Limit(maxSuggestions))]
    ensures |suggestions| <= Limit(maxSuggestions)
    ensures forall i | 0 <= i < |suggestions| :: StartsWithIgnoreCase(suggestions[i], prefix)
    ensures Distinct(suggestions)
    ensures InFirstOccurrenceOrder(TopTitles(index, ranked), suggestions)
    ensures forall i | 0 <= i < |suggestions| ::
      exists d | 0 <= d < |index| :: index[d].title == suggestions[i] && Matches(index[d], PrefixQueryFor(prefix))
  {
    var query := BuildPrefixQuery(prefix);
    var scoreDocs := CollectTopDocs(ranked, AUTOCOMPLETE_HITS, 0, AUTOCOMPLETE_HITS).scoreDocs;
    assert scoreDocs == ranked[..Min(|ranked|, AUTOCOMPLETE_HITS)];
    suggestions := CollectSuggestions(index, scoreDocs, prefix, maxSuggestions);
    SuggestedProperties(index, ranked, prefix, Limit(maxSuggestions));
  }

  /** Once the suggestions of the first `n` titles reach the limit, they are the kept part of all suggestions. */
  lemma KeptWhenFull(titles: seq<string>, prefix: string, n: nat, limit: nat)
    requires n <= |titles|
    requires |Suggestions(titles[..n], prefix)| == limit
    ensures var all := Suggestions(titles, prefix);
      Suggestions(titles[..n], prefix) == all[..Min(|all|, limit)]
  {
    SuggestionsGrow(titles, prefix, n);
  }

  /** Whatever prefix of the suggestions is kept has the properties of the whole list. */
  lemma SuggestedProperties(index: seq<Document>, ranked: seq<ScoreDoc>, prefix: string, n: nat)
    requires IsRanking(index, PrefixQueryFor(prefix), ranked)
    ensures var titles := TopTitles(index, ranked);
      var all := Suggestions(titles, prefix);
      var kept := all[..Min(|all|, n)];
      && (forall i | 0 <= i < |kept| :: StartsWithIgnoreCase(kept[i], prefix))
      && Distinct(kept)
      && InFirstOccurrenceOrder(titles, kept)
      && (forall i | 0 <= i < |kept| ::
            exists d | 0 <= d < |index| :: index[d].title == kept[i] && Matches(index[d], PrefixQueryFor(prefix)))
  {
    var titles := TopTitles(index, ranked);
    var all := Suggestions(titles, prefix);
    var kept := all[..Min(|all|, n)];
    SuggestionsCharacterized(titles, prefix);
    assert forall i | 0 <= i < |kept| :: kept[i] == all[i];
    forall i | 0 <= i < |kept|
      ensures exists d | 0 <= d < |index| :: index[d].title == kept[i] && Matches(index[d], PrefixQueryFor(prefix))
    {
      assert all[i] in all;
      var k :| 0 <= k < |titles| && titles[k] == kept[i];
      var d := ranked[k].doc;
      assert index[d].title == kept[i];
    }
  }
}
