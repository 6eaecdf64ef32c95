/**
 * The film records and the Lucene documents made from them: the CSV-to-record
 * conversion of `PopulateIndexFromCsv`, the record-to-document mapping of
 * `PopulateIndex`, the reading back of a stored document that `Search` performs for
 * each hit, and the index itself as the object that `PopulateIndex` and
 * `DeleteIndex` change.
 */
module Films {
  import opened Wrappers
  import opened Numbers
  import opened Dates

  /** A term: one token as the analyzer emits it. */
  type Term = string

  /**
   * The analyzer (`CustomAnalyzer`: standard tokenizer, lower-casing, English stop
   * words, Porter stemming), treated as an uninterpreted pure function. One and the
   * same value is passed to the index side and to the query side.
   */
  type Analyzer = string -> seq<Term>

  /**
   * The culture-dependent parsers that the conversion calls and that this model does
   * not define: `double.TryParse` and `DateTime.TryParse`. `None` stands for a failed parse.
   */
  datatype Culture = Culture(parseDouble: string -> Option<real>, parseDateTime: string -> Option<Date>)

  /** A row of the CSV file: every column is text. */
  datatype CsvRecord = CsvRecord(
    id: string, title: string, overview: string, runtime: string,
    tagline: string, revenue: string, voteAverage: string, releaseDate: string)

  /** `FilmLuceneRecord`: a film with its typed fields. */
  datatype FilmRecord = FilmRecord(
    id: string, title: string, overview: string, runtime: Int32,
    tagline: string, revenue: Int64, voteAverage: real, releaseDate: Option<Date>)

  /**
   * A Lucene document as `PopulateIndex` builds it: the stored fields, the analyzed
   * terms of the `CombinedText` field (indexed, not stored) and, only for films that
   * have a release date, the `ReleaseDate` field holding the `yyyyMMdd` key.
   */
  datatype Document = Document(
    id: string, title: string, overview: string, runtime: Int32,
    tagline: string, revenue: Int64, voteAverage: real,
    combinedText: seq<Term>, releaseDate: Option<string>)

  /** The projection in `PopulateIndexFromCsv`: a number that fails to parse becomes 0, a date that fails to parse becomes null. */
  function ToFilmRecord(r: CsvRecord, culture: Culture): FilmRecord {
    FilmRecord(
      r.id, r.title, r.overview,
      ParseInt32(r.runtime).GetOr(0),
      r.tagline,
      ParseInt64(r.revenue).GetOr(0),
      culture.parseDouble(r.voteAverage).GetOr(0.0),
      culture.parseDateTime(r.releaseDate))
  }

  /** The projection applied to the whole file: one record per row, in order. */
  function ToFilmRecords(rows: seq<CsvRecord>, culture: Culture): (films: seq<FilmRecord>)
    ensures |films| == |rows|
    ensures forall i | 0 <= i < |rows| :: films[i] == ToFilmRecord(rows[i], culture)
  {
    seq(|rows|, i requires 0 <= i < |rows| => ToFilmRecord(rows[i], culture))
  }

  /** The text that is analyzed into the `CombinedText` field. */
  function CombinedText(f: FilmRecord): string {
    f.title + " " + f.tagline + " " + f.overview
  }

  /** The document `PopulateIndex` adds for one film. */
  function ToDocument(f: FilmRecord, analyze: Analyzer): Document {
    Document(
      f.id, f.title, f.overview, f.runtime, f.tagline, f.revenue, f.voteAverage,
      analyze(CombinedText(f)),
      match f.releaseDate
      case Some(d) => Some(DateKey(d))
      case None => None)
  }

  function ToDocuments(films: seq<FilmRecord>, analyze: Analyzer): (docs: seq<Document>)
    ensures |docs| == |films|
    ensures forall i | 0 <= i < |films| :: docs[i] == ToDocument(films[i], analyze)
  {
    seq(|films|, i requires 0 <= i < |films| => ToDocument(films[i], analyze))
  }

  /**
   * The record `Search` rebuilds from a hit's stored fields: numbers are written out
   * by the index and parsed again (0 on failure), the release date is parsed with the
   * exact format `yyyyMMdd` (null when the field is missing or does not parse). The
   * stored vote average is returned as it was stored.
   */
  function FromStored(doc: Document): FilmRecord {
    FilmRecord(
      doc.id, doc.title, doc.overview,
      ParseInt32(ShowInteger(doc.runtime)).GetOr(0),
      doc.tagline,
      ParseInt64(ShowInteger(doc.revenue)).GetOr(0),
      doc.voteAverage,
      match doc.releaseDate
      case Some(k) => ParseKey(k)
      case None => None)
  }

  /** Reading a document back gives exactly the film it was made from. */
  lemma StoredRoundTrip(f: FilmRecord, analyze: Analyzer)
    ensures FromStored(ToDocument(f, analyze)) == f
  {
    ParseShowInteger(f.runtime, INT32_MIN, INT32_MAX);
    ParseShowInteger(f.revenue, INT64_MIN, INT64_MAX);
    if f.releaseDate.Some? {
      KeyRoundTrip(f.releaseDate.value);
    }
  }

  /**
   * A runtime cell holding the decimal text of `n` converts to `n` when `n` fits an
   * `int` and to the default 0 when it overflows.
   */
  lemma RuntimeFromText(r: CsvRecord, culture: Culture, n: int)
    requires r.runtime == ShowInteger(n)
    ensures ToFilmRecord(r, culture).runtime == if INT32_MIN <= n <= INT32_MAX then n else 0
  {
    ParseShowInteger(n, INT32_MIN, INT32_MAX);
  }

  /** A revenue cell holding the decimal text of `n` converts to `n` when `n` fits a `long`, and to 0 otherwise. */
  lemma RevenueFromText(r: CsvRecord, culture: Culture, n: int)
    requires r.revenue == ShowInteger(n)
    ensures ToFilmRecord(r, culture).revenue == if INT64_MIN <= n <= INT64_MAX then n else 0
  {
    ParseShowInteger(n, INT64_MIN, INT64_MAX);
  }

  /**
   * The parse defaults of the conversion: a runtime, revenue or vote average that
   * fails to parse is 0, and a release date that fails to parse leaves the document
   * without a `ReleaseDate` field; a date that parses is stored as its key.
   */
  lemma ConversionDefaults(r: CsvRecord, culture: Culture, analyze: Analyzer)
    ensures ParseInt32(r.runtime).None? ==> ToFilmRecord(r, culture).runtime == 0
    ensures ParseInt64(r.revenue).None? ==> ToFilmRecord(r, culture).revenue == 0
    ensures culture.parseDouble(r.voteAverage).None? ==> ToFilmRecord(r, culture).voteAverage == 0.0
    ensures ToDocument(ToFilmRecord(r, culture), analyze).releaseDate.None?
        <==> culture.parseDateTime(r.releaseDate).None?
    ensures culture.parseDateTime(r.releaseDate).Some? ==>
        ToDocument(ToFilmRecord(r, culture), analyze).releaseDate == Some(DateKey(culture.parseDateTime(r.releaseDate).value))
  {
  }

  /**
   * The Lucene index in the engine's index directory, as a sequence of documents in
   * the order they were added. `PopulateIndex` appends (the writer opens the
   * directory in create-or-append mode); `DeleteIndex` removes every document.
   */
  class SearchEngine {
    var index: seq<Document>

    constructor ()
      ensures index == []
    {
      index := [];
    }

    /** `PopulateIndex`: one document per film, appended in order. */
    method PopulateIndex(films: seq<FilmRecord>, analyze: Analyzer)
      modifies this
      ensures |index| == |old(index)| + |films|
      ensures index == old(index) + ToDocuments(films, analyze)
    {
      for i := 0 to |films|
        invariant index == old(index) + ToDocuments(films[..i], analyze)
      {
        index := index + [ToDocument(films[i], analyze)];
        assert ToDocuments(films[..i + 1], analyze) == ToDocuments(films[..i], analyze) + [ToDocument(films[i], analyze)];
      }
      assert films[..|films|] == films;
    }

    /** `PopulateIndexFromCsv`, with the rows that `ReadFilmsFromCsv` would read passed in. */
    method PopulateIndexFromCsv(rows: seq<CsvRecord>, culture: Culture, analyze: Analyzer)
      modifies this
      ensures |index| == |old(index)| + |rows|
      ensures index[..|old(index)|] == old(index)
      ensures forall i | 0 <= i < |rows| :: index[|old(index)| + i] == ToDocument(ToFilmRecord(rows[i], culture), analyze)
    {
      var films := ToFilmRecords(rows, culture);
      PopulateIndex(films, analyze);
    }

    /** `DeleteIndex`: the writer deletes all documents and commits. */
    method DeleteIndex()
      modifies this
      ensures index == []
    {
      index := [];
    }
  }
}
