/**
 * The read-only views over the store: the authors alive in a given year and
 * the set of books the download statistics are computed over.
 */
module Queries {
  import opened Wrappers
  import opened Model
  import opened Seqs

  /** First stream filter: the birth year is known and not after `year`. */
  function BornBy(year: int): (born: Author -> bool)
    ensures forall a: Author :: a.birthYear.None? ==> !born(a)
    ensures forall a: Author :: a.birthYear.Some? ==> (born(a) <==> a.birthYear.value <= year)
  {
    (a: Author) => a.birthYear.Some? && a.birthYear.value <= year
  }

  /** Second stream filter: the death year is unknown or not before `year`. */
  function NotDeadBefore(year: int): (living: Author -> bool)
    ensures forall a: Author :: a.deathYear.None? ==> living(a)
    ensures forall a: Author :: a.deathYear.Some? ==> (living(a) <==> year <= a.deathYear.value)
  {
    (a: Author) => a.deathYear.None? || a.deathYear.value >= year
  }

  /** An author counts as alive in `year` when born by then and not dead before it. */
  predicate AliveIn(a: Author, year: int)
  {
    match a.birthYear
    case None => false
    case Some(born) => born <= year && (a.deathYear.None? || year <= a.deathYear.value)
  }

  function AliveInYear(year: int): Author -> bool
  {
    (a: Author) => AliveIn(a, year)
  }

  /**
   * The living-authors listing: all stored authors through the two filters,
   * in store order. Nothing is changed.
   */
  function LivingAuthors(authors: seq<Author>, year: int): (r: seq<Author>)
    ensures |r| <= |authors|
    ensures forall a :: a in r <==> a in authors && AliveIn(a, year)
  {
    Filter(Filter(authors, BornBy(year)), NotDeadBefore(year))
  }

  /** The two chained filters list the same authors, in the same order, as the single alive-in test. */
  lemma LivingAuthorsIsAliveFilter(authors: seq<Author>, year: int)
    ensures LivingAuthors(authors, year) == Filter(authors, AliveInYear(year))
  {
    FilterFilter(authors, BornBy(year), NotDeadBefore(year), AliveInYear(year));
  }

  /** A book takes part in the statistics when its download count is present and positive. */
  predicate PositiveDownloads(b: BookRecord)
  {
    b.downloads.Some? && b.downloads.value > 0.0
  }

  /** The books the statistics are computed over, in store order. */
  function Qualifying(books: seq<BookRecord>): (r: seq<BookRecord>)
    ensures |r| <= |books|
    ensures forall b :: b in r <==> b in books && PositiveDownloads(b)
  {
    Filter(books, PositiveDownloads)
  }

  /** The "records evaluated" figure of the statistics. */
  function EvaluatedCount(books: seq<BookRecord>): (n: nat)
    ensures n <= |books|
    ensures n > 0 ==> exists b :: b in books && PositiveDownloads(b)
  {
    var q := Qualifying(books);
    assert q != [] ==> q[0] in q;
    |q|
  }

  /** Each stored book adds one to the count exactly when its download count is positive. */
  lemma EvaluatedCountAppend(books: seq<BookRecord>, b: BookRecord)
    ensures EvaluatedCount(books + [b]) == EvaluatedCount(books) + (if PositiveDownloads(b) then 1 else 0)
  {
    FilterAppend(books, [b], PositiveDownloads);
  }

  /** The count is zero exactly when no stored book has a positive download count. */
  lemma EvaluatedCountZero(books: seq<BookRecord>)
    ensures EvaluatedCount(books) == 0 <==> forall b :: b in books ==> !PositiveDownloads(b)
  {
    var q := Qualifying(books);
    if q != [] {
      assert q[0] in q;
    }
  }

  /**
   * The count as the source computes it: the positive test unboxes the
   * nullable download count, so a single absent count raises an exception
   * (None here) instead of leaving that book out.
   */
  function EvaluatedCountAsWritten(books: seq<BookRecord>): (r: Option<nat>)
    ensures r.None? <==> exists b :: b in books && b.downloads.None?
  {
    if books == [] then Some(0)
    else if books[0].downloads.None? then None
    else
      match EvaluatedCountAsWritten(books[1..])
      case None => None
      case Some(n) => Some(n + (if books[0].downloads.value > 0.0 then 1 else 0))
  }

  /** When every stored book has a download count, the source and the corrected count agree. */
  lemma {:induction false} AsWrittenAgreesWhenPresent(books: seq<BookRecord>)
    requires forall b :: b in books ==> b.downloads.Some?
    ensures EvaluatedCountAsWritten(books) == Some(EvaluatedCount(books))
  {
    if books != [] {
      var rest := books[1..];
      AsWrittenAgreesWhenPresent(rest);
      assert books == [books[0]] + rest;
      FilterAppend([books[0]], rest, PositiveDownloads);
      assert Qualifying(books) == Filter([books[0]], PositiveDownloads) + Qualifying(rest);
    }
  }

  /** One stored book without a download count: the source's statistics fail, the corrected count is 0. */
  lemma AbsentDownloadsFailsAsWritten()
    ensures var books := [BookRecord(1, "Dune", "en", None, None)];
            EvaluatedCountAsWritten(books).None? && EvaluatedCount(books) == 0
  {
  }
}
