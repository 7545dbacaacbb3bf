/**
 * Search-and-persist: the first decoded candidate is stored together with
 * its first author, reusing a stored author whose name contains the given
 * name (ignoring case) and creating one otherwise. `Persist` gives the
 * meaning of one such operation on the store's value; `SearchAndPersist`
 * performs it on the catalog step by step.
 */
module Search {
  import opened Wrappers
  import opened Text
  import opened Model
  import opened Catalog

  /** What the operation reports. */
  datatype Outcome =
    | NotFound                 // the search returned no candidate
    | Aborted                  // the candidate lists no author: the index error escapes the operation
    | AlreadyExists            // the book could not be built or saved
    | Saved(book: BookRecord)  // the new row

  /** Find-or-create: the first stored author whose name contains the given name, else a new author. */
  function ResolveAuthor(s: Store, data: AuthorData): (r: (Store, Author))
    ensures r.1 in r.0.authors && ContainsIgnoreCase(r.1.name, data.name)
    ensures r.0.books == s.books && r.0.nextBookId == s.nextBookId
    ensures FindAuthor(s.authors, data.name).Some? ==> r.0 == s
    ensures FindAuthor(s.authors, data.name).None? ==>
              r.0.authors == s.authors + [r.1] && r.1.name == data.name &&
              r.1.birthYear == data.birthYear && r.1.deathYear == data.deathYear
    ensures WellFormed(s) ==> WellFormed(r.0)
  {
    var found := FindAuthor(s.authors, data.name);
    if found.Some? then (s, found.value)
    else
      ContainsIgnoreCaseSelf(data.name);
      InsertAuthor(s, data)
  }

  /** One search-and-persist operation on the store, given the decoded search results. */
  function Persist(s: Store, results: Results): (r: (Store, Outcome))
    ensures r.1.NotFound? <==> |results.books| == 0
    ensures r.1.Aborted? <==> |results.books| > 0 && |results.books[0].authors| == 0
    ensures r.1.NotFound? || r.1.Aborted? ==> r.0 == s
    ensures s.authors <= r.0.authors && |r.0.authors| <= |s.authors| + 1
    ensures r.0.books == s.books + (if r.1.Saved? then [r.1.book] else [])
    ensures r.1.AlreadyExists? <==>
              && |results.books| > 0 && |results.books[0].authors| > 0
              && (|results.books[0].languages| == 0 || TitleTaken(s.books, results.books[0].title))
    ensures r.1.Saved? ==>
              && r.1.book.title == results.books[0].title
              && r.1.book.language == results.books[0].languages[0]
              && r.1.book.downloads == results.books[0].downloads
              && r.1.book.author.Some? && r.1.book.author.value in r.0.authors
              && ContainsIgnoreCase(r.1.book.author.value.name, results.books[0].authors[0].name)
    ensures WellFormed(s) ==> WellFormed(r.0)
  {
    if |results.books| == 0 then (s, NotFound)
    else
      var data := results.books[0];
      if |data.authors| == 0 then (s, Aborted)
      else
        var (s1, author) := ResolveAuthor(s, data.authors[0]);
        if |data.languages| == 0 then (s1, AlreadyExists)
        else
          var (s2, row) := InsertBook(s1, data.title, data.languages[0], data.downloads, Some(author));
          if row.Some? then (s2, Saved(row.value)) else (s2, AlreadyExists)
  }

  /**
   * The operation as the application runs it: the store is read and saved
   * to step by step; the HTTP fetch and the JSON decoding have already
   * produced `results`.
   */
  method SearchAndPersist(catalog: Catalog, results: Results) returns (outcome: Outcome)
    requires catalog.Valid()
    modifies catalog
    ensures catalog.Valid()
    ensures (catalog.Snapshot(), outcome) == Persist(old(catalog.Snapshot()), results)
  {
    if |results.books| == 0 {
      return NotFound;
    }
    var data := results.books[0];
    if |data.authors| == 0 {
      return Aborted;
    }
    var author: Author;
    var existing := catalog.FindAuthorByName(data.authors[0].name);
    if existing.Some? {
      author := existing.value;
    } else {
      author := catalog.SaveAuthor(data.authors[0]);
    }
    assert (catalog.Snapshot(), author) == ResolveAuthor(old(catalog.Snapshot()), data.authors[0]);
    // Building the entity is inside the try block: an empty language list is reported as a failed save.
    if |data.languages| == 0 {
      return AlreadyExists;
    }
    var book := new Book(data);
    book.SetAuthor(Some(author));
    var ok := catalog.SaveBook(book);
    if ok {
      outcome := Saved(book.Record());
    } else {
      outcome := AlreadyExists;
    }
  }

  /** Only the first candidate is used: the rest of the results never matter. */
  lemma OnlyFirstCandidate(s: Store, results: Results)
    requires |results.books| > 0
    ensures Persist(s, results) == Persist(s, Results(results.books[..1]))
  {
  }

  /** A stored author that matches is reused: the author list is unchanged. */
  lemma MatchingAuthorReused(s: Store, results: Results)
    requires |results.books| > 0 && |results.books[0].authors| > 0
    requires FindAuthor(s.authors, results.books[0].authors[0].name).Some?
    ensures Persist(s, results).0.authors == s.authors
    ensures Persist(s, results).1.Saved? ==>
              Persist(s, results).1.book.author == FindAuthor(s.authors, results.books[0].authors[0].name)
  {
  }

  /** With no matching author, exactly one author is appended, and it is the one the new book refers to. */
  lemma NewAuthorAttached(s: Store, results: Results)
    requires |results.books| > 0 && |results.books[0].authors| > 0
    requires FindAuthor(s.authors, results.books[0].authors[0].name).None?
    ensures var r := Persist(s, results);
            && |r.0.authors| == |s.authors| + 1
            && r.0.authors[..|s.authors|] == s.authors
            && r.0.authors[|s.authors|].name == results.books[0].authors[0].name
            && (r.1.Saved? ==> r.1.book.author == Some(r.0.authors[|s.authors|]))
  {
  }

  /**
   * A title already stored is reported as existing and adds no book, while an
   * author created by the same operation stays stored.
   */
  lemma DuplicateTitleKeepsAuthor(s: Store, results: Results)
    requires |results.books| > 0 && |results.books[0].authors| > 0
    requires TitleTaken(s.books, results.books[0].title)
    ensures Persist(s, results).1 == AlreadyExists
    ensures Persist(s, results).0.books == s.books
    ensures FindAuthor(s.authors, results.books[0].authors[0].name).None? ==>
              |Persist(s, results).0.authors| == |s.authors| + 1
  {
  }

  /**
   * Author resolution is idempotent: once an operation has resolved an author
   * name, a later operation for the same name adds no author, and when both
   * save a book, both books refer to the same author record.
   */
  lemma SameAuthorStoredOnce(s: Store, first: Results, second: Results)
    requires |first.books| > 0 && |first.books[0].authors| > 0
    requires |second.books| > 0 && |second.books[0].authors| > 0
    requires second.books[0].authors[0].name == first.books[0].authors[0].name
    ensures var (s1, o1) := Persist(s, first);
            var (s2, o2) := Persist(s1, second);
            && s2.authors == s1.authors
            && (o1.Saved? && o2.Saved? ==> o1.book.author == o2.book.author)
  {
    var name := first.books[0].authors[0].name;
    var (s1, author1) := ResolveAuthor(s, first.books[0].authors[0]);
    if FindAuthor(s.authors, name).None? {
      FindAuthorAppendNew(s.authors, author1, name);
    }
    assert FindAuthor(s1.authors, name) == Some(author1);
  }

  /**
   * A name that finds a stored author keeps finding that same author after a
   * later operation that stores no other author whose name matches it.
   */
  lemma LaterSearchKeepsMatch(s: Store, results: Results, name: string)
    requires FindAuthor(s.authors, name).Some?
    requires forall a :: a in Persist(s, results).0.authors[|s.authors|..] ==> !ContainsIgnoreCase(a.name, name)
    ensures FindAuthor(Persist(s, results).0.authors, name) == FindAuthor(s.authors, name)
  {
    var s1 := Persist(s, results).0;
    var more := s1.authors[|s.authors|..];
    assert s1.authors == s.authors + more;
    FindAuthorAppend(s.authors, more, name);
  }

  /**
   * Two operations can leave two stored authors that match one query: "Ann" is
   * stored first, and "Anna" does not match it, so "Anna" is stored as a new
   * author; both names then contain "Ann". The source's single-result lookup
   * fails on such a query, where `FindAuthor` returns the first match.
   */
  lemma AmbiguousNameReachable()
    ensures var ann := Results([BookData("Emma", [AuthorData("Ann", None, None)], ["en"], None)]);
            var anna := Results([BookData("Persuasion", [AuthorData("Anna", None, None)], ["en"], None)]);
            var s2 := Persist(Persist(Store([], [], 1, 1), ann).0, anna).0;
            && |s2.authors| == 2
            && ContainsIgnoreCase(s2.authors[0].name, "Ann")
            && ContainsIgnoreCase(s2.authors[1].name, "Ann")
  {
    var ann := Results([BookData("Emma", [AuthorData("Ann", None, None)], ["en"], None)]);
    var anna := Results([BookData("Persuasion", [AuthorData("Anna", None, None)], ["en"], None)]);
    var s1 := Persist(Store([], [], 1, 1), ann).0;
    assert s1.authors == [Author(1, "Ann", None, None)];
    assert !ContainsIgnoreCase("Ann", "Anna");
    var s2 := Persist(s1, anna).0;
    assert s2.authors == s1.authors + [Author(2, "Anna", None, None)];
    assert Lower("Ann") <= Lower("Anna") by {
      assert Lower("Anna")[..3] == Lower("Ann");
    }
    ContainsIgnoreCaseSelf("Ann");
  }

  /**
   * Repeating an operation on the store it produced changes nothing more, and
   * never saves a second book: storing a title twice reports it as existing.
   */
  lemma RepeatChangesNothing(s: Store, results: Results)
    ensures var (s1, o1) := Persist(s, results);
            var (s2, o2) := Persist(s1, results);
            && s2 == s1
            && !o2.Saved?
            && (o1.Saved? ==> o2 == AlreadyExists)
  {
  }

  /**
   * On an empty store, a search whose first candidate is "Dune" by Frank
   * Herbert stores one author and one book; running it again reports the
   * book as existing and stores nothing more.
   */
  lemma DuneScenario()
    ensures var herbert := AuthorData("Frank Herbert", Some(1920), Some(1986));
            var dune := BookData("Dune", [herbert], ["en"], Some(500000.0));
            var (s1, o1) := Persist(Store([], [], 1, 1), Results([dune]));
            var (s2, o2) := Persist(s1, Results([dune]));
            && o1 == Saved(BookRecord(1, "Dune", "en", Some(500000.0), Some(Author(1, "Frank Herbert", Some(1920), Some(1986)))))
            && |s1.authors| == 1 && |s1.books| == 1
            && o2 == AlreadyExists && s2 == s1
  {
  }
}
