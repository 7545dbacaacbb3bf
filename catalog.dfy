/**
 * The catalog store behind the two repositories (authors and books).
 * `Store` is its value; the functions below give the meaning of the
 * repository calls on that value, and the class `Catalog` performs them in place.
 */
module Catalog {
  import opened Wrappers
  import opened Text
  import opened Model

  /** The whole stored state; ids come from one counter per table, starting at 1. */
  datatype Store = Store(
    authors: seq<Author>,
    books: seq<BookRecord>,
    nextAuthorId: nat,
    nextBookId: nat)

  predicate TitleTaken(books: seq<BookRecord>, title: string)
  {
    exists b :: b in books && b.title == title
  }

  /** The unique column on the book title: no two rows share a title. */
  predicate UniqueTitles(books: seq<BookRecord>)
  {
    forall i, j :: 0 <= i < j < |books| ==> books[i].title != books[j].title
  }

  /**
   * The store's invariant: unique titles, distinct ids below the counters,
   * and every book's author is a stored author.
   */
  predicate WellFormed(s: Store): (r: bool)
    ensures r ==> forall b1, b2 :: b1 in s.books && b2 in s.books && b1.title == b2.title ==> b1 == b2
    ensures r ==> forall b :: b in s.books && b.author.Some? ==> b.author.value in s.authors
  {
    && UniqueTitles(s.books)
    && 0 < s.nextAuthorId && 0 < s.nextBookId
    && (forall i :: 0 <= i < |s.authors| ==> 0 < s.authors[i].id < s.nextAuthorId)
    && (forall i, j :: 0 <= i < j < |s.authors| ==> s.authors[i].id != s.authors[j].id)
    && (forall i :: 0 <= i < |s.books| ==> 0 < s.books[i].id < s.nextBookId)
    && (forall i, j :: 0 <= i < j < |s.books| ==> s.books[i].id != s.books[j].id)
    && (forall b :: b in s.books && b.author.Some? ==> b.author.value in s.authors)
  }

  /**
   * The author query "stored name contains the given name, ignoring case":
   * the first stored author, in store order, whose name matches.
   */
  function FindAuthor(authors: seq<Author>, name: string): (r: Option<Author>)
    ensures r.Some? ==> r.value in authors && ContainsIgnoreCase(r.value.name, name)
    ensures r.None? <==> forall a :: a in authors ==> !ContainsIgnoreCase(a.name, name)
    ensures r.Some? ==> exists k :: 0 <= k < |authors| && authors[k] == r.value &&
                           forall j :: 0 <= j < k ==> !ContainsIgnoreCase(authors[j].name, name)
  {
    if authors == [] then None
    else if ContainsIgnoreCase(authors[0].name, name) then Some(authors[0])
    else FindAuthor(authors[1..], name)
  }

  /**
   * Appending authors none of whose names matches does not change which stored
   * author a query finds. (When an appended name also matches, the query has
   * two matches, and the source's single-result lookup fails instead.)
   */
  lemma {:induction false} FindAuthorAppend(authors: seq<Author>, more: seq<Author>, name: string)
    requires FindAuthor(authors, name).Some?
    requires forall a :: a in more ==> !ContainsIgnoreCase(a.name, name)
    ensures FindAuthor(authors + more, name) == FindAuthor(authors, name)
  {
    assert (authors + more)[0] == authors[0];
    if !ContainsIgnoreCase(authors[0].name, name) {
      assert (authors + more)[1..] == authors[1..] + more;
      FindAuthorAppend(authors[1..], more, name);
    }
  }

  /** A newly appended author that matches is the one a query finds, when no earlier author matched. */
  lemma {:induction false} FindAuthorAppendNew(authors: seq<Author>, a: Author, name: string)
    requires FindAuthor(authors, name).None?
    requires ContainsIgnoreCase(a.name, name)
    ensures FindAuthor(authors + [a], name) == Some(a)
  {
    if authors == [] {
      assert authors + [a] == [a];
    } else {
      assert (authors + [a])[0] == authors[0];
      assert (authors + [a])[1..] == authors[1..] + [a];
      FindAuthorAppendNew(authors[1..], a, name);
    }
  }

  /** Saving an author: it gets the next id and is appended; the books are untouched. */
  function InsertAuthor(s: Store, data: AuthorData): (r: (Store, Author))
    ensures r.1.name == data.name && r.1.birthYear == data.birthYear && r.1.deathYear == data.deathYear
    ensures r.0.authors == s.authors + [r.1] && r.0.books == s.books
    ensures r.0.nextBookId == s.nextBookId
    ensures WellFormed(s) ==> WellFormed(r.0) && forall a :: a in s.authors ==> a.id != r.1.id
  {
    var a := Author(s.nextAuthorId, data.name, data.birthYear, data.deathYear);
    (Store(s.authors + [a], s.books, s.nextAuthorId + 1, s.nextBookId), a)
  }

  /**
   * Saving a book: rejected when the title is already stored (the store is then
   * unchanged); otherwise the row gets the next id and is appended.
   */
  function InsertBook(s: Store, title: string, language: string, downloads: Option<real>, author: Option<Author>)
    : (r: (Store, Option<BookRecord>))
    ensures r.1.None? <==> TitleTaken(s.books, title)
    ensures r.1.None? ==> r.0 == s
    ensures r.1.Some? ==> r.0.books == s.books + [r.1.value] && r.0.authors == s.authors
    ensures r.1.Some? ==> r.1.value == BookRecord(s.nextBookId, title, language, downloads, author)
    ensures r.0.authors == s.authors && r.0.nextAuthorId == s.nextAuthorId
    ensures WellFormed(s) && (author.Some? ==> author.value in s.authors) ==> WellFormed(r.0)
  {
    if TitleTaken(s.books, title) then (s, None)
    else
      var b := BookRecord(s.nextBookId, title, language, downloads, author);
      (Store(s.authors, s.books + [b], s.nextAuthorId, s.nextBookId + 1), Some(b))
  }

  /** The store, updated in place by the repository calls. */
  class Catalog {
    var authors: seq<Author>
    var books: seq<BookRecord>
    var nextAuthorId: nat
    var nextBookId: nat

    function Snapshot(): Store
      reads this
    {
      Store(authors, books, nextAuthorId, nextBookId)
    }

    ghost predicate Valid()
      reads this
    {
      WellFormed(Snapshot())
    }

    constructor ()
      ensures Valid()
      ensures authors == [] && books == []
    {
      authors := [];
      books := [];
      nextAuthorId := 1;
      nextBookId := 1;
    }

    /** `findByNombreContainsIgnoreCase`: reads the store and changes nothing. */
    function FindAuthorByName(name: string): (r: Option<Author>)
      reads this
      ensures r.Some? ==> r.value in authors && ContainsIgnoreCase(r.value.name, name)
      ensures r.None? <==> forall a :: a in authors ==> !ContainsIgnoreCase(a.name, name)
    {
      FindAuthor(authors, name)
    }

    /** `save` on the author repository: returns the author with its new id. */
    method SaveAuthor(data: AuthorData) returns (saved: Author)
      requires Valid()
      modifies this
      ensures Valid()
      ensures (Snapshot(), saved) == InsertAuthor(old(Snapshot()), data)
    {
      saved := Author(nextAuthorId, data.name, data.birthYear, data.deathYear);
      authors := authors + [saved];
      nextAuthorId := nextAuthorId + 1;
    }

    /**
     * `save` on the book repository for a new entity: the row is stored and the
     * entity receives its id, or the unique title column rejects it and nothing changes.
     */
    method SaveBook(book: Book) returns (ok: bool)
      requires Valid()
      requires book.id.None?
      requires book.author.Some? ==> book.author.value in authors
      modifies this, book
      ensures Valid()
      ensures var r := InsertBook(old(Snapshot()), old(book.title), old(book.language),
                                  old(book.downloads), old(book.author));
              && Snapshot() == r.0
              && ok == r.1.Some?
              && book.id == (if ok then Some(r.1.value.id) else None)
      ensures book.title == old(book.title) && book.language == old(book.language)
      ensures book.downloads == old(book.downloads) && book.author == old(book.author)
    {
      if TitleTaken(books, book.title) {
        ok := false;
      } else {
        var row := BookRecord(nextBookId, book.title, book.language, book.downloads, book.author);
        books := books + [row];
        book.SetId(Some(nextBookId));
        nextBookId := nextBookId + 1;
        ok := true;
      }
    }
  }
}
