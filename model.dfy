/**
 * The entities of the catalog: the decoded search payload (DatosResultados,
 * DatosLibro, DatosAutor), the stored author, the stored book row, and the
 * mutable book entity Libro with its constructor and setters.
 */
module Model {
  import opened Wrappers

  /** One author of a decoded candidate: a name and optional birth and death years. */
  datatype AuthorData = AuthorData(name: string, birthYear: Option<int>, deathYear: Option<int>)

  /**
   * One decoded candidate book. The download count is a nullable floating-point
   * number in the source; here it is an optional exact real.
   */
  datatype BookData = BookData(
    title: string,
    authors: seq<AuthorData>,
    languages: seq<string>,
    downloads: Option<real>)

  /** The decoded answer of one search: the candidates, in the order the service lists them. */
  datatype Results = Results(books: seq<BookData>)

  /** A stored author; the id is assigned by the store when the author is saved. */
  datatype Author = Author(id: nat, name: string, birthYear: Option<int>, deathYear: Option<int>)

  /** A stored book row: what the store keeps of a book entity when it is saved. */
  datatype BookRecord = BookRecord(
    id: nat,
    title: string,
    language: string,
    downloads: Option<real>,
    author: Option<Author>)

  /** The book entity: built from a decoded candidate, then given an author and an id. */
  class Book {
    var id: Option<nat>
    var title: string
    var language: string
    var downloads: Option<real>
    var author: Option<Author>

    /**
     * Building from a decoded candidate copies the title and the download
     * count, takes the first listed language, and leaves id and author unset.
     * The source indexes the language list without a check, so it must not be empty.
     */
    constructor (data: BookData)
      requires |data.languages| > 0
      ensures title == data.title
      ensures language == data.languages[0]
      ensures downloads == data.downloads
      ensures id == None && author == None
    {
      id := None;
      title := data.title;
      language := data.languages[0];
      downloads := data.downloads;
      author := None;
    }

    /** The row the store keeps once the entity has been given an id. */
    function Record(): BookRecord
      reads this
      requires id.Some?
    {
      BookRecord(id.value, title, language, downloads, author)
    }

    method SetId(x: Option<nat>)
      modifies this
      ensures id == x
      ensures title == old(title) && language == old(language)
      ensures downloads == old(downloads) && author == old(author)
    {
      id := x;
    }

    method SetTitle(x: string)
      modifies this
      ensures title == x
      ensures id == old(id) && language == old(language)
      ensures downloads == old(downloads) && author == old(author)
    {
      title := x;
    }

    method SetLanguage(x: string)
      modifies this
      ensures language == x
      ensures id == old(id) && title == old(title)
      ensures downloads == old(downloads) && author == old(author)
    {
      language := x;
    }

    method SetDownloads(x: Option<real>)
      modifies this
      ensures downloads == x
      ensures id == old(id) && title == old(title)
      ensures language == old(language) && author == old(author)
    {
      downloads := x;
    }

    method SetAuthor(x: Option<Author>)
      modifies this
      ensures author == x
      ensures id == old(id) && title == old(title)
      ensures language == old(language) && downloads == old(downloads)
    {
      author := x;
    }
  }
}
