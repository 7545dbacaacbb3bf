# Literalura catalog core, modelled in Dafny

Literalura is a console book catalog. A search by title asks a public book
metadata service for candidates, and the first candidate is stored together
with its first author. The catalog can then list the authors alive in a given
year and report download statistics. This project models that core:

- `model.dfy` (module `Model`) holds the decoded search payload (`Results`,
  `BookData`, `AuthorData`), the stored `Author` and `BookRecord` values, and
  the mutable book entity `Book` (`Libro`): its constructor from decoded data
  and its setters.
- `catalog.dfy` (module `Catalog`) models the two repositories as one store.
  `Store` is the store's value. `WellFormed` is its invariant: unique titles,
  distinct ids below the counters, and every book's author is stored.
  `FindAuthor`, `InsertAuthor` and `InsertBook` give the meaning of the
  repository calls. The class `Catalog` performs them in place.
- `search.dfy` (module `Search`) models search-and-persist (`buscarLibroWeb`).
  `Persist` is the specification on store values. `SearchAndPersist` is the
  step-by-step method, proved equal to `Persist`. The lemmas state author
  reuse, at most one new author and one new book per call, duplicate titles,
  and idempotence of a repeated call.
- `queries.dfy` (module `Queries`) models the living-authors filter and the
  set of books the statistics count.
- `text.dfy` (ASCII case folding and substring search), `seqs.dfy` (an
  order-preserving filter) and `wrappers.dfy` (`Option`) are helpers.

Three behaviours of the code shape the model:

- A candidate with no author makes the source index an empty list outside
  the `try` block. The exception escapes the operation. The model reports
  `Aborted` with the store unchanged.
- The `catch` around building and saving the book takes every exception as
  "already exists". A candidate with an empty language list fails inside the
  book constructor, so it is also reported as `AlreadyExists`. An author
  created earlier in the same call stays stored.
- The statistics filter fails on a book whose download count is absent. See
  "## Findings".

## Model

| member | source | states |
|---|---|---|
| `Text.LowerChar` | literalura/src/main/java/com/aluracursos/literalura/LiteraluraApplication.java:97 | an upper-case ASCII letter folds to the lower-case letter at the same alphabet position; the result is a lower-case letter exactly for letters; every other character is kept |
| `Text.Lower` | literalura/src/main/java/com/aluracursos/literalura/LiteraluraApplication.java:97 | case folding keeps the length and folds each character on its own |
| `Text.LowerIdempotent` | literalura/src/main/java/com/aluracursos/literalura/LiteraluraApplication.java:97 | folding twice equals folding once |
| `Text.ContainsAt` | literalura/src/main/java/com/aluracursos/literalura/LiteraluraApplication.java:97 | the left-to-right containment search holds iff some offset of the stored name starts with the query |
| `Text.ContainsIgnoreCase` | literalura/src/main/java/com/aluracursos/literalura/LiteraluraApplication.java:97 | the name-contains-query match ignoring case: a query longer than the name never matches, and a query that is a prefix of the name once both are folded always matches |
| `Text.ContainsIgnoreCaseAt` | literalura/src/main/java/com/aluracursos/literalura/LiteraluraApplication.java:97 | the case-insensitive match holds iff some offset of the folded stored name starts with the folded query |
| `Text.ContainsIgnoreCaseSelf` | literalura/src/main/java/com/aluracursos/literalura/LiteraluraApplication.java:97-102 | every name matches itself ignoring case, so an author saved under a name is found by that name |
| `Text.ContainsIgnoreCaseFolds` | literalura/src/main/java/com/aluracursos/literalura/LiteraluraApplication.java:97 | the match does not change when either side is folded to lower case first |
| `Seqs.Filter` | literalura/src/main/java/com/aluracursos/literalura/LiteraluraApplication.java:136-138 | a stream filter keeps exactly the elements that pass the test, and never more elements than it was given |
| `Seqs.FilterAppend` | literalura/src/main/java/com/aluracursos/literalura/LiteraluraApplication.java:180-181 | filtering a concatenation is the concatenation of the filtered parts, so store order is kept |
| `Seqs.FilterFilter` | literalura/src/main/java/com/aluracursos/literalura/LiteraluraApplication.java:136-138 | two chained filters equal one filter on the conjunction of the two tests, in the same order |
| `Model.Book.constructor` | literalura/src/main/java/com/aluracursos/literalura/model/Libro.java:22-26 | a book built from decoded data copies the title and the possibly absent download count, takes the first language, and has no id and no author |
| `Model.Book.SetId` | literalura/src/main/java/com/aluracursos/literalura/model/Libro.java:36 | sets the id; every other field is unchanged |
| `Model.Book.SetTitle` | literalura/src/main/java/com/aluracursos/literalura/model/Libro.java:38 | sets the title; every other field is unchanged |
| `Model.Book.SetLanguage` | literalura/src/main/java/com/aluracursos/literalura/model/Libro.java:40 | sets the language; every other field is unchanged |
| `Model.Book.SetDownloads` | literalura/src/main/java/com/aluracursos/literalura/model/Libro.java:42 | sets the download count; every other field is unchanged |
| `Model.Book.SetAuthor` | literalura/src/main/java/com/aluracursos/literalura/model/Libro.java:44 | sets the author; title, language, downloads and id are unchanged |
| `Catalog.WellFormed` | literalura/src/main/java/com/aluracursos/literalura/model/Libro.java:12-18 | in a well-formed store a title identifies at most one stored book (the unique title column), and every book's author is a stored author |
| `Catalog.FindAuthor` | literalura/src/main/java/com/aluracursos/literalura/LiteraluraApplication.java:97 | the result is a stored author whose name contains the query ignoring case, and the first such in store order; it is absent iff no stored author matches |
| `Catalog.FindAuthorAppend` | literalura/src/main/java/com/aluracursos/literalura/LiteraluraApplication.java:97-102 | saving more authors whose names do not match a query never changes which author that query finds |
| `Catalog.FindAuthorAppendNew` | literalura/src/main/java/com/aluracursos/literalura/LiteraluraApplication.java:101-102 | when no stored author matched, a newly saved matching author is the one the query finds afterwards |
| `Catalog.InsertAuthor` | literalura/src/main/java/com/aluracursos/literalura/LiteraluraApplication.java:102 | saving an author appends it with the given name and years and a fresh id, leaves the books alone, and keeps the store invariant |
| `Catalog.InsertBook` | literalura/src/main/java/com/aluracursos/literalura/model/Libro.java:12-13 | saving a book fails iff its title is already stored, and then changes nothing; otherwise exactly that row is appended with a fresh id; unique titles are kept |
| `Catalog.Catalog.FindAuthorByName` | literalura/src/main/java/com/aluracursos/literalura/LiteraluraApplication.java:166-175 | the author lookup returns a stored matching author, and nothing iff no stored author matches |
| `Catalog.Catalog.SaveAuthor` | literalura/src/main/java/com/aluracursos/literalura/LiteraluraApplication.java:102 | the author repository's save, in place, as `InsertAuthor` states; the invariant is kept |
| `Catalog.Catalog.SaveBook` | literalura/src/main/java/com/aluracursos/literalura/LiteraluraApplication.java:108 | the book repository's save, in place, as `InsertBook` states; on success the entity receives the row's id, and its other fields do not change |
| `Search.ResolveAuthor` | literalura/src/main/java/com/aluracursos/literalura/LiteraluraApplication.java:96-103 | find-or-create: a matching stored author is reused with the store unchanged; otherwise exactly one author with the candidate's name and years is appended; the resolved author is stored and matches the name |
| `Search.Persist` | literalura/src/main/java/com/aluracursos/literalura/LiteraluraApplication.java:83-117 | no candidate gives NotFound and no author gives Aborted, both with the store unchanged; at most one author and at most one book are added; "already exists" holds iff the language list is empty or the title is stored; a saved row has the candidate's title, first language and downloads, and a stored matching author; the invariant is kept |
| `Search.SearchAndPersist` | literalura/src/main/java/com/aluracursos/literalura/LiteraluraApplication.java:83-117 | the step-by-step operation on the catalog ends in the state and outcome `Persist` gives, and keeps the invariant |
| `Search.OnlyFirstCandidate` | literalura/src/main/java/com/aluracursos/literalura/LiteraluraApplication.java:89-93 | only the first candidate matters: dropping the others changes neither outcome nor store |
| `Search.MatchingAuthorReused` | literalura/src/main/java/com/aluracursos/literalura/LiteraluraApplication.java:97-100 | when a stored author matches, the author list is unchanged and the saved book refers to that author |
| `Search.NewAuthorAttached` | literalura/src/main/java/com/aluracursos/literalura/LiteraluraApplication.java:101-107 | when no author matches, exactly one author with the candidate's name is appended, and the saved book refers to it |
| `Search.DuplicateTitleKeepsAuthor` | literalura/src/main/java/com/aluracursos/literalura/LiteraluraApplication.java:102-112 | a stored title gives "already exists" and no new book, while an author created in the same call stays stored |
| `Search.SameAuthorStoredOnce` | literalura/src/main/java/com/aluracursos/literalura/LiteraluraApplication.java:97-103 | after one operation has resolved an author name, a second operation with the same name adds no author, and when both save a book, both books refer to the same author record |
| `Search.LaterSearchKeepsMatch` | literalura/src/main/java/com/aluracursos/literalura/LiteraluraApplication.java:97-103 | a name that finds a stored author keeps finding that same author after a later search-and-persist that stores no other author matching the name |
| `Search.AmbiguousNameReachable` | literalura/src/main/java/com/aluracursos/literalura/LiteraluraApplication.java:97-103 | storing a book by "Ann" and then one by "Anna" leaves two stored authors whose names both contain "Ann", so a later lookup of "Ann" has two matches |
| `Search.RepeatChangesNothing` | literalura/src/main/java/com/aluracursos/literalura/LiteraluraApplication.java:83-117 | repeating an operation on the store it produced changes nothing and saves no book; a title saved the first time is reported as existing the second time |
| `Search.DuneScenario` | literalura/src/main/java/com/aluracursos/literalura/LiteraluraApplication.java:83-117 | on an empty store, "Dune" by Frank Herbert is saved with one author and one book; repeating the search reports it as existing and changes nothing |
| `Queries.BornBy` | literalura/src/main/java/com/aluracursos/literalura/LiteraluraApplication.java:137 | the first filter rejects an unknown birth year, and otherwise keeps the author iff born in or before the year |
| `Queries.NotDeadBefore` | literalura/src/main/java/com/aluracursos/literalura/LiteraluraApplication.java:138 | the second filter keeps an unknown death year, and otherwise keeps the author iff dead in or after the year |
| `Queries.LivingAuthors` | literalura/src/main/java/com/aluracursos/literalura/LiteraluraApplication.java:135-139 | an author is listed iff stored, the birth year is known and not after the year, and the death year is unknown or not before it; an unknown birth year is never listed |
| `Queries.LivingAuthorsIsAliveFilter` | literalura/src/main/java/com/aluracursos/literalura/LiteraluraApplication.java:136-138 | the two chained filters list the same authors, in store order, as the single alive-in-year test |
| `Queries.Qualifying` | literalura/src/main/java/com/aluracursos/literalura/LiteraluraApplication.java:180-183 | a book is counted in the statistics iff its download count is present and positive |
| `Queries.EvaluatedCount` | literalura/src/main/java/com/aluracursos/literalura/LiteraluraApplication.java:188 | the number of records evaluated is at most the number of stored books, and is positive only when some stored book has a positive download count |
| `Queries.EvaluatedCountAppend` | literalura/src/main/java/com/aluracursos/literalura/LiteraluraApplication.java:180-188 | each book adds one to the count of evaluated records exactly when its download count is positive; books with zero downloads add nothing |
| `Queries.EvaluatedCountZero` | literalura/src/main/java/com/aluracursos/literalura/LiteraluraApplication.java:180-188 | the count is zero iff no stored book has a positive download count |
| `Queries.EvaluatedCountAsWritten` | literalura/src/main/java/com/aluracursos/literalura/LiteraluraApplication.java:181 | the statistics as written fail iff some stored book has no download count |
| `Queries.AsWrittenAgreesWhenPresent` | literalura/src/main/java/com/aluracursos/literalura/LiteraluraApplication.java:180-188 | when every book has a download count, the statistics as written give the corrected count |
| `Queries.AbsentDownloadsFailsAsWritten` | literalura/src/main/java/com/aluracursos/literalura/LiteraluraApplication.java:181 | one stored book without a download count makes the statistics as written fail, where the corrected count is 0 |

## Findings

| source | as written | input that shows it | evidently intended | confidence | as-written member | corrected member |
|---|---|---|---|---|---|---|
| literalura/src/main/java/com/aluracursos/literalura/LiteraluraApplication.java:181 | the positive-downloads test unboxes the nullable download count, so a book without a count makes the unboxing throw, which ends the session | a store holding one book whose download count is absent | books without a download count are left out of the statistics | medium, not executed | `Queries.EvaluatedCountAsWritten` (shown by `Queries.AbsentDownloadsFailsAsWritten`) | `Queries.Qualifying` (proved by `Queries.EvaluatedCountZero` and `Queries.EvaluatedCountAppend`) |

## Left out

- The HTTP fetch, the search URL and the JSON decoding are outside the model. `SearchAndPersist` takes the decoded `Results` as a parameter.
- The menu loop, keyboard input, all printing and `toString` are console I/O. An `Aborted` outcome stands for the exception that leaves the operation; the loop that it ends is not modelled.
- Listing all books and all authors are plain reads of the `Catalog` fields followed by printing, so they have no members of their own.
- The by-language and top-10 queries are derived by the framework from method names. No code for them is shown, and the top-10 order is over floating-point numbers.
- Average, minimum and maximum of the statistics are floating-point results. Only the qualifying books and their count are modelled.
- Download counts are exact reals here, not doubles. NaN and rounding are not modelled.
- Framework wiring and database-generated ids are not modelled. Each table's ids come from a counter that starts at 1.
- `Autor.java` is not part of this model. An author is a value with id, name and optional birth and death years. Building one from decoded data is assumed to copy those three fields.
- `Catalog.FindAuthor`: when several stored names contain the query, the repository's single-result lookup raises an error. The model returns the first match in store order instead.
- `Search.AmbiguousNameReachable` shows that such a state is reachable: after a book by "Ann" and a book by "Anna" are stored, looking up "Ann" matches both. `Catalog.FindAuthorAppend` and `Search.LaterSearchKeepsMatch` therefore require that no newly stored name matches the query; without that, the source's lookup would fail.
- Case folding covers ASCII letters only; the database folds other letters too.
- The store's only save failure is a title conflict. Other storage errors are not modelled. In the source, another failure of the book save would also be reported as "already exists", since that save is inside the `try`; a failure of the author save is outside the `try`, so its exception would escape the operation as in the `Aborted` case.
- Stored rows are values taken when the book is saved. A setter called later on a saved entity does not reach the row, and managed-entity identity is not modelled.
- `Model.Book.constructor` requires a non-empty language list, since the source indexes it without a check. Its one caller handles the empty case as the source's `catch` does.
- `Catalog.Catalog.SaveBook` requires a new entity (no id yet) whose author is already stored, as at its one call site. Updating an existing entity through `save` is not modelled.
- The no-argument constructor of `Libro`, which the framework uses, and the getters, which only read fields, have no members of their own. Null strings are not modelled.
