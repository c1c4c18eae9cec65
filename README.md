# Library catalog: a verified model

This project models the book catalog of the console library manager `mini`.
A `Library` holds its books in a list, in the order they were added. Each
book has an id, a title, an author and an issued flag. New books start out
available. The library can:

- add a book, refusing an id it already holds;
- display all books in insertion order;
- issue a book or return it, which flips its flag;
- search titles and authors case-insensitively;
- remove a book.

Every operation that takes an id scans the list from the front and stops at
the first book with that id.

The model has three modules:

- `Text` (text.dfy): lower-casing and substring containment, the two string
  operations the search uses. `Contains` is proved equal to an independent
  definition: `k` occurs in `s` at some position.
- `Catalog` (catalog.dfy): `Book`, the `Outcome` of each operation (one
  value per message the library prints), and a pure function per operation.
  Each function gives the outcome and the resulting list. The lemmas here
  state what the operations mean:
  - the no-duplicate-ids invariant and its preservation;
  - the exact effect of each operation, and that nothing else changes;
  - the issue/return round trips;
  - membership, order and case-insensitivity of search.
- `Mini` (library.dfy): the class `Library`. It has a `books: seq<Book>`
  field and one method per operation. Each method that takes an id
  (`AddBook`, `IssueBook`, `ReturnBook`, `RemoveBook`) is the source's
  front-to-back loop with an early exit; `DisplayBooks` and `SearchBook`
  run through the whole list. Each is proved to return the
  outcome, and leave the list, that the matching `Catalog` function gives.
  `Valid()` (no two books share an id) holds after the constructor and after
  every mutating method. `DuneSession` and `TolkienSearch` are client methods, with `Catalog.TolkienMatches` the lemma the latter needs.
  They follow sessions at the library through the method contracts alone.

Outcomes and the messages they stand for: `Added` / `DuplicateId` (add),
`Issued` / `AlreadyIssued` / `NotFound` (issue), `Returned` / `NotIssued` /
`NotFound` (return), `Removed` / `NotFound` (remove). A search returns the
matching books; an empty result is the "no matching books" message.

## Model

| member | source | states |
|---|---|---|
| `Catalog.IndexOf` | Mini.java:99-109 | the scan by id finds a book exactly when some book has that id, and stops at the first such book |
| `Catalog.AddDuplicate` | Mini.java:55-59 | adding an id already present gives `DuplicateId` and leaves the catalog completely unchanged |
| `Catalog.AddFresh` | Mini.java:55-67 | adding a fresh id gives `Added` and appends (line 67) exactly one book built by the constructor at Mini.java:23-28: that id, title and author, not issued; earlier books keep their places |
| `Catalog.AddPreservesUnique` | Mini.java:55-67 | add keeps "no two books share an id" |
| `Catalog.IndexOfSameRecords` | Mini.java:99-100 | the scan depends only on the ids, so flipping flags does not move it |
| `Catalog.SameRecordsPreserveUnique` | Mini.java:99-110 | changing only flags keeps ids unique |
| `Catalog.IssueKeepsRecords` | Mini.java:99-110 | issue never changes the length, order, ids, titles or authors |
| `Catalog.ReturnKeepsRecords` | Mini.java:121-132 | return never changes the length, order, ids, titles or authors |
| `Catalog.IssueEffect` | Mini.java:94-111 | with unique ids: `NotFound` iff the id is absent; `Issued` iff its book was available; `AlreadyIssued` iff it was issued. Only on `Issued` does the catalog change, and then each book's flag becomes "was issued, or has this id" |
| `Catalog.ReturnEffect` | Mini.java:116-133 | with unique ids: `NotFound` iff the id is absent; `Returned` iff its book was issued; `NotIssued` iff it was available. Only on `Returned` does the catalog change, and then each book's flag becomes "was issued, and does not have this id" |
| `Catalog.IssuePreservesUnique` | Mini.java:99-110 | issue keeps ids unique |
| `Catalog.ReturnPreservesUnique` | Mini.java:121-132 | return keeps ids unique |
| `Catalog.IssueThenReturn` | Mini.java:101-102 | issuing an available book and then returning it gives `Returned` and restores the original catalog |
| `Catalog.ReturnThenIssue` | Mini.java:123-124 | returning an issued book and then issuing it gives `Issued` and restores the original catalog |
| `Catalog.IssueTwice` | Mini.java:101-105 | a second issue of the book just issued gives `AlreadyIssued` and changes nothing |
| `Catalog.RemoveEffect` | Mini.java:164-177 | `Removed` iff the id is present. Then the catalog is one shorter: the first book with the id is cut out and the others keep their order. `NotFound` iff the id is absent, and then the catalog is unchanged |
| `Catalog.RemovePreservesUnique` | Mini.java:169-173 | remove keeps ids unique |
| `Catalog.RemoveErasesId` | Mini.java:169-176 | with unique ids, no book carries the id after a remove |
| `Catalog.RemoveThenAdd` | Mini.java:55-67 | once removed, an id is accepted by add again |
| `Catalog.SearchMembership` | Mini.java:145-153 | a book is found iff it is in the catalog and its lower-cased title or author contains the lower-cased keyword |
| `Catalog.SearchConcat` | Mini.java:145-153 | search keeps catalog order: the result for a catalog in two parts is the results for the parts in turn |
| `Catalog.SearchLength` | Mini.java:145-153 | a search finds at most as many books as the catalog holds |
| `Catalog.SearchEmptyKeyword` | Mini.java:142-146 | the empty keyword matches every book, so searching for it yields the whole catalog in order |
| `Catalog.SearchIgnoresKeywordCase` | Mini.java:142 | keywords that lower-case alike find the same books |
| `Catalog.MatchesIgnoresBookCase` | Mini.java:146 | books whose titles and authors lower-case alike match the same keywords |
| `Catalog.SearchLoweredKeyword` | Mini.java:142 | lower-casing the keyword before the scan finds the same books as matching case-insensitively |
| `Catalog.SearchAfterRemove` | Mini.java:169-176 | with unique ids, no search after a remove returns a book with the removed id |
| `Text.LowerChar` | Mini.java:142 | the lower-cased character is never an upper-case letter; non-letters and lower-case letters are kept; upper-case letters move to their lower-case counterparts |
| `Text.LowerIdempotent` | Mini.java:142 | lower-casing twice is lower-casing once |
| `Text.Contains` | Mini.java:146 | `contains` holds iff the keyword occurs in the text at some position |
| `Text.OccursLater` | Mini.java:146 | if the keyword is not a prefix, it occurs in the text iff it occurs in the text after its first character |
| `Text.ContainsEmpty` | Mini.java:146 | the empty keyword is contained in every text |
| `Catalog.TolkienMatches` | Mini.java:142-153 | a search for "tolkien" finds a catalog's only book when its author is "J. R. R. Tolkien" |
| `Mini.Library.constructor` | Mini.java:41 | a new library is empty and satisfies the unique-id invariant |
| `Mini.Library.AddBook` | Mini.java:47-73 | the outcome and the new catalog are those of `Catalog.Add` on the old catalog; the unique-id invariant is kept |
| `Mini.Library.DisplayBooks` | Mini.java:78-89 | the books shown are the whole catalog in insertion order, and none when it is empty |
| `Mini.Library.IssueBook` | Mini.java:94-111 | the outcome and the new catalog are those of `Catalog.Issue` on the old catalog; the unique-id invariant is kept |
| `Mini.Library.ReturnBook` | Mini.java:116-133 | the outcome and the new catalog are those of `Catalog.Return` on the old catalog; the unique-id invariant is kept |
| `Mini.Library.SearchBook` | Mini.java:138-159 | the books returned are `Catalog.Search` of the catalog; the catalog is not modified |
| `Mini.Library.RemoveBook` | Mini.java:164-177 | the outcome and the new catalog are those of `Catalog.Remove` on the old catalog; the unique-id invariant is kept |

Two details the model takes from the code:

- Lookups stop at the first book with the id (Mini.java:99-107, 121-129, 169-173).
  So without the unique-id invariant, issue, return and remove act on the first match only.
- The keyword is lower-cased once before the scan (Mini.java:142).

## Left out

- Console input: the `Scanner` reads and buffer clearing (Mini.java:42, 51-52, 63, 65, 97, 119, 139, 142, 167). The id, title, author and keyword are method parameters instead.
- Non-numeric input: the `InputMismatchException` handling in `addBook` (Mini.java:69-72), and the same exception escaping `issueBook`, `returnBook` and `removeBook`. These are input parsing, not catalog logic.
- Printing: `Book.displayBook`'s column layout (Mini.java:31-34), the table headers (Mini.java:84-85, 148-149) and the messages. Each message is an `Outcome` value; the books a listing or search prints are returned as a sequence.
- The menu loop in `Mini.main` (Mini.java:185-223). It is the user-interface driver.
- `Text.Lower`: lower-cases ASCII letters only. Java's `String.toLowerCase` also folds other Unicode letters and depends on the default locale.
- Books as shared objects: in the source, issue and return set the flag on a `Book` object inside the list (Mini.java:102, 124). The model replaces that list element with a copy whose flag differs. The library owns its books and no reference to one escapes, so the two are indistinguishable to a caller.
- `ArrayList.remove(Object)` (Mini.java:171) removes by object identity, and the object is the one the scan just found. The model removes the element at the index where the scan stopped.
- Ids are Java `int`s. The model gives them the 32-bit range; no arithmetic is done on them, so there is no overflow to model.
