/**
 The book catalog as a value: the records a library holds, in insertion
 order, and what each catalog operation does to them. The class
 `Mini.Library` keeps such a sequence in a field and is proved to change it
 exactly as the functions here say; the lemmas here state what those
 changes mean.
 */
module Catalog {
  import opened Text

  /** Java's `int`, the type of a book id. */
  newtype int32 = x: int | -0x8000_0000 <= x < 0x8000_0000

  /** One catalog record. */
  datatype Book = Book(id: int32, title: string, author: string, isIssued: bool)

  /** What an operation reports, one value per message the library prints. */
  datatype Outcome =
    | Added | DuplicateId
    | Issued | AlreadyIssued
    | Returned | NotIssued
    | Removed
    | NotFound

  /** The outcome of an operation together with the catalog it leaves behind. */
  datatype Step = Step(outcome: Outcome, books: seq<Book>)

  datatype Option<T> = None | Some(value: T)

  /** Some book in the catalog carries `id`. */
  predicate HasId(books: seq<Book>, id: int32)
  {
    exists i :: 0 <= i < |books| && books[i].id == id
  }

  /** The catalog invariant: no two books share an id. */
  predicate Unique(books: seq<Book>)
  {
    forall i, j :: 0 <= i < j < |books| ==> books[i].id != books[j].id
  }

  /** Both catalogs hold the same books in the same order, up to their issued flags. */
  predicate SameRecords(a: seq<Book>, b: seq<Book>)
  {
    |a| == |b| &&
    forall i :: 0 <= i < |a| ==>
      a[i].id == b[i].id && a[i].title == b[i].title && a[i].author == b[i].author
  }

  /** The position a front-to-back scan stops at: the first book with `id`. */
  function IndexOf(books: seq<Book>, id: int32): (r: Option<nat>)
    ensures r.None? <==> !HasId(books, id)
    ensures r.Some? ==>
      r.value < |books| && books[r.value].id == id &&
      forall j :: 0 <= j < r.value ==> books[j].id != id
  {
    if books == [] then None
    else if books[0].id == id then Some(0)
    else
      match IndexOf(books[1..], id)
      case None =>
        assert forall j :: 0 < j < |books| ==> books[j] == books[1..][j - 1];
        None
      case Some(k) =>
        assert books[k + 1] == books[1..][k];
        Some(k + 1)
  }

  /** addBook: reject an id already present, otherwise append a new, unissued book. */
  function Add(books: seq<Book>, id: int32, title: string, author: string): Step
  {
    if IndexOf(books, id).Some? then Step(DuplicateId, books)
    else Step(Added, books + [Book(id, title, author, false)])
  }

  /** The catalog with the flag of the book at position `i` set to `issued`. */
  function SetIssued(books: seq<Book>, i: nat, issued: bool): seq<Book>
    requires i < |books|
  {
    books[i := books[i].(isIssued := issued)]
  }

  /** issueBook: mark the first book with `id` as issued, if it is not already. */
  function Issue(books: seq<Book>, id: int32): Step
  {
    match IndexOf(books, id)
    case None => Step(NotFound, books)
    case Some(i) =>
      if !books[i].isIssued then Step(Issued, SetIssued(books, i, true))
      else Step(AlreadyIssued, books)
  }

  /** returnBook: mark the first book with `id` as available, if it is issued. */
  function Return(books: seq<Book>, id: int32): Step
  {
    match IndexOf(books, id)
    case None => Step(NotFound, books)
    case Some(i) =>
      if books[i].isIssued then Step(Returned, SetIssued(books, i, false))
      else Step(NotIssued, books)
  }

  /** removeBook: delete the first book with `id`. */
  function Remove(books: seq<Book>, id: int32): Step
  {
    match IndexOf(books, id)
    case None => Step(NotFound, books)
    case Some(i) => Step(Removed, books[..i] + books[i + 1..])
  }

  /** A book matches a keyword when its lower-cased title or author contains the lower-cased keyword. */
  predicate Matches(b: Book, keyword: string)
  {
    Contains(Lower(b.title), Lower(keyword)) || Contains(Lower(b.author), Lower(keyword))
  }

  /** searchBook: the matching books, in catalog order. */
  function Search(books: seq<Book>, keyword: string): seq<Book>
  {
    if books == [] then []
    else
      var last := books[|books| - 1];
      Search(books[..|books| - 1], keyword) + (if Matches(last, keyword) then [last] else [])
  }

  // ---------------------------------------------------------------------------
  // add

  /** Adding an id that is already present reports it and changes nothing. */
  lemma AddDuplicate(books: seq<Book>, id: int32, title: string, author: string)
    requires HasId(books, id)
    ensures Add(books, id, title, author) == Step(DuplicateId, books)
  {
  }

  /**
   Adding a fresh id appends exactly one new, unissued book with the given
   id, title and author; every earlier book stays where it was.
   */
  lemma AddFresh(books: seq<Book>, id: int32, title: string, author: string)
    requires !HasId(books, id)
    ensures var s := Add(books, id, title, author);
      s.outcome == Added &&
      |s.books| == |books| + 1 &&
      s.books[..|books|] == books &&
      s.books[|books|] == Book(id, title, author, false)
  {
  }

  lemma AddPreservesUnique(books: seq<Book>, id: int32, title: string, author: string)
    requires Unique(books)
    ensures Unique(Add(books, id, title, author).books)
  {
  }

  // ---------------------------------------------------------------------------
  // issue and return

  /** Catalogs with the same ids in the same order are scanned to the same position. */
  lemma IndexOfSameRecords(a: seq<Book>, b: seq<Book>, id: int32)
    requires SameRecords(a, b)
    ensures IndexOf(a, id) == IndexOf(b, id)
  {
  }

  lemma SameRecordsPreserveUnique(a: seq<Book>, b: seq<Book>)
    requires SameRecords(a, b) && Unique(a)
    ensures Unique(b)
  {
  }

  lemma IssueKeepsRecords(books: seq<Book>, id: int32)
    ensures SameRecords(books, Issue(books, id).books)
  {
  }

  lemma ReturnKeepsRecords(books: seq<Book>, id: int32)
    ensures SameRecords(books, Return(books, id).books)
  {
  }

  /**
   In a catalog without duplicate ids, issuing `id` reports whether the book
   is missing, available or already issued, leaves every record but the
   flags alone, and afterwards exactly the books that were issued before,
   plus the one with `id`, are issued.
   */
  lemma IssueEffect(books: seq<Book>, id: int32)
    requires Unique(books)
    ensures var s := Issue(books, id);
      SameRecords(books, s.books) &&
      (s.outcome == NotFound <==> !HasId(books, id)) &&
      (s.outcome == Issued <==>
        exists i :: 0 <= i < |books| && books[i].id == id && !books[i].isIssued) &&
      (s.outcome == AlreadyIssued <==>
        exists i :: 0 <= i < |books| && books[i].id == id && books[i].isIssued) &&
      (s.outcome != Issued ==> s.books == books) &&
      forall j :: 0 <= j < |books| ==>
        s.books[j].isIssued == (books[j].isIssued || books[j].id == id)
  {
  }

  /**
   In a catalog without duplicate ids, returning `id` reports whether the
   book is missing, issued or not issued, leaves every record but the flags
   alone, and afterwards exactly the books that were issued before, except
   the one with `id`, are issued.
   */
  lemma ReturnEffect(books: seq<Book>, id: int32)
    requires Unique(books)
    ensures var s := Return(books, id);
      SameRecords(books, s.books) &&
      (s.outcome == NotFound <==> !HasId(books, id)) &&
      (s.outcome == Returned <==>
        exists i :: 0 <= i < |books| && books[i].id == id && books[i].isIssued) &&
      (s.outcome == NotIssued <==>
        exists i :: 0 <= i < |books| && books[i].id == id && !books[i].isIssued) &&
      (s.outcome != Returned ==> s.books == books) &&
      forall j :: 0 <= j < |books| ==>
        s.books[j].isIssued == (books[j].isIssued && books[j].id != id)
  {
  }

  lemma IssuePreservesUnique(books: seq<Book>, id: int32)
    requires Unique(books)
    ensures Unique(Issue(books, id).books)
  {
    IssueKeepsRecords(books, id);
    SameRecordsPreserveUnique(books, Issue(books, id).books);
  }

  lemma ReturnPreservesUnique(books: seq<Book>, id: int32)
    requires Unique(books)
    ensures Unique(Return(books, id).books)
  {
    ReturnKeepsRecords(books, id);
    SameRecordsPreserveUnique(books, Return(books, id).books);
  }

  /** Issuing an available book and then returning it restores the catalog. */
  lemma IssueThenReturn(books: seq<Book>, id: int32)
    requires Issue(books, id).outcome == Issued
    ensures Return(Issue(books, id).books, id) == Step(Returned, books)
  {
    var issued := Issue(books, id).books;
    IssueKeepsRecords(books, id);
    IndexOfSameRecords(books, issued, id);
    var i := IndexOf(books, id).value;
    assert SetIssued(issued, i, false) == books;
  }

  /** Returning an issued book and then issuing it again restores the catalog. */
  lemma ReturnThenIssue(books: seq<Book>, id: int32)
    requires Return(books, id).outcome == Returned
    ensures Issue(Return(books, id).books, id) == Step(Issued, books)
  {
    var returned := Return(books, id).books;
    ReturnKeepsRecords(books, id);
    IndexOfSameRecords(books, returned, id);
    var i := IndexOf(books, id).value;
    assert SetIssued(returned, i, true) == books;
  }

  /** A second issue of the same book is refused and changes nothing. */
  lemma IssueTwice(books: seq<Book>, id: int32)
    requires Issue(books, id).outcome == Issued
    ensures var issued := Issue(books, id).books;
      Issue(issued, id) == Step(AlreadyIssued, issued)
  {
    IssueKeepsRecords(books, id);
    IndexOfSameRecords(books, Issue(books, id).books, id);
  }

  // ---------------------------------------------------------------------------
  // remove

  /**
   Removing a present id deletes exactly the first book with that id and
   keeps the others in their order; an absent id changes nothing.
   */
  lemma RemoveEffect(books: seq<Book>, id: int32)
    ensures var s := Remove(books, id);
      (s.outcome == Removed <==> HasId(books, id)) &&
      (s.outcome == NotFound <==> !HasId(books, id)) &&
      (s.outcome == NotFound ==> s.books == books) &&
      (s.outcome == Removed ==>
        |s.books| == |books| - 1 &&
        exists i :: 0 <= i < |books| && books[i].id == id &&
          (forall j :: 0 <= j < i ==> books[j].id != id) &&
          s.books == books[..i] + books[i + 1..])
  {
  }

  lemma RemovePreservesUnique(books: seq<Book>, id: int32)
    requires Unique(books)
    ensures Unique(Remove(books, id).books)
  {
    var after := Remove(books, id).books;
    if HasId(books, id) {
      var k := IndexOf(books, id).value;
      forall i, j | 0 <= i < j < |after|
        ensures after[i].id != after[j].id
      {
        var i', j' := if i < k then i else i + 1, if j < k then j else j + 1;
        assert after[i] == books[i'] && after[j] == books[j'];
      }
    }
  }

  /** After a remove no book in a duplicate-free catalog carries the removed id. */
  lemma RemoveErasesId(books: seq<Book>, id: int32)
    requires Unique(books)
    ensures !HasId(Remove(books, id).books, id)
  {
  }

  /** Once removed, an id is accepted by add again. */
  lemma RemoveThenAdd(books: seq<Book>, id: int32, title: string, author: string)
    requires Unique(books) && Remove(books, id).outcome == Removed
    ensures Add(Remove(books, id).books, id, title, author).outcome == Added
  {
    RemoveErasesId(books, id);
  }

  // ---------------------------------------------------------------------------
  // search

  /** A book is found exactly when it is in the catalog and matches the keyword. */
  lemma {:induction false} SearchMembership(books: seq<Book>, keyword: string, b: Book)
    ensures b in Search(books, keyword) <==> b in books && Matches(b, keyword)
  {
    if books != [] {
      var init := books[..|books| - 1];
      SearchMembership(init, keyword, b);
      assert books == init + [books[|books| - 1]];
    }
  }

  /** Search keeps catalog order: searching a catalog in two parts gives the two results in turn. */
  lemma {:induction false} SearchConcat(a: seq<Book>, b: seq<Book>, keyword: string)
    ensures Search(a + b, keyword) == Search(a, keyword) + Search(b, keyword)
  {
    if b == [] {
      assert a + b == a;
    } else {
      var init := b[..|b| - 1];
      SearchConcat(a, init, keyword);
      assert (a + b)[..|a + b| - 1] == a + init;
    }
  }

  /** The result never holds more books than the catalog. */
  lemma {:induction false} SearchLength(books: seq<Book>, keyword: string)
    ensures |Search(books, keyword)| <= |books|
  {
    if books != [] {
      SearchLength(books[..|books| - 1], keyword);
    }
  }

  /** The empty keyword matches every book: searching for it lists the whole catalog. */
  lemma {:induction false} SearchEmptyKeyword(books: seq<Book>)
    ensures Search(books, "") == books
  {
    if books != [] {
      var last := books[|books| - 1];
      SearchEmptyKeyword(books[..|books| - 1]);
      ContainsEmpty(Lower(last.title));
      assert Lower("") == "";
      assert books == books[..|books| - 1] + [last];
    }
  }

  /** Keywords that differ only in the case of their letters find the same books. */
  lemma {:induction false} SearchIgnoresKeywordCase(books: seq<Book>, k1: string, k2: string)
    requires Lower(k1) == Lower(k2)
    ensures Search(books, k1) == Search(books, k2)
  {
    if books != [] {
      SearchIgnoresKeywordCase(books[..|books| - 1], k1, k2);
    }
  }

  /** Books whose titles and authors differ only in case match the same keywords. */
  lemma MatchesIgnoresBookCase(b1: Book, b2: Book, keyword: string)
    requires Lower(b1.title) == Lower(b2.title) && Lower(b1.author) == Lower(b2.author)
    ensures Matches(b1, keyword) == Matches(b2, keyword)
  {
  }

  /** Lower-casing the keyword first, as the library does, finds the same books. */
  lemma SearchLoweredKeyword(books: seq<Book>, keyword: string)
    ensures Search(books, Lower(keyword)) == Search(books, keyword)
  {
    LowerIdempotent(keyword);
    SearchIgnoresKeywordCase(books, Lower(keyword), keyword);
  }

  /** A removed book is never found again. */
  lemma SearchAfterRemove(books: seq<Book>, id: int32, keyword: string)
    requires Unique(books)
    ensures forall b :: b in Search(Remove(books, id).books, keyword) ==> b.id != id
  {
    var after := Remove(books, id).books;
    RemoveErasesId(books, id);
    forall b | b in Search(after, keyword)
      ensures b.id != id
    {
      SearchMembership(after, keyword, b);
    }
  }

  /** A search for "tolkien" finds a catalog's only book when its author is "J. R. R. Tolkien". */
  lemma TolkienMatches(b: Book)
    requires b.author == "J. R. R. Tolkien"
    ensures Search([b], "tolkien") == [b]
  {
    var author := Lower(b.author);
    assert author[9..16] == "tolkien" by {
      forall i | 9 <= i < 16 ensures author[i] == "tolkien"[i - 9] {
        assert author[i] == LowerChar(b.author[i]);
      }
    }
    assert Lower("tolkien") == "tolkien";
    assert OccursAt(author, "tolkien", 9);
    assert Matches(b, "tolkien");
    assert [b][..0] == [];
  }
}
