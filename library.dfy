/**
 The library object: a catalog of books held in insertion order, changed in
 place by its operations. Each operation that takes an id scans the
 catalog from the front and stops at the first book with that id; each
 returns the outcome the library would print, and is proved to leave the catalog
 exactly as the corresponding function of module Catalog describes.
 */
module Mini {
  import opened Text
  import opened Catalog

  class Library {
    var books: seq<Book>

    /** The library's invariant: no two books share an id. */
    ghost predicate Valid()
      reads this
    {
      Unique(books)
    }

    /** A new library holds no books. */
    constructor ()
      ensures Valid() && books == []
    {
      books := [];
    }

    method AddBook(id: int32, title: string, author: string) returns (outcome: Outcome)
      requires Valid()
      modifies this
      ensures Valid()
      ensures Step(outcome, books) == Add(old(books), id, title, author)
    {
      AddPreservesUnique(books, id, title, author);
      var i := 0;
      while i < |books|
        invariant 0 <= i <= |books|
        invariant forall j :: 0 <= j < i ==> books[j].id != id
      {
        if books[i].id == id {
          return DuplicateId;
        }
        i := i + 1;
      }
      books := books + [Book(id, title, author, false)];
      outcome := Added;
    }

    /** The books as displayed: every one of them, in insertion order. */
    method DisplayBooks() returns (shown: seq<Book>)
      ensures shown == books
    {
      shown := [];
      for i := 0 to |books|
        invariant shown == books[..i]
      {
        shown := shown + [books[i]];
      }
    }

    method IssueBook(id: int32) returns (outcome: Outcome)
      requires Valid()
      modifies this
      ensures Valid()
      ensures Step(outcome, books) == Issue(old(books), id)
    {
      IssuePreservesUnique(books, id);
      var i := 0;
      while i < |books|
        invariant 0 <= i <= |books|
        invariant forall j :: 0 <= j < i ==> books[j].id != id
      {
        if books[i].id == id {
          if !books[i].isIssued {
            books := books[i := books[i].(isIssued := true)];
            outcome := Issued;
          } else {
            outcome := AlreadyIssued;
          }
          return;
        }
        i := i + 1;
      }
      outcome := NotFound;
    }

    method ReturnBook(id: int32) returns (outcome: Outcome)
      requires Valid()
      modifies this
      ensures Valid()
      ensures Step(outcome, books) == Return(old(books), id)
    {
      ReturnPreservesUnique(books, id);
      var i := 0;
      while i < |books|
        invariant 0 <= i <= |books|
        invariant forall j :: 0 <= j < i ==> books[j].id != id
      {
        if books[i].id == id {
          if books[i].isIssued {
            books := books[i := books[i].(isIssued := false)];
            outcome := Returned;
          } else {
            outcome := NotIssued;
          }
          return;
        }
        i := i + 1;
      }
      outcome := NotFound;
    }

    /** The books whose title or author contains the keyword, ignoring case, in catalog order. */
    method SearchBook(keyword: string) returns (matches: seq<Book>)
      ensures matches == Search(books, keyword)
    {
      var key := Lower(keyword);
      matches := [];
      for i := 0 to |books|
        invariant matches == Search(books[..i], keyword)
      {
        var b := books[i];
        if Contains(Lower(b.title), key) || Contains(Lower(b.author), key) {
          matches := matches + [b];
        }
        assert books[..i + 1][..i] == books[..i];
      }
      assert books[..|books|] == books;
    }

    method RemoveBook(id: int32) returns (outcome: Outcome)
      requires Valid()
      modifies this
      ensures Valid()
      ensures Step(outcome, books) == Remove(old(books), id)
    {
      RemovePreservesUnique(books, id);
      var i := 0;
      while i < |books|
        invariant 0 <= i <= |books|
        invariant forall j :: 0 <= j < i ==> books[j].id != id
      {
        if books[i].id == id {
          books := books[..i] + books[i + 1..];
          return Removed;
        }
        i := i + 1;
      }
      outcome := NotFound;
    }
  }

  /** A session at the library, followed through the operations' contracts alone. */
  method DuneSession()
  {
    var library := new Library();
    var outcome := library.AddBook(1, "Dune", "Herbert");
    assert outcome == Added;
    outcome := library.AddBook(1, "Emma", "Austen");
    assert outcome == DuplicateId;
    var shown := library.DisplayBooks();
    assert shown == [Book(1, "Dune", "Herbert", false)];
    outcome := library.IssueBook(1);
    assert outcome == Issued;
    outcome := library.IssueBook(1);
    assert outcome == AlreadyIssued;
    outcome := library.ReturnBook(1);
    assert outcome == Returned;
    outcome := library.ReturnBook(1);
    assert outcome == NotIssued;
    outcome := library.RemoveBook(1);
    assert outcome == Removed;
    outcome := library.RemoveBook(1);
    assert outcome == NotFound;
    shown := library.DisplayBooks();
    assert shown == [];
  }

  /** A search for "tolkien" finds a book by "J. R. R. Tolkien". */
  method TolkienSearch()
  {
    var library := new Library();
    var outcome := library.AddBook(2, "The Hobbit", "J. R. R. Tolkien");
    var found := library.SearchBook("tolkien");
    var hobbit := Book(2, "The Hobbit", "J. R. R. Tolkien", false);
    assert library.books == [hobbit];
    TolkienMatches(hobbit);
    assert found == [hobbit];
  }
}
