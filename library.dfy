/** The session's catalog: the list of books the pages add to, edit,
    delete from and search, together with the copy saved behind it. */
module Catalog {
  import opened Books
  import opened Text
  import opened Selection
  import opened Query

  class Library {
    /** The books in insertion order, which is also display and search order. */
    var books: seq<Book>
    /** The list the backing file holds: what was last loaded or saved. */
    ghost var persisted: seq<Book>

    /** The backing file matches the session's list. */
    ghost predicate Saved()
      reads this
    {
      persisted == books
    }

    /** Start-up: the saved list when the file exists, otherwise an empty
        list. `stored` is what loading the file produced. */
    constructor (stored: Option<seq<Book>>)
      ensures books == (if stored.Some? then stored.value else [])
      ensures Saved()
    {
      books := if stored.Some? then stored.value else [];
      persisted := books;
    }

    /** The add form's submit: with a title and an author the book goes at
        the end and the list is saved; otherwise nothing changes. */
    method Add(title: string, author: string, genre: Genre, status: Status,
               rating: Rating, dateAdded: string, notes: string) returns (added: bool)
      modifies this
      ensures added <==> title != [] && author != []
      ensures added ==> books == old(books) + [Book(title, author, genre, status, rating, dateAdded, notes)]
      ensures added ==> Saved()
      ensures !added ==> books == old(books) && persisted == old(persisted)
    {
      if title != [] && author != [] {
        var book := Book(title, author, genre, status, rating, dateAdded, notes);
        books := books + [book];
        persisted := books;
        added := true;
      } else {
        added := false;
      }
    }

    /** The edit form's update: the book at index takes the form's fields
        but keeps the date it was added; no other book changes. */
    method Update(index: nat, title: string, author: string, genre: Genre, status: Status,
                  rating: Rating, notes: string)
      requires index < |books|
      modifies this
      ensures |books| == |old(books)|
      ensures books[index] == Book(title, author, genre, status, rating, old(books[index].dateAdded), notes)
      ensures forall j :: 0 <= j < |books| && j != index ==> books[j] == old(books[j])
      ensures Saved()
    {
      var book := books[index];
      books := books[index := Book(title, author, genre, status, rating, book.dateAdded, notes)];
      persisted := books;
    }

    /** The edit form's delete: the book at index leaves the list and the
        others keep their order. */
    method Delete(index: nat)
      requires index < |books|
      modifies this
      ensures books == old(books[..index] + books[index + 1..])
      ensures |books| == |old(books)| - 1
      ensures Saved()
    {
      books := books[..index] + books[index + 1..];
      persisted := books;
    }

    /** The search page: with an empty term no search runs; otherwise the
        books whose chosen field holds the term, ignoring case, in library
        order. */
    method Search(term: string, field: SearchField) returns (found: Option<seq<Book>>)
      ensures found.None? <==> term == []
      ensures found.Some? ==> found.value == SearchResults(books, term, field)
    {
      if term == [] {
        return None;
      }
      var lowered := Lower(term);
      var results: seq<Book> := [];
      var k := 0;
      while k < |books|
        invariant 0 <= k <= |books|
        invariant results == Keep(books[..k], MatchesTerm(lowered, field))
      {
        var book := books[k];
        if field == ByTitle && Contains(lowered, Lower(book.title)) {
          results := results + [book];
        } else if field == ByAuthor && Contains(lowered, Lower(book.author)) {
          results := results + [book];
        } else if field == ByNotes && book.notes != [] && Contains(lowered, Lower(book.notes)) {
          results := results + [book];
        }
        KeepSnoc(books[..k], book, MatchesTerm(lowered, field));
        assert books[..k + 1] == books[..k] + [book];
        k := k + 1;
      }
      assert books[..k] == books;
      return Some(results);
    }
  }

  /** A session that adds one fiction book to an empty list and then views
      only fiction sees exactly that book, and its statistics count it. */
  method AddThenView()
  {
    var library := new Library(None);
    var added := library.Add("Dune", "Herbert", Fiction, Unread, 0, "2024-01-01", "");
    assert added;
    var dune := Book("Dune", "Herbert", Fiction, Unread, 0, "2024-01-01", "");
    assert library.books == [dune];
    DuneExample();
    assert Filter(library.books, {Fiction}, {}, 0) == [dune];
    assert Statistics(library.books).total == 1;
    var found := library.Search("dun", ByTitle);
    assert found == Some([dune]);
    var missing := library.Add("", "Herbert", Fiction, Unread, 0, "2024-01-01", "");
    assert !missing && library.books == [dune];
  }
}
