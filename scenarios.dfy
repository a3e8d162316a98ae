/**
 * Worked examples of the service's rules, stated over the step functions
 * of `Inventory` and, for the Dune example, run through
 * `Service.BookService`. `PriceRangeBoundaries`, `TitleMatch` and
 * `TitleNoMatch` are the cases of `BookRepositoryTest`.
 */
module Scenarios {
  import opened Strings
  import opened Errors
  import opened Genres
  import opened JavaInt
  import opened BookModel
  import opened Inventory
  import opened Service

  /** "Dune" (5 copies) added, then 3 more under another title: one row of 8
      copies that keeps the first title; removing all 8 deletes it, and the
      lookup then fails with NotFound. */
  lemma DuneSteps()
    ensures var dune := BookRecord("ISBN001", "Dune", "Frank Herbert", ScienceFiction, 15.00, 5);
      var messiah := BookRecord("ISBN001", "Dune Messiah", "Frank Herbert", ScienceFiction, 17.50, 3);
      var s1 := AddStep(map[], dune);
      var s2 := AddStep(s1.after, messiah);
      var s3 := RemoveStep(s2.after, "ISBN001", 8);
      && s2.result == Ok(BookRecord("ISBN001", "Dune", "Frank Herbert", ScienceFiction, 15.00, 8))
      && s3 == Step(Ok(None), map[])
      && GetBookByIsbn(s3.after, "ISBN001") == Err(NotFound("Book with ISBN ISBN001 not found."))
  {
    assert !IsWhitespace("ISBN001"[0]);
    var dune := BookRecord("ISBN001", "Dune", "Frank Herbert", ScienceFiction, 15.00, 5);
    var messiah := BookRecord("ISBN001", "Dune Messiah", "Frank Herbert", ScienceFiction, 17.50, 3);
    var s1 := AddStep(map[], dune);
    assert s1.after == map["ISBN001" := dune];
    assert Adjusted(5, 3) == Some(8);
    var s2 := AddStep(s1.after, messiah);
    assert s2.result == Ok(dune.(quantity := 8));
    assert s2.after == map["ISBN001" := dune.(quantity := 8)];
    assert Adjusted(8, -8) == Some(0);
    var s3 := RemoveStep(s2.after, "ISBN001", 8);
    assert s3.after == map["ISBN001" := dune.(quantity := 8)] - {"ISBN001"};
    assert map["ISBN001" := dune.(quantity := 8)] - {"ISBN001"} == map[];
    assert s3 == Step(Ok(None), map[]);
    assert GetBookByIsbn(map[], "ISBN001") == Err(NotFound(IsbnNotFound("ISBN001")));
    assert IsbnNotFound("ISBN001") == "Book with ISBN ISBN001 not found.";
  }

  /** Removing more copies than are held fails and leaves the row as it
      was, as a later lookup shows. */
  lemma RemoveTooManyKeepsStock(m: Store, isbn: string, amount: Int32)
    requires StoreValid(m) && isbn in m && amount > m[isbn].quantity
    ensures var s := RemoveStep(m, isbn, amount);
      s.result == Err(InvalidArgument(NOT_ENOUGH_STOCK)) &&
      GetBookByIsbn(s.after, isbn) == Ok(m[isbn])
  {
  }

  /** Removing exactly the held copies deletes the row; the lookup then
      fails with NotFound. */
  lemma RemoveAllThenNotFound(m: Store, isbn: string)
    requires StoreValid(m) && isbn in m && m[isbn].quantity >= 1
    ensures var s := RemoveStep(m, isbn, m[isbn].quantity);
      s.result == Ok(None) && GetBookByIsbn(s.after, isbn) == Err(NotFound(IsbnNotFound(isbn)))
  {
  }

  /** `getBooksByAttribute("GENRE", "fiction", 0, 10)` selects the same
      books as `getBooksByAttribute("genre", "FICTION", 0, 10)`: the fiction
      titles. */
  lemma GenreFilterExample(m: Store)
    ensures GetBooksByAttribute(m, "GENRE", "fiction", 0, 10) == Ok(FindAll(m, ByGenre(Fiction)))
    ensures GetBooksByAttribute(m, "genre", "FICTION", 0, 10) == Ok(FindAll(m, ByGenre(Fiction)))
  {
    GenreSpellings();
    assert !IsBlank("GENRE") by { assert !IsWhitespace("GENRE"[0]); }
    assert !IsBlank("genre") by { assert !IsWhitespace("genre"[0]); }
    assert !IsBlank("fiction") by { assert !IsWhitespace("fiction"[0]); }
    assert !IsBlank("FICTION") by { assert !IsWhitespace("FICTION"[0]); }
    assert ParseFilterType("GENRE") == Some(GenreFilter);
    assert ParseFilterType("genre") == Some(GenreFilter);
    assert AttributeQuery(GenreFilter, "fiction") == Some(ByGenre(Fiction));
    assert AttributeQuery(GenreFilter, "FICTION") == Some(ByGenre(Fiction));
  }

  lemma GenreSpellings()
    ensures ToLower("GENRE") == "genre" && ToLower("genre") == "genre"
    ensures ToUpper("fiction") == "FICTION" && ToUpper("FICTION") == "FICTION"
  {
  }

  /** `getBooksByPrice(30, 10, 0, 10)` fails before any row is read. */
  lemma ReversedPriceRange(m: Store)
    ensures GetBooksByPrice(m, 30.0, 10.0, 0, 10) == Err(InvalidArgument(PRICE_RANGE_REVERSED))
  {
  }

  /** `BookRepositoryTest.testFindByPriceRangeBoundaries`: books priced at
      exactly 10 and 30 are both found by the range from 10 to 30. */
  lemma PriceRangeBoundaries()
    ensures var lower := BookRecord("ISBN006", "Test Title", "Test Author", Fiction, 10.00, 10);
      var upper := BookRecord("ISBN007", "Test Title", "Test Author", Fiction, 30.00, 10);
      var m := map["ISBN006" := lower, "ISBN007" := upper];
      GetBooksByPrice(m, 10.0, 30.0, 0, 10) == Ok({lower, upper})
  {
    var lower := BookRecord("ISBN006", "Test Title", "Test Author", Fiction, 10.00, 10);
    var upper := BookRecord("ISBN007", "Test Title", "Test Author", Fiction, 30.00, 10);
    var m := map["ISBN006" := lower, "ISBN007" := upper];
    assert m["ISBN006"] == lower && m["ISBN007"] == upper;
    forall b | b in m.Values ensures b == lower || b == upper {
      var k :| k in m && m[k] == b;
    }
    assert m.Values == {lower, upper};
    assert FindAll(m, ByPrice(10.0, 30.0)) == {lower, upper};
  }

  /** `BookRepositoryTest.testFindByTitleNoMatch`: a title no book has
      selects nothing, on the empty repository of the test and on one that
      holds a book with another title. */
  lemma TitleNoMatch()
    ensures FindAll(map[], ByTitle("No Title")) == {}
    ensures var m := map["ISBN002" := BookRecord("ISBN002", "Test Title", "Test Author", Fiction, 19.99, 10)];
      FindAll(m, ByTitle("No Title")) == {}
  {
  }

  /** `BookRepositoryTest.testFindByTitle`: the one saved book is found by
      its title. */
  lemma TitleMatch()
    ensures var b := BookRecord("ISBN002", "Test Title", "Test Author", Fiction, 19.99, 10);
      FindAll(map["ISBN002" := b], ByTitle("Test Title")) == {b}
  {
    var b := BookRecord("ISBN002", "Test Title", "Test Author", Fiction, 19.99, 10);
    var m := map["ISBN002" := b];
    assert m["ISBN002"] == b;
    forall c | c in m.Values ensures c == b {
      var k :| k in m && m[k] == c;
    }
    assert m.Values == {b};
  }

  /** The worked example: "Dune" is created with 5 copies, added again with
      3 more under another title, then all 8 are removed; the book is then
      gone. */
  method DuneScenario() returns (stored: BookRecord, removed: Result<Option<BookRecord>>, lookup: Result<BookRecord>)
    ensures stored.quantity == 8 && stored.title == "Dune"
    ensures removed == Ok(None)
    ensures lookup == Err(NotFound("Book with ISBN ISBN001 not found."))
  {
    var dune := BookRecord("ISBN001", "Dune", "Frank Herbert", ScienceFiction, 15.00, 5);
    var messiah := BookRecord("ISBN001", "Dune Messiah", "Frank Herbert", ScienceFiction, 17.50, 3);
    DuneSteps();
    assert !IsBlank(dune.isbn) by { assert !IsWhitespace(dune.isbn[0]); }
    assert !IsBlank(dune.title) by { assert !IsWhitespace(dune.title[0]); }
    assert !IsBlank(dune.author) by { assert !IsWhitespace(dune.author[0]); }
    assert !IsBlank(messiah.title) by { assert !IsWhitespace(messiah.title[0]); }
    var service := new BookService(map[]);
    var first := Book.Create(dune.isbn, dune.title, dune.author, Some(dune.genre), Some(dune.price), dune.quantity);
    var more := Book.Create(messiah.isbn, messiah.title, messiah.author, Some(messiah.genre), Some(messiah.price), messiah.quantity);
    assert first.Ok? && first.value.Snapshot() == dune;
    assert more.Ok? && more.value.Snapshot() == messiah;
    var a := service.AddBook(first.value);
    assert service.store == AddStep(map[], dune).after;
    a := service.AddBook(more.value);
    assert a == AddStep(AddStep(map[], dune).after, messiah).result;
    stored := a.value;
    removed := service.RemoveBook("ISBN001", 8);
    lookup := GetBookByIsbn(service.store, "ISBN001");
  }
}
