/**
 * `BookService` as a class over its repository's table. Its mutating calls
 * load the stored row into a `Book` entity, change the entity through its own
 * operations, and save or delete it; each call is one atomic step, and each
 * is proved to take exactly the step the `Inventory` functions describe. The
 * read-only calls are the functions `Inventory.GetBookByIsbn`,
 * `Inventory.GetBooksByAttribute` and `Inventory.GetBooksByPrice` of the
 * store.
 */
module Service {
  import opened Strings
  import opened Errors
  import opened JavaInt
  import opened BookModel
  import opened Inventory

  class BookService {
    /** The repository's content: ISBN to stored row. */
    var store: Store

    ghost predicate Valid()
      reads this
    {
      StoreValid(store)
    }

    /** The service over an existing repository. */
    constructor (repository: Store)
      requires StoreValid(repository)
      ensures Valid() && store == repository
    {
      store := repository;
    }

    /** `addBook`: merge an existing ISBN's quantity, or store the new book. */
    method AddBook(book: Book) returns (r: Result<BookRecord>)
      requires Valid() && book.Valid()
      modifies this
      ensures Valid()
      ensures Step(r, store) == AddStep(old(store), book.Snapshot())
    {
      var isbn := book.isbn;
      if isbn in store {
        var row := store[isbn];
        var databaseBook := new Book(row.isbn, row.title, row.author, row.genre, row.price, row.quantity);
        var o := databaseBook.UpdateQuantity(book.quantity);
        if o.Fail? {
          return Err(o.error);
        }
        store := store[isbn := databaseBook.Snapshot()];
        r := Ok(databaseBook.Snapshot());
      } else {
        store := store[isbn := book.Snapshot()];
        r := Ok(book.Snapshot());
      }
    }

    /** `removeBook`: take `amountToRemove` copies out, deleting the row at
        zero; the result is the remaining row, or `None` once deleted. */
    method RemoveBook(isbn: string, amountToRemove: Int32) returns (r: Result<Option<BookRecord>>)
      requires Valid()
      modifies this
      ensures Valid()
      ensures Step(r, store) == RemoveStep(old(store), isbn, amountToRemove)
    {
      if IsBlank(isbn) {
        return Err(InvalidArgument(ISBN_BLANK));
      }
      if amountToRemove <= 0 {
        return Err(InvalidArgument(AMOUNT_NOT_POSITIVE));
      }
      if isbn !in store {
        return Err(NotFound(IsbnNotFound(isbn)));
      }
      var row := store[isbn];
      var book := new Book(row.isbn, row.title, row.author, row.genre, row.price, row.quantity);
      var o := book.UpdateQuantity(-amountToRemove);
      if o.Fail? {
        return Err(o.error);
      }
      if book.quantity == 0 {
        store := store - {isbn};
        return Ok(None);
      }
      store := store[isbn := book.Snapshot()];
      r := Ok(Some(book.Snapshot()));
    }

    /** `updateBook`: overwrite title, author, genre and price from
        `updatedBook` (which may be `null`). */
    method UpdateBook(updatedBook: Book?, isbn: string) returns (r: Result<BookRecord>)
      requires Valid() && (updatedBook != null ==> updatedBook.Valid())
      modifies this
      ensures Valid()
      ensures Step(r, store) ==
        UpdateStep(old(store), isbn, if updatedBook == null then None else Some(updatedBook.Snapshot()))
    {
      if IsBlank(isbn) {
        return Err(InvalidArgument(ISBN_BLANK));
      }
      if updatedBook == null {
        return Err(InvalidArgument(UPDATE_NULL));
      }
      if isbn !in store {
        return Err(NotFound("Book not found: " + isbn));
      }
      var row := store[isbn];
      var existing := new Book(row.isbn, row.title, row.author, row.genre, row.price, row.quantity);
      existing.title := updatedBook.title;
      existing.author := updatedBook.author;
      existing.genre := updatedBook.genre;
      existing.price := updatedBook.price;
      store := store[isbn := existing.Snapshot()];
      r := Ok(existing.Snapshot());
    }
  }
}
