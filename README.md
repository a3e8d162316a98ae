# Bookstore inventory, modelled in Dafny

This project models the inventory core of a small bookstore service. The
core has two parts.

- **The book record** (`AbstractBook`, and `SimpleBook`, which only forwards
  to the same constructor). A book has an ISBN, title, author, genre, price
  and quantity. Its constructor checks the arguments in a fixed order, and
  the first failed check throws with its own message. `updateQuantity`
  refuses to take the quantity below zero. Two books are equal when their
  ISBNs are.
- **The inventory service** (`BookService`). The service runs over a
  repository table keyed by ISBN:
  - `addBook` merges quantities when the ISBN is already stored;
  - `removeBook` takes copies out and deletes the row when it reaches zero;
  - `updateBook` overwrites the descriptive fields;
  - `getBookByIsbn`, `getBooksByAttribute` and `getBooksByPrice` check
    their arguments and then query the table.

Files, one module each:

- `strings.dfy` (`Strings`): Java's `isBlank`, and `toUpperCase` and
  `toLowerCase` on ASCII letters.
- `errors.dfy` (`Errors`): the two exceptions. `IllegalArgumentException`
  becomes `InvalidArgument` and `BookNotFoundException` becomes `NotFound`,
  each with its message. Also the result types.
- `javaint.dfy` (`JavaInt`): Java `int`, with its wrap-around made explicit.
- `genre.dfy` (`Genres`): the 15 genres, `name()` and `valueOf`.
- `book.dfy` (`BookModel`): the record value `BookRecord`. The ordered
  constructor checks (`FirstViolation`). The quantity adjustment
  (`Adjusted`). The entity class `Book`, with its validating factory
  `Create` and the in-place `UpdateQuantity`.
- `inventory.dfy` (`Inventory`): the store (a map from ISBN to row). Each
  service operation as a step from the old store to a result and a new
  store. The repository queries as predicates over the stored rows. The
  read-only service calls as functions of the store. The lemmas on total
  stock and on the store invariants.
- `service.dfy` (`Service`): the class `BookService` holding the store.
  `AddBook`, `RemoveBook` and `UpdateBook` load the stored row into a
  `Book` entity, change it with the entity's own operations, and save or
  delete it. Each method is proved to take exactly the step `Inventory`
  describes.
- `scenarios.dfy` (`Scenarios`): worked examples of the service's rules,
  with the Dune example also run through `Service.BookService`. Of these,
  only `PriceRangeBoundaries`, `TitleMatch` and `TitleNoMatch` come from
  the repository's tests (`BookRepositoryTest`); the `UpdateQuantity` traces and
  `ConstructorTestCases` in `book.dfy` come from `AbstractBookTest`.

Modelling choices:

- Price is an exact `BigDecimal`, modelled as a `real`. The `double`
  bounds of `getBooksByPrice` are `real` too.
- Quantities and amounts are Java `int` (`Int32`). The sum in
  `updateQuantity` wraps around as Java's does. Proved consequence
  (`Adjusted`): starting from a quantity of zero or more, every overflow
  wraps to a negative sum and is refused. So the call succeeds exactly when
  the exact sum lies between 0 and `INT_MAX`, and it never stores a
  wrapped value.
- A merge in `addBook` can fail, although both quantities are non-negative.
  The merge goes through `updateQuantity`, so a sum above `INT_MAX` throws
  "Not enough stock available." and leaves the store unchanged
  (`AddStep`).
- A service call is one atomic step on the map. A failed call leaves the
  store as it was, matching a rolled-back transaction.
- Rows are saved under the ISBN they were looked up by. In a valid store
  this is the row's own ISBN.

## Model

| member | source | states |
|---|---|---|
| `Genres.ValueOf` | src/main/java/com/krystofstanek/Azul/Intern/Task/api/model/Genre.java:6-22 | `valueOf` finds the constant whose name is exactly the string; it fails exactly when no constant has that name |
| `Genres.ValueOfName` | src/main/java/com/krystofstanek/Azul/Intern/Task/api/model/Genre.java:6-22 | every constant is found by its own name, so `valueOf` inverts `name` |
| `JavaInt.Wrap` | src/main/java/com/krystofstanek/Azul/Intern/Task/api/model/AbstractBook.java:93 | Java `int` addition is exact inside the `int` range, a sum above `INT_MAX` loses exactly 2^32, and a sum below `INT_MIN` gains exactly 2^32 |
| `BookModel.FirstViolation` | src/main/java/com/krystofstanek/Azul/Intern/Task/api/model/AbstractBook.java:56-73 | construction passes iff isbn, title and author are not blank, genre and price are present, price >= 0 and quantity >= 1; a reported check is violated and every check ordered before it passes |
| `BookModel.FirstViolationIsUnique` | src/main/java/com/krystofstanek/Azul/Intern/Task/api/model/AbstractBook.java:56-73 | a violated check with all earlier checks passing is the one reported, whatever the later arguments hold |
| `BookModel.ConstructorTestCases` | src/test/java/com/krystofstanek/Azul/Intern/Task/AbstractBookTest.java:14-71 | the test arguments pass, and each malformed argument is refused by its own check with its own message |
| `BookModel.Book.constructor` | src/main/java/com/krystofstanek/Azul/Intern/Task/api/model/AbstractBook.java:75-80 | the six fields hold the six arguments unchanged |
| `BookModel.Book.Create` | src/main/java/com/krystofstanek/Azul/Intern/Task/api/model/AbstractBook.java:51-81 | fails iff some check fails, with the first failed check's message and no object; otherwise a fresh, valid book storing every argument unchanged |
| `BookModel.Adjusted` | src/main/java/com/krystofstanek/Azul/Intern/Task/api/model/AbstractBook.java:92-97 | from a quantity >= 0: succeeds iff 0 <= quantity + amount <= INT_MAX, and then yields exactly quantity + amount; never yields a negative quantity |
| `BookModel.Book.UpdateQuantity` | src/main/java/com/krystofstanek/Azul/Intern/Task/api/model/AbstractBook.java:92-97 | on refusal fails with "Not enough stock available." and keeps the quantity; otherwise sets the adjusted quantity; never changes isbn, title, author, genre or price; a quantity >= 0 stays >= 0, so a valid entity stays valid |
| `BookModel.UpdateQuantityTrace` | src/test/java/com/krystofstanek/Azul/Intern/Task/AbstractBookTest.java:73-86 | 10 then +5 gives 15, then -10 gives 5, then -10 is refused |
| `BookModel.UpdateQuantityScenario` | src/test/java/com/krystofstanek/Azul/Intern/Task/AbstractBookTest.java:73-86 | the same trace run on a constructed entity leaves quantity 5 and the last call fails with the stock message |
| `BookModel.Book.Equals` | src/main/java/com/krystofstanek/Azul/Intern/Task/api/model/AbstractBook.java:17 | written as the generated method (same object, or equal ISBN) and proved to hold exactly when the ISBNs agree, whatever the other fields; what this means for the store is proved by `Inventory.StoredEqualityIsKeyEquality` and the `*KeepsIdentity` lemmas |
| `Inventory.FindAll` | src/main/java/com/krystofstanek/Azul/Intern/Task/api/repository/BookRepository.java:28-58 | a query returns exactly the stored rows satisfying its predicate: equality on title, author or genre, price BETWEEN inclusive at both ends |
| `Inventory.AddStep` | src/main/java/com/krystofstanek/Azul/Intern/Task/service/BookService.java:47-56 | absent ISBN: the candidate is stored and returned unchanged; present: the stored quantity becomes existing + candidate, title/author/genre/price stay the existing ones, failing with the stock message (store unchanged) iff the exact sum falls outside 0..INT_MAX, so a negative candidate quantity that would drive the row below zero is refused; no other key changes |
| `Inventory.AddConservesTotal` | src/main/java/com/krystofstanek/Azul/Intern/Task/service/BookService.java:47-56 | for any candidate, valid or not, the total stock changes by exactly the candidate's quantity (so a negative quantity on a stored ISBN lowers it), or is unchanged when the merge fails |
| `Inventory.AddPreservesInvariants` | src/main/java/com/krystofstanek/Azul/Intern/Task/service/BookService.java:47-56 | the store stays keyed by ISBN with valid rows whatever quantity a candidate for a stored ISBN carries (no merge leaves a negative row); a new ISBN needs a valid candidate; the store stays free of zero-quantity rows when the candidate holds at least one copy |
| `Inventory.AddTwiceMerges` | src/main/java/com/krystofstanek/Azul/Intern/Task/service/BookService.java:48-52 | adding one ISBN twice gives a single row with both quantities and the first book's title, author, genre and price |
| `Inventory.LookupAfterAdd` | src/main/java/com/krystofstanek/Azul/Intern/Task/service/BookService.java:47-56 | a successful add returns exactly what a later lookup of that ISBN finds |
| `Inventory.RemoveStep` | src/main/java/com/krystofstanek/Azul/Intern/Task/service/BookService.java:70-92 | blank ISBN, then amount <= 0, fail InvalidArgument before the store is read; absent ISBN fails NotFound; amount > quantity fails with the stock message; every failure leaves the store unchanged; amount == quantity deletes the key and returns empty; otherwise stores and returns the row decreased by amount, other fields kept |
| `Inventory.RemoveConservesTotal` | src/main/java/com/krystofstanek/Azul/Intern/Task/service/BookService.java:84-91 | a successful removal lowers the total stock by exactly the amount; a failed one leaves it unchanged |
| `Inventory.RemovePreservesInvariants` | src/main/java/com/krystofstanek/Azul/Intern/Task/service/BookService.java:84-91 | the store stays keyed by ISBN with valid rows, and no zero-quantity row is ever left behind |
| `Inventory.UpdateStep` | src/main/java/com/krystofstanek/Azul/Intern/Task/service/BookService.java:108-127 | blank ISBN, then null update, fail InvalidArgument, absent ISBN fails NotFound, all with the store unchanged; otherwise only title, author, genre and price are overwritten, ISBN and quantity kept |
| `Inventory.UpdateKeepsTotal` | src/main/java/com/krystofstanek/Azul/Intern/Task/service/BookService.java:119-126 | an update never changes the total stock |
| `Inventory.UpdatePreservesInvariants` | src/main/java/com/krystofstanek/Azul/Intern/Task/service/BookService.java:119-126 | an update with valid descriptive fields keeps the store invariants |
| `Inventory.GetBookByIsbn` | src/main/java/com/krystofstanek/Azul/Intern/Task/service/BookService.java:212-221 | fails InvalidArgument on a blank ISBN, NotFound on a missing key, and otherwise returns exactly the stored row |
| `Inventory.StoredEqualityIsKeyEquality` | src/main/java/com/krystofstanek/Azul/Intern/Task/api/model/AbstractBook.java:17-23 | in a valid store two stored rows are equal books iff they sit under the same key |
| `Inventory.AddKeepsIdentity` | src/main/java/com/krystofstanek/Azul/Intern/Task/service/BookService.java:47-56 | in a valid store, a successful add leaves every surviving key holding the same book (same ISBN) as before, and returns a row with the candidate's ISBN |
| `Inventory.RemoveKeepsIdentity` | src/main/java/com/krystofstanek/Azul/Intern/Task/service/BookService.java:70-92 | a successful removal leaves every surviving key holding the same book as before, and a returned row has the stored row's ISBN |
| `Inventory.UpdateKeepsIdentity` | src/main/java/com/krystofstanek/Azul/Intern/Task/service/BookService.java:108-127 | a successful update leaves every key holding the same book as before, and the returned row has the stored row's ISBN |
| `Inventory.ParseFilterType` | src/main/java/com/krystofstanek/Azul/Intern/Task/service/BookService.java:158-171 | the filter type is recognised iff its lower-cased form is "genre", "title" or "author" |
| `Inventory.ParseFilterTypeOfName` | src/main/java/com/krystofstanek/Azul/Intern/Task/service/BookService.java:158-171 | every spelling that lower-cases to a filter's name selects that filter |
| `Inventory.AttributeQuery` | src/main/java/com/krystofstanek/Azul/Intern/Task/service/BookService.java:159-169 | a genre value resolves iff its upper-cased form names a constant; title and author filters always yield a query, matching the value as given |
| `Inventory.GetBooksByAttribute` | src/main/java/com/krystofstanek/Azul/Intern/Task/service/BookService.java:147-173 | checks filter type blank, then value blank, then page/size, then the filter name ("Invalid filter type"), then the genre name ("Invalid genre"); succeeds iff every guard passes and the filter is title, author, or genre with a known genre name, and then returns exactly the rows whose attribute matches |
| `Inventory.AttributeFilterIgnoresCase` | src/main/java/com/krystofstanek/Azul/Intern/Task/service/BookService.java:158-161 | two calls whose filter types agree up to case, and whose genre values agree up to case, succeed together and select the same rows |
| `Inventory.GetBooksByPrice` | src/main/java/com/krystofstanek/Azul/Intern/Task/service/BookService.java:186-201 | a negative bound, then min > max, then a bad page/size fail InvalidArgument in that order; otherwise returns exactly the rows with min <= price <= max |
| `Service.BookService.constructor` | src/main/java/com/krystofstanek/Azul/Intern/Task/service/BookService.java:33-35 | the service works on the repository it is given |
| `Service.BookService.AddBook` | src/main/java/com/krystofstanek/Azul/Intern/Task/service/BookService.java:47-56 | the result and the new store are those of `AddStep` on the old store; the store invariant is kept |
| `Service.BookService.RemoveBook` | src/main/java/com/krystofstanek/Azul/Intern/Task/service/BookService.java:70-92 | the result and the new store are those of `RemoveStep`; the store invariant is kept |
| `Service.BookService.UpdateBook` | src/main/java/com/krystofstanek/Azul/Intern/Task/service/BookService.java:108-127 | the result and the new store are those of `UpdateStep`, with a null update as `None`; the store invariant is kept |
| `Scenarios.DuneScenario` | src/main/java/com/krystofstanek/Azul/Intern/Task/service/BookService.java:47-92 | "Dune" with 5 copies, then 3 more under another title, gives 8 copies titled "Dune"; removing 8 deletes it; the lookup then fails NotFound |
| `Scenarios.DuneSteps` | src/main/java/com/krystofstanek/Azul/Intern/Task/service/BookService.java:47-92 | the same example over the step functions |
| `Scenarios.RemoveTooManyKeepsStock` | src/main/java/com/krystofstanek/Azul/Intern/Task/service/BookService.java:84 | removing more than is held fails with the stock message and a lookup still returns the unchanged row |
| `Scenarios.RemoveAllThenNotFound` | src/main/java/com/krystofstanek/Azul/Intern/Task/service/BookService.java:84-88 | removing exactly the held copies deletes the row, and a lookup then fails NotFound |
| `Scenarios.GenreFilterExample` | src/main/java/com/krystofstanek/Azul/Intern/Task/service/BookService.java:158-162 | ("GENRE", "fiction") and ("genre", "FICTION") both select exactly the fiction rows |
| `Scenarios.ReversedPriceRange` | src/main/java/com/krystofstanek/Azul/Intern/Task/service/BookService.java:190-192 | a range from 30 to 10 fails InvalidArgument with the min > max message |
| `Scenarios.PriceRangeBoundaries` | src/test/java/com/krystofstanek/Azul/Intern/Task/BookRepositoryTest.java:87-101 | books priced exactly 10 and 30 are both in the range from 10 to 30 |
| `Scenarios.TitleNoMatch` | src/test/java/com/krystofstanek/Azul/Intern/Task/BookRepositoryTest.java:81-85 | a title nobody has selects nothing, on the empty repository and on one holding a book with another title |
| `Scenarios.TitleMatch` | src/test/java/com/krystofstanek/Azul/Intern/Task/BookRepositoryTest.java:28-35 | the one saved book, and nothing else, is selected by its title |

## Left out

- `BookstoreController`: HTTP routing, response codes and the remaining-quantity map are not modelled. Nor is `@Valid` request-body binding, which can build a `SimpleBook` without its validating constructor.
- `SecurityConfig`, `@PreAuthorize` and the application entry point are not modelled. They are configuration, not inventory logic.
- Pagination (`PageRequest`, `Page`, total counts) is not modelled. The queries return the whole set of matching rows.
- Transactions and concurrent access are not modelled. Each service call is one atomic step, and a failure leaves the store unchanged.
- Store failures of the persistence layer are not modelled. The map assumes every read and write succeeds.
- JPA and Lombok machinery is not modelled. This covers single-table inheritance, the discriminator column and the protected no-argument constructor. The unvalidated field-setting constructor `Book.constructor` stands in for how rows become entities. Lombok setters are public fields. `hashCode` is not modelled.
- Null strings are identified with the empty string. Every string guard tests `null` or blank with one message, so the two give the same outcome. Null genre and price keep their own case (`Option`), and so does a null `updatedBook` (`Book?`). A null `book` passed to `addBook` (a `NullPointerException`) is not modelled.
- `double` is not modelled. The price bounds are exact reals, so NaN, infinities and the `BigDecimal.valueOf(double)` conversion are left out.
- `toUpperCase` and `toLowerCase` are modelled on ASCII letters only. Locale-dependent and non-ASCII case mapping is left out.
- Service.BookService.AddBook: requires the candidate to satisfy the record invariants. Every book built by the validating constructor does. The step function `Inventory.AddStep` itself takes any record.
- Service.BookService.UpdateBook: requires a non-null update to satisfy the record invariants, as a constructed book does. `Inventory.UpdateStep` itself takes any record.
- The entity methods return snapshots (`BookRecord` values) of the saved entity, not the entity object itself.
