/**
 * The book record of `AbstractBook.java` (with `SimpleBook`, its only
 * subclass, which forwards to the same constructor): six fields, a
 * constructor that validates its arguments in a fixed order, a guarded
 * quantity adjustment, and equality keyed on the ISBN alone.
 */
module BookModel {
  import opened Strings
  import opened Errors
  import opened Genres
  import opened JavaInt

  /** The state of a book: what a store row holds and what a getter shows.
      Price is an exact `BigDecimal`, modelled as a `real`. */
  datatype BookRecord = BookRecord(
    isbn: string, title: string, author: string,
    genre: Genre, price: real, quantity: Int32)

  /** The record invariants: identifying strings not blank, price not
      negative, quantity not negative at rest. */
  predicate RecordValid(b: BookRecord) {
    !IsBlank(b.isbn) && !IsBlank(b.title) && !IsBlank(b.author) &&
    b.price >= 0.0 && b.quantity >= 0
  }

  /** Lombok's `@EqualsAndHashCode(of = "isbn")`: two books are equal when
      their ISBNs are, whatever their other fields hold. */
  predicate SameBook(a: BookRecord, b: BookRecord) {
    a.isbn == b.isbn
  }

  /** `a` and `b` agree on everything but the quantity. */
  predicate SameExceptQuantity(a: BookRecord, b: BookRecord) {
    a.isbn == b.isbn && a.title == b.title && a.author == b.author &&
    a.genre == b.genre && a.price == b.price
  }

  // ---------------------------------------------------------------------
  // Validated construction

  /** The constructor's arguments; `genre` and `price` are references that
      Java lets be `null`. */
  datatype BookArgs = BookArgs(
    isbn: string, title: string, author: string,
    genre: Option<Genre>, price: Option<real>, quantity: Int32)

  /** The constructor's guards, in the order it evaluates them. */
  datatype Check = IsbnCheck | TitleCheck | AuthorCheck | GenreCheck | PriceCheck | QuantityCheck

  function Rank(c: Check): nat {
    match c
    case IsbnCheck => 0
    case TitleCheck => 1
    case AuthorCheck => 2
    case GenreCheck => 3
    case PriceCheck => 4
    case QuantityCheck => 5
  }

  /** Whether the arguments pass guard `c`. */
  predicate Passes(c: Check, a: BookArgs) {
    match c
    case IsbnCheck => !IsBlank(a.isbn)
    case TitleCheck => !IsBlank(a.title)
    case AuthorCheck => !IsBlank(a.author)
    case GenreCheck => a.genre.Some?
    case PriceCheck => a.price.Some? && a.price.value >= 0.0
    case QuantityCheck => a.quantity >= 1
  }

  /** The detail message of the exception guard `c` throws. */
  function Message(c: Check): string {
    match c
    case IsbnCheck => "ISBN cannot be null or empty."
    case TitleCheck => "Title cannot be null or empty."
    case AuthorCheck => "Author cannot be null or empty."
    case GenreCheck => "Genre cannot be null."
    case PriceCheck => "Price cannot be null or negative."
    case QuantityCheck => "Quantity must be at least 1."
  }

  /** The guard whose exception the constructor throws, if any. */
  function FirstViolation(a: BookArgs): (v: Option<Check>)
    ensures v.None? <==>
      !IsBlank(a.isbn) && !IsBlank(a.title) && !IsBlank(a.author) &&
      a.genre.Some? && a.price.Some? && a.price.value >= 0.0 && a.quantity >= 1
    ensures v.Some? ==> !Passes(v.value, a)
    ensures v.Some? ==> forall c :: Rank(c) < Rank(v.value) ==> Passes(c, a)
  {
    if IsBlank(a.isbn) then Some(IsbnCheck)
    else if IsBlank(a.title) then Some(TitleCheck)
    else if IsBlank(a.author) then Some(AuthorCheck)
    else if a.genre.None? then Some(GenreCheck)
    else if a.price.None? || a.price.value < 0.0 then Some(PriceCheck)
    else if a.quantity < 1 then Some(QuantityCheck)
    else None
  }

  /** The first violated guard decides the message, whatever the later
      arguments hold. */
  lemma FirstViolationIsUnique(a: BookArgs, c: Check)
    requires !Passes(c, a)
    requires forall d :: Rank(d) < Rank(c) ==> Passes(d, a)
    ensures FirstViolation(a) == Some(c)
  {
  }

  // ---------------------------------------------------------------------
  // Quantity adjustment

  const NOT_ENOUGH_STOCK: string := "Not enough stock available."

  /** The quantity `updateQuantity(amount)` leaves, or `None` when it throws.
      The sum is Java `int` arithmetic, so it wraps around on overflow. */
  function Adjusted(quantity: Int32, amount: Int32): (r: Option<Int32>)
    ensures r.Some? ==> r.value >= 0
    ensures quantity >= 0 ==> (r.Some? <==> 0 <= quantity + amount <= INT_MAX)
    ensures quantity >= 0 && r.Some? ==> r.value == quantity + amount
  {
    var sum := Wrap(quantity + amount);
    if sum < 0 then None else Some(sum)
  }

  /** `AbstractBookTest.testUpdateQuantity`: 10, then +5 gives 15, then -10
      gives 5, then -10 is refused. */
  lemma UpdateQuantityTrace()
    ensures Adjusted(10, 5) == Some(15)
    ensures Adjusted(15, -10) == Some(5)
    ensures Adjusted(5, -10) == None
  {
  }

  /** The test cases of `AbstractBookTest`: each malformed argument gives its
      own message, and the well-formed arguments pass. */
  lemma ConstructorTestCases()
    ensures FirstViolation(BookArgs("1234567890", "Test Title", "Test Author", Some(Fiction), Some(19.99), 10)).None?
    ensures var v := FirstViolation(BookArgs("", "Test Title", "Test Author", Some(Fiction), Some(19.99), 10));
      v == Some(IsbnCheck) && Message(v.value) == "ISBN cannot be null or empty."
    ensures var v := FirstViolation(BookArgs("1234567890", "   ", "Test Author", Some(Fiction), Some(19.99), 10));
      v == Some(TitleCheck) && Message(v.value) == "Title cannot be null or empty."
    ensures var v := FirstViolation(BookArgs("1234567890", "Test Title", "", Some(Fiction), Some(19.99), 10));
      v == Some(AuthorCheck) && Message(v.value) == "Author cannot be null or empty."
    ensures var v := FirstViolation(BookArgs("1234567890", "Test Title", "Test Author", None, Some(19.99), 10));
      v == Some(GenreCheck) && Message(v.value) == "Genre cannot be null."
    ensures var v := FirstViolation(BookArgs("1234567890", "Test Title", "Test Author", Some(Fiction), Some(-1.0), 10));
      v == Some(PriceCheck) && Message(v.value) == "Price cannot be null or negative."
    ensures var v := FirstViolation(BookArgs("1234567890", "Test Title", "Test Author", Some(Fiction), Some(19.99), 0));
      v == Some(QuantityCheck) && Message(v.value) == "Quantity must be at least 1."
  {
    assert !IsWhitespace("1234567890"[0]);
    assert !IsWhitespace("Test Title"[0]);
    assert !IsWhitespace("Test Author"[0]);
    assert IsBlank("   ") by {
      assert forall i :: 0 <= i < 3 ==> "   "[i] == ' ';
    }
  }

  // ---------------------------------------------------------------------
  // The entity

  /** A book entity: the fields are public, as Lombok's `@Setter` makes them. */
  class Book {
    var isbn: string
    var title: string
    var author: string
    var genre: Genre
    var price: real
    var quantity: Int32

    function Snapshot(): BookRecord
      reads this
    {
      BookRecord(isbn, title, author, genre, price, quantity)
    }

    ghost predicate Valid()
      reads this
    {
      RecordValid(Snapshot())
    }

    /** Field initialisation without validation (the last six assignments of
        the Java constructor); the persistence layer also builds entities
        from stored rows this way. */
    constructor (isbn: string, title: string, author: string, genre: Genre, price: real, quantity: Int32)
      ensures Snapshot() == BookRecord(isbn, title, author, genre, price, quantity)
    {
      this.isbn := isbn;
      this.title := title;
      this.author := author;
      this.genre := genre;
      this.price := price;
      this.quantity := quantity;
    }

    /** The validating constructor. On the first failed guard it throws with
        that guard's message and no book exists; otherwise every argument is
        stored unchanged. */
    static method Create(isbn: string, title: string, author: string,
                         genre: Option<Genre>, price: Option<real>, quantity: Int32)
      returns (r: Result<Book>)
      ensures r.Err? <==> FirstViolation(BookArgs(isbn, title, author, genre, price, quantity)).Some?
      ensures r.Err? ==>
        r.error == InvalidArgument(Message(FirstViolation(BookArgs(isbn, title, author, genre, price, quantity)).value))
      ensures r.Ok? ==> fresh(r.value) && r.value.Valid() && r.value.quantity >= 1
      ensures r.Ok? ==>
        r.value.Snapshot() == BookRecord(isbn, title, author, genre.value, price.value, quantity)
    {
      if IsBlank(isbn) {
        return Err(InvalidArgument(Message(IsbnCheck)));
      }
      if IsBlank(title) {
        return Err(InvalidArgument(Message(TitleCheck)));
      }
      if IsBlank(author) {
        return Err(InvalidArgument(Message(AuthorCheck)));
      }
      if genre.None? {
        return Err(InvalidArgument(Message(GenreCheck)));
      }
      if price.None? || price.value < 0.0 {
        return Err(InvalidArgument(Message(PriceCheck)));
      }
      if quantity < 1 {
        return Err(InvalidArgument(Message(QuantityCheck)));
      }
      var b := new Book(isbn, title, author, genre.value, price.value, quantity);
      return Ok(b);
    }

    /** `updateQuantity(amount)`: refuses, leaving the quantity as it was,
        when the `int` sum is negative; otherwise adds `amount` in place. */
    method UpdateQuantity(amount: Int32) returns (o: Outcome)
      modifies this`quantity
      ensures Adjusted(old(quantity), amount).None? ==>
        o == Fail(InvalidArgument(NOT_ENOUGH_STOCK)) && quantity == old(quantity)
      ensures Adjusted(old(quantity), amount).Some? ==>
        o == Pass && quantity == Adjusted(old(quantity), amount).value
      ensures SameExceptQuantity(Snapshot(), old(Snapshot()))
      ensures old(quantity) >= 0 ==> quantity >= 0
      ensures old(Valid()) ==> Valid()
    {
      var sum := Wrap(quantity + amount);
      if sum < 0 {
        return Fail(InvalidArgument(NOT_ENOUGH_STOCK));
      }
      quantity := sum;
      return Pass;
    }

    /** `equals` as `@EqualsAndHashCode(of = "isbn")` generates it: the same
        object, or an object whose ISBN is equal. Identity adds nothing, so
        equality is ISBN equality alone. */
    predicate Equals(other: Book)
      reads this, other
      ensures Equals(other) <==> SameBook(Snapshot(), other.Snapshot())
    {
      other == this || isbn == other.isbn
    }
  }

  /** `AbstractBookTest.testUpdateQuantity` run against the entity. */
  method UpdateQuantityScenario() returns (final: Int32, last: Outcome)
    ensures final == 5
    ensures last == Fail(InvalidArgument("Not enough stock available."))
  {
    var created := Book.Create("1234567890", "Test Title", "Test Author", Some(Fiction), Some(19.99), 10);
    ConstructorTestCases();
    var book := created.value;
    var o := book.UpdateQuantity(5);
    assert book.quantity == 15;
    o := book.UpdateQuantity(-10);
    assert book.quantity == 5;
    last := book.UpdateQuantity(-10);
    final := book.quantity;
  }
}
