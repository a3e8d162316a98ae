/**
 * The inventory operations of `BookService.java` as functions of the store.
 * The store is the repository's table: a map from ISBN to the stored row.
 * Each mutating operation is one atomic step from the old store to a result
 * and a new store; a failure leaves the store as it was.
 */
module Inventory {
  import opened Strings
  import opened Errors
  import opened Genres
  import opened JavaInt
  import opened BookModel

  type Store = map<string, BookRecord>

  /** Every row sits under its own ISBN and keeps the record invariants. */
  predicate StoreValid(m: Store) {
    forall k :: k in m ==> m[k].isbn == k && RecordValid(m[k])
  }

  /** No stored row is out of stock: a row is deleted when it reaches zero. */
  predicate InStock(m: Store) {
    forall k :: k in m ==> m[k].quantity >= 1
  }

  /** The result of one service call and the store it leaves. */
  datatype Step<T> = Step(result: Result<T>, after: Store)

  // ---------------------------------------------------------------------
  // Total stock

  /** The number of copies held, over all rows. */
  ghost function Total(m: Store): int
    decreases |m|
  {
    if m == map[] then 0
    else
      var k :| k in m;
      m[k].quantity + Total(m - {k})
  }

  /** Any row can be taken out of the sum first. */
  lemma {:induction false} TotalWithout(m: Store, k: string)
    requires k in m
    ensures Total(m) == m[k].quantity + Total(m - {k})
    decreases |m|
  {
    var j :| j in m && Total(m) == m[j].quantity + Total(m - {j});
    if j != k {
      TotalWithout(m - {j}, k);
      TotalWithout(m - {k}, j);
      assert m - {j} - {k} == m - {k} - {j};
    }
  }

  /** Storing `b` under `k` replaces that row's share of the total. */
  lemma TotalAfterPut(m: Store, k: string, b: BookRecord)
    ensures Total(m[k := b]) == b.quantity + Total(m - {k})
  {
    TotalWithout(m[k := b], k);
    assert m[k := b] - {k} == m - {k};
  }

  // ---------------------------------------------------------------------
  // Repository queries, as predicates over the stored rows

  /** The repository's derived queries `findByTitle`, `findByAuthor`,
      `findByGenre` and the JPQL query `findByPriceRange`. */
  datatype Query = ByTitle(title: string) | ByAuthor(author: string) | ByGenre(genre: Genre) | ByPrice(low: real, high: real)

  /** Exact equality on the attribute; `BETWEEN` is inclusive at both ends. */
  predicate Matches(q: Query, b: BookRecord) {
    match q
    case ByTitle(t) => b.title == t
    case ByAuthor(a) => b.author == a
    case ByGenre(g) => b.genre == g
    case ByPrice(lo, hi) => lo <= b.price <= hi
  }

  /** The rows a query selects, all of them (pagination is not modelled). */
  function FindAll(m: Store, q: Query): (r: set<BookRecord>)
    ensures forall b :: b in r <==> b in m.Values && Matches(q, b)
  {
    set k | k in m && Matches(q, m[k]) :: m[k]
  }

  // ---------------------------------------------------------------------
  // Messages

  const ISBN_BLANK: string := "ISBN must not be null or blank"
  const AMOUNT_NOT_POSITIVE: string := "Amount to remove must be greater than zero."
  const UPDATE_NULL: string := "Updated book must not be null"
  const FILTER_TYPE_BLANK: string := "Filter type must not be null or blank"
  const FILTER_VALUE_BLANK: string := "Filter value must not be null or blank"
  const PAGE_INVALID: string := "Page must be >= 0 and size must be > 0"
  const PRICE_NEGATIVE: string := "Prices must not be negative"
  const PRICE_RANGE_REVERSED: string := "minPrice cannot be greater than maxPrice"

  function IsbnNotFound(isbn: string): string {
    "Book with ISBN " + isbn + " not found."
  }

  // ---------------------------------------------------------------------
  // addBook

  /** `addBook(c)`: an existing row takes `c`'s quantity on top of its own
      and keeps its own title, author, genre and price; an absent ISBN gets
      `c` stored as it is. The merge goes through `updateQuantity`, so an
      `int` overflow of the sum makes it throw. */
  function AddStep(m: Store, c: BookRecord): (s: Step<BookRecord>)
    ensures forall k :: k != c.isbn ==> (k in s.after <==> k in m) && (k in m ==> s.after[k] == m[k])
    ensures c.isbn !in m ==> s.result == Ok(c) && s.after == m[c.isbn := c]
    ensures c.isbn in m && s.result.Ok? ==>
      c.isbn in s.after && s.result.value == s.after[c.isbn] &&
      SameExceptQuantity(s.after[c.isbn], m[c.isbn])
    ensures c.isbn in m && m[c.isbn].quantity >= 0 && s.result.Ok? ==>
      s.after[c.isbn].quantity == m[c.isbn].quantity + c.quantity
    ensures c.isbn in m && m[c.isbn].quantity >= 0 ==>
      (s.result.Err? <==> !(0 <= m[c.isbn].quantity + c.quantity <= INT_MAX))
    ensures s.result.Err? ==> s.result.error == InvalidArgument(NOT_ENOUGH_STOCK) && s.after == m
  {
    if c.isbn in m then
      var existing := m[c.isbn];
      match Adjusted(existing.quantity, c.quantity)
      case None => Step(Err(InvalidArgument(NOT_ENOUGH_STOCK)), m)
      case Some(n) =>
        var merged := existing.(quantity := n);
        Step(Ok(merged), m[c.isbn := merged])
    else
      Step(Ok(c), m[c.isbn := c])
  }

  /** Adding puts exactly the candidate's copies into stock, or changes
      nothing. */
  lemma AddConservesTotal(m: Store, c: BookRecord)
    requires StoreValid(m)
    ensures var s := AddStep(m, c);
      Total(s.after) == Total(m) + (if s.result.Ok? then c.quantity else 0)
  {
    var s := AddStep(m, c);
    if s.result.Ok? {
      TotalAfterPut(m, c.isbn, s.after[c.isbn]);
      assert s.after == m[c.isbn := s.after[c.isbn]];
      if c.isbn in m {
        TotalWithout(m, c.isbn);
      } else {
        assert m - {c.isbn} == m;
      }
    }
  }

  lemma AddPreservesInvariants(m: Store, c: BookRecord)
    requires StoreValid(m) && (c.isbn !in m ==> RecordValid(c))
    ensures StoreValid(AddStep(m, c).after)
    ensures InStock(m) && c.quantity >= 1 ==> InStock(AddStep(m, c).after)
  {
  }

  /** Adding the same ISBN twice leaves one row holding both quantities and
      the first book's title, author, genre and price. */
  lemma AddTwiceMerges(m: Store, c1: BookRecord, c2: BookRecord)
    requires c1.isbn !in m && c2.isbn == c1.isbn
    requires RecordValid(c1) && RecordValid(c2) && c1.quantity + c2.quantity <= INT_MAX
    ensures var s := AddStep(AddStep(m, c1).after, c2);
      s.result.Ok? && s.after.Keys == m.Keys + {c1.isbn} &&
      SameExceptQuantity(s.after[c1.isbn], c1) &&
      s.after[c1.isbn].quantity == c1.quantity + c2.quantity
  {
  }

  // ---------------------------------------------------------------------
  // removeBook

  /** `removeBook(isbn, amount)`: validates the ISBN and then the amount
      before reading the store, fails when the ISBN is absent or the stock is
      short, deletes the row when it reaches zero, and otherwise stores and
      returns the decreased row. */
  function RemoveStep(m: Store, isbn: string, amount: Int32): (s: Step<Option<BookRecord>>)
    ensures IsBlank(isbn) ==> s == Step(Err(InvalidArgument(ISBN_BLANK)), m)
    ensures !IsBlank(isbn) && amount <= 0 ==> s == Step(Err(InvalidArgument(AMOUNT_NOT_POSITIVE)), m)
    ensures !IsBlank(isbn) && amount > 0 && isbn !in m ==> s == Step(Err(NotFound(IsbnNotFound(isbn))), m)
    ensures !IsBlank(isbn) && amount > 0 && isbn in m && m[isbn].quantity >= 0 ==>
      && (s.result.Err? <==> amount > m[isbn].quantity)
      && (s.result.Err? ==> s.result.error == InvalidArgument(NOT_ENOUGH_STOCK))
      && (s.result == Ok(None) <==> amount == m[isbn].quantity)
    ensures s.result.Err? ==> s.after == m
    ensures s.result == Ok(None) ==> isbn in m && s.after == m - {isbn}
    ensures s.result.Ok? && s.result.value.Some? ==>
      isbn in m && s.after == m[isbn := s.result.value.value] &&
      SameExceptQuantity(s.result.value.value, m[isbn]) &&
      s.result.value.value.quantity >= 1
    ensures s.result.Ok? && m[isbn].quantity >= 0 ==>
      (if s.result.value.Some? then s.result.value.value.quantity else 0) == m[isbn].quantity - amount
  {
    if IsBlank(isbn) then Step(Err(InvalidArgument(ISBN_BLANK)), m)
    else if amount <= 0 then Step(Err(InvalidArgument(AMOUNT_NOT_POSITIVE)), m)
    else if isbn !in m then Step(Err(NotFound(IsbnNotFound(isbn))), m)
    else
      var book := m[isbn];
      match Adjusted(book.quantity, -amount)
      case None => Step(Err(InvalidArgument(NOT_ENOUGH_STOCK)), m)
      case Some(n) =>
        if n == 0 then Step(Ok(None), m - {isbn})
        else
          var left := book.(quantity := n);
          Step(Ok(Some(left)), m[isbn := left])
  }

  /** Removing takes exactly `amount` copies out of stock, or changes
      nothing. */
  lemma RemoveConservesTotal(m: Store, isbn: string, amount: Int32)
    requires StoreValid(m)
    ensures var s := RemoveStep(m, isbn, amount);
      Total(s.after) == Total(m) - (if s.result.Ok? then amount as int else 0)
  {
    var s := RemoveStep(m, isbn, amount);
    if s.result.Ok? {
      TotalWithout(m, isbn);
      if s.result.value.Some? {
        TotalAfterPut(m, isbn, s.result.value.value);
      }
    }
  }

  lemma RemovePreservesInvariants(m: Store, isbn: string, amount: Int32)
    requires StoreValid(m)
    ensures StoreValid(RemoveStep(m, isbn, amount).after)
    ensures InStock(m) ==> InStock(RemoveStep(m, isbn, amount).after)
  {
  }

  // ---------------------------------------------------------------------
  // updateBook

  /** `updateBook(updated, isbn)`: validates the ISBN and then the update,
      fails when the ISBN is absent, and otherwise overwrites title, author,
      genre and price, keeping the stored ISBN and quantity. */
  function UpdateStep(m: Store, isbn: string, updated: Option<BookRecord>): (s: Step<BookRecord>)
    ensures IsBlank(isbn) ==> s == Step(Err(InvalidArgument(ISBN_BLANK)), m)
    ensures !IsBlank(isbn) && updated.None? ==> s == Step(Err(InvalidArgument(UPDATE_NULL)), m)
    ensures !IsBlank(isbn) && updated.Some? && isbn !in m ==> s == Step(Err(NotFound("Book not found: " + isbn)), m)
    ensures s.result.Ok? <==> !IsBlank(isbn) && updated.Some? && isbn in m
    ensures s.result.Err? ==> s.after == m
    ensures s.result.Ok? ==>
      var r := s.result.value;
      && s.after == m[isbn := r]
      && r.isbn == m[isbn].isbn && r.quantity == m[isbn].quantity
      && r.title == updated.value.title && r.author == updated.value.author
      && r.genre == updated.value.genre && r.price == updated.value.price
  {
    if IsBlank(isbn) then Step(Err(InvalidArgument(ISBN_BLANK)), m)
    else if updated.None? then Step(Err(InvalidArgument(UPDATE_NULL)), m)
    else if isbn !in m then Step(Err(NotFound("Book not found: " + isbn)), m)
    else
      var u := updated.value;
      var r := m[isbn].(title := u.title, author := u.author, genre := u.genre, price := u.price);
      Step(Ok(r), m[isbn := r])
  }

  /** An update never changes the stock. */
  lemma UpdateKeepsTotal(m: Store, isbn: string, updated: Option<BookRecord>)
    ensures Total(UpdateStep(m, isbn, updated).after) == Total(m)
  {
    var s := UpdateStep(m, isbn, updated);
    if s.result.Ok? {
      TotalWithout(m, isbn);
      TotalAfterPut(m, isbn, s.result.value);
    }
  }

  lemma UpdatePreservesInvariants(m: Store, isbn: string, updated: Option<BookRecord>)
    requires StoreValid(m)
    requires updated.Some? ==> !IsBlank(updated.value.title) && !IsBlank(updated.value.author) && updated.value.price >= 0.0
    ensures StoreValid(UpdateStep(m, isbn, updated).after)
    ensures InStock(m) ==> InStock(UpdateStep(m, isbn, updated).after)
  {
  }

  // ---------------------------------------------------------------------
  // getBookByIsbn

  /** `getBookByIsbn(isbn)`: the stored row itself. */
  function GetBookByIsbn(m: Store, isbn: string): (r: Result<BookRecord>)
    ensures r.Ok? <==> !IsBlank(isbn) && isbn in m
    ensures r.Ok? ==> r.value == m[isbn]
    ensures IsBlank(isbn) ==> r == Err(InvalidArgument(ISBN_BLANK))
    ensures !IsBlank(isbn) && isbn !in m ==> r == Err(NotFound(IsbnNotFound(isbn)))
  {
    if IsBlank(isbn) then Err(InvalidArgument(ISBN_BLANK))
    else if isbn !in m then Err(NotFound(IsbnNotFound(isbn)))
    else Ok(m[isbn])
  }

  /** What `addBook` returns is what a later lookup of its ISBN finds. */
  lemma LookupAfterAdd(m: Store, c: BookRecord)
    requires RecordValid(c)
    ensures AddStep(m, c).result.Ok? ==> GetBookByIsbn(AddStep(m, c).after, c.isbn) == AddStep(m, c).result
  {
  }

  /** In a valid store, two stored rows are the same book exactly when they
      sit under the same key. */
  lemma StoredEqualityIsKeyEquality(m: Store, k1: string, k2: string)
    requires StoreValid(m) && k1 in m && k2 in m
    ensures SameBook(m[k1], m[k2]) <==> k1 == k2
  {
  }

  /** A book's identity is its ISBN, and no operation changes it: a row a
      successful `addBook` leaves under a key is the same book as the row
      stored there before, and the row it returns has the candidate's ISBN. */
  lemma AddKeepsIdentity(m: Store, c: BookRecord)
    requires StoreValid(m)
    ensures var s := AddStep(m, c);
      (s.result.Ok? ==> SameBook(s.result.value, c)) &&
      forall k :: k in m && k in s.after ==> SameBook(s.after[k], m[k])
  {
  }

  /** `removeBook` keeps the identity of every row it leaves. */
  lemma RemoveKeepsIdentity(m: Store, isbn: string, amount: Int32)
    ensures var s := RemoveStep(m, isbn, amount);
      (s.result.Ok? && s.result.value.Some? ==> SameBook(s.result.value.value, m[isbn])) &&
      forall k :: k in m && k in s.after ==> SameBook(s.after[k], m[k])
  {
  }

  /** `updateBook` keeps the identity of every row, the updated one included. */
  lemma UpdateKeepsIdentity(m: Store, isbn: string, updated: Option<BookRecord>)
    ensures var s := UpdateStep(m, isbn, updated);
      (s.result.Ok? ==> SameBook(s.result.value, m[isbn])) &&
      forall k :: k in m && k in s.after ==> SameBook(s.after[k], m[k])
  {
  }

  // ---------------------------------------------------------------------
  // getBooksByAttribute

  /** The three attributes a caller may filter on. */
  datatype FilterType = GenreFilter | TitleFilter | AuthorFilter

  function FilterName(f: FilterType): string {
    match f
    case GenreFilter => "genre"
    case TitleFilter => "title"
    case AuthorFilter => "author"
  }

  /** The `switch` on `filterType.toLowerCase()`: `None` is its `default`. */
  function ParseFilterType(t: string): (r: Option<FilterType>)
    ensures r.Some? ==> FilterName(r.value) == ToLower(t)
    ensures r.None? <==> forall f :: FilterName(f) != ToLower(t)
  {
    var l := ToLower(t);
    if l == "genre" then Some(GenreFilter)
    else if l == "title" then Some(TitleFilter)
    else if l == "author" then Some(AuthorFilter)
    else None
  }

  /** Every attribute is recognised by its name, in any ASCII case. */
  lemma ParseFilterTypeOfName(f: FilterType, t: string)
    requires ToLower(t) == FilterName(f)
    ensures ParseFilterType(t) == Some(f)
  {
  }

  /** The repository query a filter dispatches to; a genre value is looked up
      by its upper-cased spelling, and `None` means no constant has it. */
  function AttributeQuery(f: FilterType, v: string): (q: Option<Query>)
    ensures f != GenreFilter ==> q.Some?
    ensures f == GenreFilter ==> (q.Some? <==> exists g :: Name(g) == ToUpper(v))
    ensures q.Some? ==> q.value == match f
      case GenreFilter => ByGenre(ValueOf(ToUpper(v)).value)
      case TitleFilter => ByTitle(v)
      case AuthorFilter => ByAuthor(v)
  {
    match f
    case GenreFilter =>
      (match ValueOf(ToUpper(v))
       case None => None
       case Some(g) => Some(ByGenre(g)))
    case TitleFilter => Some(ByTitle(v))
    case AuthorFilter => Some(ByAuthor(v))
  }

  /** `getBooksByAttribute(t, v, page, size)`: the books whose attribute `t`
      equals `v`, after the guards on `t`, `v`, the paging arguments, the
      attribute name and (for genres) the genre name. */
  function GetBooksByAttribute(m: Store, t: string, v: string, page: int, size: int): (r: Result<set<BookRecord>>)
    ensures IsBlank(t) ==> r == Err(InvalidArgument(FILTER_TYPE_BLANK))
    ensures !IsBlank(t) && IsBlank(v) ==> r == Err(InvalidArgument(FILTER_VALUE_BLANK))
    ensures !IsBlank(t) && !IsBlank(v) && (page < 0 || size <= 0) ==> r == Err(InvalidArgument(PAGE_INVALID))
    ensures (!IsBlank(t) && !IsBlank(v) && page >= 0 && size > 0 &&
             ToLower(t) != "genre" && ToLower(t) != "title" && ToLower(t) != "author") ==>
      r == Err(InvalidArgument("Invalid filter type: " + t))
    ensures (!IsBlank(t) && !IsBlank(v) && page >= 0 && size > 0 &&
             ToLower(t) == "genre" && ValueOf(ToUpper(v)).None?) ==>
      r == Err(InvalidArgument("Invalid genre: " + v))
    ensures r.Ok? && ToLower(t) == "genre" ==>
      ValueOf(ToUpper(v)).Some? && r.value == FindAll(m, ByGenre(ValueOf(ToUpper(v)).value))
    ensures r.Ok? && ToLower(t) == "title" ==> r.value == FindAll(m, ByTitle(v))
    ensures r.Ok? && ToLower(t) == "author" ==> r.value == FindAll(m, ByAuthor(v))
    ensures r.Ok? <==>
      && !IsBlank(t) && !IsBlank(v) && page >= 0 && size > 0
      && (ToLower(t) == "title" || ToLower(t) == "author" ||
          (ToLower(t) == "genre" && ValueOf(ToUpper(v)).Some?))
  {
    if IsBlank(t) then Err(InvalidArgument(FILTER_TYPE_BLANK))
    else if IsBlank(v) then Err(InvalidArgument(FILTER_VALUE_BLANK))
    else if page < 0 || size <= 0 then Err(InvalidArgument(PAGE_INVALID))
    else
      match ParseFilterType(t)
      case None => Err(InvalidArgument("Invalid filter type: " + t))
      case Some(f) =>
        match AttributeQuery(f, v)
        case None => Err(InvalidArgument("Invalid genre: " + v))
        case Some(q) => Ok(FindAll(m, q))
  }

  /** The attribute name is matched ignoring case, and so is a genre name:
      two calls that agree up to case there select the same books (the error
      messages quote the caller's own spelling). */
  lemma AttributeFilterIgnoresCase(m: Store, t1: string, t2: string, v1: string, v2: string, page: int, size: int)
    requires ToLower(t1) == ToLower(t2)
    requires if ToLower(t1) == "genre" then ToUpper(v1) == ToUpper(v2) else v1 == v2
    ensures var r1, r2 := GetBooksByAttribute(m, t1, v1, page, size), GetBooksByAttribute(m, t2, v2, page, size);
      (r1.Ok? <==> r2.Ok?) && (r1.Ok? ==> r1 == r2)
  {
    BlankUnderToLower(t1);
    BlankUnderToLower(t2);
    BlankUnderToUpper(v1);
    BlankUnderToUpper(v2);
  }

  // ---------------------------------------------------------------------
  // getBooksByPrice

  /** `getBooksByPrice(lo, hi, page, size)`: the books priced from `lo` to
      `hi` inclusive, after the guards on the prices and the paging
      arguments. */
  function GetBooksByPrice(m: Store, lo: real, hi: real, page: int, size: int): (r: Result<set<BookRecord>>)
    ensures lo < 0.0 || hi < 0.0 ==> r == Err(InvalidArgument(PRICE_NEGATIVE))
    ensures 0.0 <= lo && 0.0 <= hi && lo > hi ==> r == Err(InvalidArgument(PRICE_RANGE_REVERSED))
    ensures 0.0 <= lo <= hi && (page < 0 || size <= 0) ==> r == Err(InvalidArgument(PAGE_INVALID))
    ensures r.Ok? <==> 0.0 <= lo <= hi && page >= 0 && size > 0
    ensures r.Ok? ==> forall b :: b in r.value <==> b in m.Values && lo <= b.price <= hi
  {
    if lo < 0.0 || hi < 0.0 then Err(InvalidArgument(PRICE_NEGATIVE))
    else if lo > hi then Err(InvalidArgument(PRICE_RANGE_REVERSED))
    else if page < 0 || size <= 0 then Err(InvalidArgument(PAGE_INVALID))
    else Ok(FindAll(m, ByPrice(lo, hi)))
  }
}
