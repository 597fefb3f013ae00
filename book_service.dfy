/**
 * The book service: stock adjustment on the book table, and the paged search
 * that chooses between the whole catalogue and the keyword search.
 */
module BookService {
  import opened Outcomes
  import opened Entities
  import opened Paging

  // ---------------------------------------------------------------------------
  // Stock adjustment, as transitions of the book table
  // ---------------------------------------------------------------------------

  /** `decreaseStock`: only when the book exists and has at least `quantity` copies on the shelf. */
  function DecreaseStock(books: map<ObjectId, Book>, id: ObjectId, quantity: int): (map<ObjectId, Book>, bool)
  {
    if id in books && books[id].availableCopies >= quantity
    then (books[id := books[id].(availableCopies := books[id].availableCopies - quantity)], true)
    else (books, false)
  }

  /** `increaseStock`: adds `quantity` to an existing book, then caps at the total number of copies. */
  function IncreaseStock(books: map<ObjectId, Book>, id: ObjectId, quantity: int): (map<ObjectId, Book>, bool)
  {
    if id in books then
      var raised := books[id].availableCopies + quantity;
      var capped := if raised > books[id].totalCopies then books[id].totalCopies else raised;
      (books[id := books[id].(availableCopies := capped)], true)
    else (books, false)
  }

  /** Only the adjusted book changes, and only in its shelf count. */
  predicate OnlyStockOf(books: map<ObjectId, Book>, books': map<ObjectId, Book>, id: ObjectId)
  {
    && books'.Keys == books.Keys
    && (forall b :: b in books && b != id ==> books'[b] == books[b])
    && (id in books ==> books'[id] == books[id].(availableCopies := books'[id].availableCopies))
  }

  lemma DecreaseStockOutcome(books: map<ObjectId, Book>, id: ObjectId, quantity: int)
    ensures var (books', ok) := DecreaseStock(books, id, quantity);
      && (ok <==> id in books && books[id].availableCopies >= quantity)
      && (ok ==> OnlyStockOf(books, books', id) && books'[id].availableCopies == books[id].availableCopies - quantity)
      && (!ok ==> books' == books)
  {
  }

  /** A decrease by a non-negative quantity never leaves a negative shelf count. */
  lemma DecreaseNeverNegative(books: map<ObjectId, Book>, id: ObjectId, quantity: int)
    requires quantity >= 0
    requires forall b :: b in books ==> books[b].availableCopies >= 0
    ensures var (books', _) := DecreaseStock(books, id, quantity);
      forall b :: b in books' ==> books'[b].availableCopies >= 0
  {
  }

  lemma IncreaseStockOutcome(books: map<ObjectId, Book>, id: ObjectId, quantity: int)
    ensures var (books', ok) := IncreaseStock(books, id, quantity);
      && (ok <==> id in books)
      && (ok ==> OnlyStockOf(books, books', id)
                 && books'[id].availableCopies == Min(books[id].availableCopies + quantity, books[id].totalCopies))
      && (!ok ==> books' == books)
  {
  }

  /** After a successful increase the shelf count never exceeds the total, whatever it was before. */
  lemma IncreaseRespectsTotal(books: map<ObjectId, Book>, id: ObjectId, quantity: int)
    ensures var (books', ok) := IncreaseStock(books, id, quantity);
      ok ==> books'[id].availableCopies <= books'[id].totalCopies
  {
  }

  /** Taking `quantity` copies and putting them back restores the table when the shelf was within the total. */
  lemma DecreaseThenIncrease(books: map<ObjectId, Book>, id: ObjectId, quantity: int)
    requires id in books && books[id].availableCopies <= books[id].totalCopies
    requires DecreaseStock(books, id, quantity).1
    ensures IncreaseStock(DecreaseStock(books, id, quantity).0, id, quantity) == (books, true)
  {
    var (books', _) := DecreaseStock(books, id, quantity);
    assert books'[id].availableCopies + quantity == books[id].availableCopies;
    assert books'[id := books'[id].(availableCopies := books[id].availableCopies)] == books;
  }

  /** The book table, with the stock adjusters updating a book's shelf count in place. */
  class BookService {
    var books: map<ObjectId, Book>

    constructor (books: map<ObjectId, Book>)
      ensures this.books == books
    {
      this.books := books;
    }

    /** `getBookById`. */
    function GetBookById(id: ObjectId): (b: Option<Book>)
      reads this
      ensures b.Some? <==> id in books
      ensures b.Some? ==> b.value == books[id]
    {
      if id in books then Some(books[id]) else None
    }

    method DecreaseStockOf(id: ObjectId, quantity: int) returns (ok: bool)
      modifies this
      ensures (books, ok) == DecreaseStock(old(books), id, quantity)
    {
      var book := GetBookById(id);
      if book.Some? && book.value.availableCopies >= quantity {
        books := books[id := book.value.(availableCopies := book.value.availableCopies - quantity)];
        return true;
      }
      return false;
    }

    method IncreaseStockOf(id: ObjectId, quantity: int) returns (ok: bool)
      modifies this
      ensures (books, ok) == IncreaseStock(old(books), id, quantity)
    {
      var book := GetBookById(id);
      if book.Some? {
        var b := book.value.(availableCopies := book.value.availableCopies + quantity);
        if b.availableCopies > b.totalCopies {
          b := b.(availableCopies := b.totalCopies);
        }
        books := books[id := b];
        return true;
      }
      return false;
    }
  }

  // ---------------------------------------------------------------------------
  // searchBooks
  // ---------------------------------------------------------------------------

  /** `keyword == null || keyword.trim().isEmpty()`: `trim` drops every character up to the space character. */
  predicate IsBlank(keyword: Option<string>)
  {
    keyword.None? || forall i :: 0 <= i < |keyword.value| ==> keyword.value[i] <= ' '
  }

  /**
   * The repository's keyword search over the catalogue, in store order; what
   * counts as a match is the store's pattern query, taken as a parameter.
   */
  function SearchByKeyword(all: seq<Book>, keyword: string, matches: (Book, string) -> bool): (found: seq<Book>)
    ensures |found| <= |all|
    ensures forall b :: b in found <==> b in all && matches(b, keyword)
  {
    if all == [] then []
    else (if matches(all[0], keyword) then [all[0]] else []) + SearchByKeyword(all[1..], keyword, matches)
  }

  /**
   * `searchBooks(keyword, page, size)` over the catalogue `all` (what
   * `findAll` returns): an invalid page request is refused; a blank keyword
   * pages over the catalogue, any other keyword over the search results.
   */
  function SearchBooks(all: seq<Book>, keyword: Option<string>, page: int, size: int,
                       matches: (Book, string) -> bool): Result<Page<Book>, PageError>
  {
    match PageRequestOf(page, size)
    case Failure(e) => Failure(e)
    case Success(p) =>
      if IsBlank(keyword) then Success(GetPageFromList(all, p))
      else Success(GetPageFromList(SearchByKeyword(all, keyword.value, matches), p))
  }

  /** Every book on a page of a list is in that list. */
  lemma PageContentFromList<T>(items: seq<T>, p: Pageable)
    ensures forall x :: x in GetPageFromList(items, p).content ==> x in items
  {
    var start := Offset(p);
    if start <= |items| {
      forall x | x in GetPageFromList(items, p).content
        ensures x in items
      {
        var k :| 0 <= k < |items[start..Min(start + p.size, |items|)]| && items[start..Min(start + p.size, |items|)][k] == x;
        assert items[start + k] == x;
      }
    }
  }

  /** The request is refused exactly when page or size is out of range; a result is at most one page long. */
  lemma SearchBooksShape(all: seq<Book>, keyword: Option<string>, page: int, size: int, matches: (Book, string) -> bool)
    ensures var r := SearchBooks(all, keyword, page, size, matches);
      && (r.Failure? <==> page < 0 || size < 1)
      && (r.Success? ==> |r.value.content| <= size)
  {
    if page >= 0 && size >= 1 {
      var p := PageRequestOf(page, size).value;
      PageShape(all, p);
      if !IsBlank(keyword) {
        PageShape(SearchByKeyword(all, keyword.value, matches), p);
      }
    }
  }

  /** A blank keyword shows a page of the whole catalogue. */
  lemma BlankSearchIsCatalogue(all: seq<Book>, keyword: Option<string>, page: nat, size: nat, matches: (Book, string) -> bool)
    requires IsBlank(keyword) && size >= 1
    ensures SearchBooks(all, keyword, page, size, matches) == Success(GetPageFromList(all, Pageable(page, size)))
  {
  }

  /**
   * A non-blank keyword shows the requested page of the search results, so
   * only catalogue books that match it.
   */
  lemma KeywordSearchMatches(all: seq<Book>, keyword: Option<string>, page: int, size: int, matches: (Book, string) -> bool)
    requires !IsBlank(keyword)
    ensures page >= 0 && size >= 1 ==>
      SearchBooks(all, keyword, page, size, matches)
        == Success(GetPageFromList(SearchByKeyword(all, keyword.value, matches), Pageable(page, size)))
    ensures var r := SearchBooks(all, keyword, page, size, matches);
      r.Success? ==> forall b :: b in r.value.content ==> b in all && matches(b, keyword.value)
  {
    if page >= 0 && size >= 1 {
      PageContentFromList(SearchByKeyword(all, keyword.value, matches), Pageable(page, size));
    }
  }
}
