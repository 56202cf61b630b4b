/** The v3.0 StatisSys, a read-only view of a v3.0 BookManager. Money is in
    cents, the total value in cent-units, and the mean price an exact quotient. */
module StatisSys {
  import opened Common
  import opened Books
  import opened Inventory
  import opened Sorting
  import StoreV3

  class StatisSys {
    const bookManager: StoreV3.BookManager

    constructor(manager: StoreV3.BookManager)
      ensures bookManager == manager
    {
      bookManager := manager;
    }

    /** getTotalBooks: the number of books in the store. */
    function GetTotalBooks(): (n: nat)
      reads bookManager
      ensures n == |bookManager.books|
    {
      bookManager.BookCount()
    }

    /** getTotalStock: the copies of all books together. */
    method GetTotalStock() returns (total: int)
      ensures total == TotalStock(bookManager.books)
    {
      var books := bookManager.books;
      total := 0;
      var i := 0;
      while i < |books|
        invariant 0 <= i <= |books|
        invariant total == TotalStock(books[..i])
      {
        TotalsPrefix(books, i);
        total := total + books[i].stock;
        i := i + 1;
      }
      assert books[..i] == books;
    }

    /** getTotalValue: the sum of price times stock over all books. */
    method GetTotalValue() returns (total: int)
      ensures total == TotalValue(bookManager.books)
    {
      var books := bookManager.books;
      total := 0;
      var i := 0;
      while i < |books|
        invariant 0 <= i <= |books|
        invariant total == TotalValue(books[..i])
      {
        TotalsPrefix(books, i);
        total := total + books[i].price * books[i].stock;
        i := i + 1;
      }
      assert books[..i] == books;
    }

    /** getAveragePrice: 0 for an empty store, else the mean price. */
    method GetAveragePrice() returns (avg: real)
      ensures bookManager.books == [] ==> avg == 0.0
      ensures bookManager.books != [] ==>
        avg == TotalPrice(bookManager.books) as real / |bookManager.books| as real
    {
      var books := bookManager.books;
      if |books| == 0 {
        return 0.0;
      }
      var total := 0;
      var i := 0;
      while i < |books|
        invariant 0 <= i <= |books|
        invariant total == TotalPrice(books[..i])
      {
        TotalsPrefix(books, i);
        total := total + books[i].price;
        i := i + 1;
      }
      assert books[..i] == books;
      avg := total as real / |books| as real;
    }

    method GetBooksByAuthor(author: string) returns (r: seq<Book>)
      ensures r == Search(bookManager.books, Author, author, Substring)
      ensures forall b :: b in r <==> b in bookManager.books && Contains(b.author, author)
    {
      r := bookManager.FindByAuthor(author);
    }

    method GetBooksByPublisher(publisher: string) returns (r: seq<Book>)
      ensures r == Search(bookManager.books, Publisher, publisher, Substring)
      ensures forall b :: b in r <==> b in bookManager.books && Contains(b.publisher, publisher)
    {
      r := bookManager.FindByPublisher(publisher);
    }

    method GetBooksSortedByPrice() returns (r: seq<Book>)
      ensures NonIncreasing(r, ByPrice)
      ensures multiset(r) == multiset(bookManager.books)
    {
      r := bookManager.SortByPrice();
    }

    method GetBooksSortedByStock() returns (r: seq<Book>)
      ensures NonIncreasing(r, ByStock)
      ensures multiset(r) == multiset(bookManager.books)
    {
      r := bookManager.SortByStock();
    }

    /** The head of the descending sort: nothing for an empty store, else a
        book of the store whose key no other book exceeds. */
    method Top(k: SortKey) returns (r: Option<Book>)
      ensures r.None? <==> bookManager.books == []
      ensures r.Some? ==> r.value in bookManager.books
      ensures r.Some? ==> forall b :: b in bookManager.books ==> KeyOf(b, k) <= KeyOf(r.value, k)
    {
      var sorted := bookManager.SortedBy(k);
      if |sorted| == 0 {
        assert |multiset(bookManager.books)| == 0;
        return None;
      }
      HeadIsMaximal(sorted, bookManager.books, k);
      r := Some(sorted[0]);
    }

    /** getMostExpensiveBook: nullptr for an empty store, else a book of the
        store that no other book is dearer than. */
    method GetMostExpensiveBook() returns (r: Option<Book>)
      ensures r.None? <==> bookManager.books == []
      ensures r.Some? ==> r.value in bookManager.books
      ensures r.Some? ==> forall b :: b in bookManager.books ==> b.price <= r.value.price
    {
      r := Top(ByPrice);
    }

    /** getHighestStockBook: nullptr for an empty store, else a book of the
        store that no other book has more copies of. */
    method GetHighestStockBook() returns (r: Option<Book>)
      ensures r.None? <==> bookManager.books == []
      ensures r.Some? ==> r.value in bookManager.books
      ensures r.Some? ==> forall b :: b in bookManager.books ==> b.stock <= r.value.stock
    {
      r := Top(ByStock);
    }
  }
}
