/** The v3.0 purchase logic of SaleSys.cpp, as written: the stock test is
    used the wrong way round, so the purchase is refused exactly when it
    should go through and goes through whenever it should be refused,
    provided the ISBN is present. */
module SaleSys {
  import opened Books
  import opened Inventory
  import StoreV3
  import SalesSystem

  /** isSuft: a positive quantity no greater than the book's stock. */
  predicate IsSuft(book: Book, quantity: int) {
    quantity > 0 && book.stock >= quantity
  }

  /** purchaseBook as written on the books of a store. */
  function Purchase(books: seq<Book>, isbn: string, quantity: int): (r: (bool, seq<Book>))
    ensures r.0 <==> HasIsbn(books, isbn) && !IsSuft(books[IndexOf(books, isbn)], quantity)
    ensures !r.0 ==> r.1 == books
    ensures |r.1| == |books|
    ensures forall j :: 0 <= j < |books| && j != IndexOf(books, isbn) ==> r.1[j] == books[j]
  {
    var index := IndexOf(books, isbn);
    if index == -1 then (false, books)
    else if IsSuft(books[index], quantity) then (false, books)
    else (true, books[index := SetStock(books[index], books[index].stock - quantity)])
  }

  /** A quantity that is not positive is accepted for a present book and
      raises its stock by minus the quantity. */
  lemma NonPositiveQuantityAccepted(books: seq<Book>, isbn: string, quantity: int)
    requires HasIsbn(books, isbn) && quantity <= 0
    ensures Purchase(books, isbn, quantity).0
    ensures var k := IndexOf(books, isbn);
            Purchase(books, isbn, quantity).1[k].stock == books[k].stock + -quantity
  {
  }

  /** A quantity above the stock is accepted and leaves the stock negative. */
  lemma OverdraftAccepted(books: seq<Book>, isbn: string, quantity: int)
    requires HasIsbn(books, isbn) && quantity > books[IndexOf(books, isbn)].stock
    ensures Purchase(books, isbn, quantity).0
    ensures Purchase(books, isbn, quantity).1[IndexOf(books, isbn)].stock < 0
  {
  }

  /** Wherever the book is present, this version and SalesSystem.cpp give
      opposite answers; for an absent ISBN both refuse. */
  lemma OppositeOfIntended(books: seq<Book>, isbn: string, quantity: int)
    ensures HasIsbn(books, isbn) ==>
      Purchase(books, isbn, quantity).0 != SalesSystem.Purchase(books, isbn, quantity).0
    ensures !HasIsbn(books, isbn) ==>
      !Purchase(books, isbn, quantity).0 && !SalesSystem.Purchase(books, isbn, quantity).0
  {
  }

  /** A concrete case: one copy in stock, two bought. */
  lemma OneInStockTwoBought()
    ensures var b := Book("T", "P", "1", "A", 1, 500);
            Purchase([b], "1", 2) == (true, [b.(stock := -1)])
            && SalesSystem.Purchase([b], "1", 2) == (false, [b])
  {
    var b := Book("T", "P", "1", "A", 1, 500);
    assert IndexOf([b], "1") == 0;
    assert [b][0 := SetStock(b, b.stock - 2)] == [b.(stock := -1)];
  }

  class SaleSys {
    const bookManager: StoreV3.BookManager

    constructor(manager: StoreV3.BookManager)
      ensures bookManager == manager
    {
      bookManager := manager;
    }

    /** totalConsume: 0 for an absent ISBN or a quantity that is not
        positive, otherwise the price times the quantity. */
    function TotalConsume(isbn: string, quantity: int): (t: int)
      reads bookManager
      ensures !HasIsbn(bookManager.books, isbn) || quantity <= 0 ==> t == 0
      ensures HasIsbn(bookManager.books, isbn) && quantity > 0
              ==> t == bookManager.books[IndexOf(bookManager.books, isbn)].price * quantity
    {
      var index := IndexOf(bookManager.books, isbn);
      if index == -1 then 0
      else if quantity <= 0 then 0
      else bookManager.books[index].price * quantity
    }

    /** purchaseBook as written. */
    method PurchaseBook(isbn: string, quantity: int) returns (ok: bool)
      modifies bookManager
      ensures (ok, bookManager.books) == Purchase(old(bookManager.books), isbn, quantity)
      ensures old(bookManager.Valid()) ==> bookManager.Valid()
    {
      var index := bookManager.FindBookIndex(isbn);
      if index == -1 {
        return false;
      }
      var book := bookManager.books[index];
      if IsSuft(book, quantity) {
        return false;
      }
      if bookManager.Valid() {
        ReplaceKeepsUnique(bookManager.books, index, SetStock(book, book.stock - quantity));
      }
      bookManager.books := bookManager.books[index := SetStock(book, book.stock - quantity)];
      return true;
    }
  }

  /** totalConsume and SalesSystem.cpp's getTotalPrice charge the same. */
  lemma TotalConsumeAgrees(s: SaleSys, t: SalesSystem.SaleSys, isbn: string, quantity: int)
    requires s.bookManager == t.bookManager
    ensures s.TotalConsume(isbn, quantity) == t.GetTotalPrice(isbn, quantity)
  {
  }
}
