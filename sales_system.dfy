/** The v3.0 purchase logic of SalesSystem.cpp (a definition of class
    SaleSys): the guards run in the intended order, so a purchase succeeds
    exactly when the stock check would pass. Prices are cents. */
module SalesSystem {
  import opened Books
  import opened Inventory
  import StoreV3

  /** consume: the price of `quantity` copies. */
  function Consume(price: int, quantity: int): (r: int)
    ensures quantity == 0 ==> r == 0
    ensures quantity == 1 ==> r == price
  {
    price * quantity
  }

  /** The charge is additive in the quantity. */
  lemma ConsumeAdditive(price: int, a: int, b: int)
    ensures Consume(price, a + b) == Consume(price, a) + Consume(price, b)
  {
    assert price * (a + b) == price * a + price * b;
  }

  /** checkStock on the books of a store. */
  predicate StockSuffices(books: seq<Book>, isbn: string, quantity: int) {
    quantity > 0 && IndexOf(books, isbn) != -1 && books[IndexOf(books, isbn)].stock >= quantity
  }

  /** purchaseBook on the books of a store: whether it succeeds and the books
      afterwards. */
  function Purchase(books: seq<Book>, isbn: string, quantity: int): (r: (bool, seq<Book>))
    ensures r.0 <==> quantity > 0 && HasIsbn(books, isbn)
                     && books[IndexOf(books, isbn)].stock >= quantity
    ensures !r.0 ==> r.1 == books
    ensures |r.1| == |books|
    ensures forall j :: 0 <= j < |books| && j != IndexOf(books, isbn) ==> r.1[j] == books[j]
  {
    if quantity <= 0 then (false, books)
    else
      var index := IndexOf(books, isbn);
      if index == -1 then (false, books)
      else if books[index].stock < quantity then (false, books)
      else (true, books[index := SetStock(books[index], books[index].stock - quantity)])
  }

  /** A purchase removes exactly `quantity` copies of the one book it finds,
      touches none of that book's other fields, and succeeds exactly when
      checkStock would have said yes. */
  lemma PurchaseMatchesCheck(books: seq<Book>, isbn: string, quantity: int)
    ensures Purchase(books, isbn, quantity).0 == StockSuffices(books, isbn, quantity)
    ensures Purchase(books, isbn, quantity).0 ==>
      var k := IndexOf(books, isbn);
      Purchase(books, isbn, quantity).1[k] == books[k].(stock := books[k].stock - quantity)
      && TotalStock(Purchase(books, isbn, quantity).1) == TotalStock(books) - quantity
  {
    HasIsbnIndexOf(books, isbn);
    var k := IndexOf(books, isbn);
    if quantity > 0 && k != -1 && books[k].stock >= quantity {
      var nb := books[k].(stock := books[k].stock - quantity);
      assert Purchase(books, isbn, quantity) == (true, books[k := nb]);
      TotalStockReplace(books, k, nb);
    }
  }

  /** No purchase drives a stock below zero: a store without negative stock
      keeps none. */
  lemma PurchaseKeepsStockNonNegative(books: seq<Book>, isbn: string, quantity: int)
    requires forall j :: 0 <= j < |books| ==> books[j].stock >= 0
    ensures forall j :: 0 <= j < |books| ==> Purchase(books, isbn, quantity).1[j].stock >= 0
  {
  }

  class SaleSys {
    const bookManager: StoreV3.BookManager

    constructor(manager: StoreV3.BookManager)
      ensures bookManager == manager
    {
      bookManager := manager;
    }

    /** checkStock: a positive quantity of a present book, no more than its
        stock. */
    predicate CheckStock(isbn: string, quantity: int)
      reads bookManager
    {
      StockSuffices(bookManager.books, isbn, quantity)
    }

    /** getBookPrice: the price, or 0 for an absent ISBN. */
    function GetBookPrice(isbn: string): (p: int)
      reads bookManager
      ensures !HasIsbn(bookManager.books, isbn) ==> p == 0
      ensures HasIsbn(bookManager.books, isbn) ==> p == bookManager.books[IndexOf(bookManager.books, isbn)].price
    {
      var index := IndexOf(bookManager.books, isbn);
      if index == -1 then 0 else bookManager.books[index].price
    }

    /** getTotalPrice: 0 for a quantity that is not positive, otherwise the
        price times the quantity (and so 0 for an absent ISBN). */
    function GetTotalPrice(isbn: string, quantity: int): (t: int)
      reads bookManager
      ensures quantity <= 0 || !HasIsbn(bookManager.books, isbn) ==> t == 0
      ensures quantity > 0 ==> t == Consume(GetBookPrice(isbn), quantity)
    {
      if quantity <= 0 then 0 else Consume(GetBookPrice(isbn), quantity)
    }

    /** purchaseBook. The pointer findByISBN returns is the slot at
        findBookIndex. */
    method PurchaseBook(isbn: string, quantity: int) returns (ok: bool)
      modifies bookManager
      ensures ok == old(CheckStock(isbn, quantity))
      ensures (ok, bookManager.books) == Purchase(old(bookManager.books), isbn, quantity)
      ensures old(bookManager.Valid()) ==> bookManager.Valid()
    {
      if quantity <= 0 {
        return false;
      }
      var index := bookManager.FindBookIndex(isbn);
      if index == -1 {
        return false;
      }
      var book := bookManager.books[index];
      if book.stock < quantity {
        return false;
      }
      if bookManager.Valid() {
        ReplaceKeepsUnique(bookManager.books, index, SetStock(book, book.stock - quantity));
      }
      bookManager.books := bookManager.books[index := SetStock(book, book.stock - quantity)];
      return true;
    }
  }
}
