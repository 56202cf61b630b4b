/** The v2.0 StatisticsManager: read-only folds over the v2.0 store. The
    printing itself is left out; what is modelled is what each report
    computes. Prices and values are cents; averages are exact quotients. */
module StatisticsManager {
  import opened Books
  import opened Inventory
  import opened Sorting
  import StoreV2
  import SalesV2

  datatype PriceStats = PriceStats(maxPrice: int, minPrice: int, avgPrice: real, totalValue: int)

  datatype StockStats = StockStats(totalBooks: int, totalStock: int, maxStock: int, minStock: int, avgStock: real)

  /** The std::map that printBooksByAuthor/printBooksByPublisher fill: each
      book appended to the group of its field value, in store order. */
  function Groups(books: seq<Book>, f: Field): (m: map<string, seq<Book>>)
  {
    if books == [] then map[]
    else
      var m := Groups(books[..|books| - 1], f);
      var last := books[|books| - 1];
      var key := FieldOf(last, f);
      m[key := (if key in m then m[key] else []) + [last]]
  }

  /** The groups are exactly the field values that occur, and each group is
      the exact-match search for its key: the books with that value, in store
      order. So every book is in one group, the one of its own value. */
  lemma {:induction false} GroupsAreSearches(books: seq<Book>, f: Field)
    ensures forall key :: key in Groups(books, f) <==> exists j :: 0 <= j < |books| && FieldOf(books[j], f) == key
    ensures forall key :: key in Groups(books, f) ==> Groups(books, f)[key] == Search(books, f, key, Exact)
    ensures forall key :: key !in Groups(books, f) ==> Search(books, f, key, Exact) == []
  {
    if books != [] {
      var init := books[..|books| - 1];
      var last := books[|books| - 1];
      GroupsAreSearches(init, f);
      var m := Groups(init, f);
      var g := Groups(books, f);
      forall key
        ensures key in g <==> exists j :: 0 <= j < |books| && FieldOf(books[j], f) == key
      {
        if key in m {
          var j :| 0 <= j < |init| && FieldOf(init[j], f) == key;
          assert books[j] == init[j];
        }
        if j :| 0 <= j < |books| && FieldOf(books[j], f) == key {
          if j < |init| {
            assert init[j] == books[j];
          }
        }
      }
      forall key
        ensures key in g ==> g[key] == Search(books, f, key, Exact)
        ensures key !in g ==> Search(books, f, key, Exact) == []
      {
        assert Search(books, f, key, Exact)
          == Search(init, f, key, Exact) + (if Matches(last, f, key, Exact) then [last] else []);
      }
    }
  }

  class StatisticsManager {
    const bookManager: StoreV2.BookManager
    const salesManager: SalesV2.SalesManager

    constructor(bm: StoreV2.BookManager, sm: SalesV2.SalesManager)
      ensures bookManager == bm && salesManager == sm
    {
      bookManager := bm;
      salesManager := sm;
    }

    /** getPriceStatistics: all zeros for an empty store; otherwise the
        largest and smallest prices, both taken by some book, the mean price
        and the value of the stock. */
    method GetPriceStatistics() returns (stats: PriceStats)
      ensures bookManager.books == [] ==> stats == PriceStats(0, 0, 0.0, 0)
      ensures bookManager.books != [] ==>
        var books := bookManager.books;
        (forall j :: 0 <= j < |books| ==> stats.minPrice <= books[j].price <= stats.maxPrice)
        && (exists j :: 0 <= j < |books| && books[j].price == stats.maxPrice)
        && (exists j :: 0 <= j < |books| && books[j].price == stats.minPrice)
        && stats.avgPrice == TotalPrice(books) as real / |books| as real
      ensures stats.totalValue == TotalValue(bookManager.books)
    {
      var books := bookManager.books;
      if |books| == 0 {
        return PriceStats(0, 0, 0.0, 0);
      }
      var sum := 0;
      var count := |books|;
      var totalValue := 0;
      var maxPrice := books[0].price;
      var minPrice := books[0].price;
      ghost var iMax, iMin := 0, 0;
      var i := 0;
      while i < |books|
        invariant 0 <= i <= |books|
        invariant sum == TotalPrice(books[..i]) && totalValue == TotalValue(books[..i])
        invariant 0 <= iMax < |books| && books[iMax].price == maxPrice
        invariant 0 <= iMin < |books| && books[iMin].price == minPrice
        invariant forall j :: 0 <= j < i ==> minPrice <= books[j].price <= maxPrice
      {
        TotalsPrefix(books, i);
        var price := books[i].price;
        sum := sum + price;
        totalValue := totalValue + price * books[i].stock;
        if price > maxPrice {
          maxPrice, iMax := price, i;
        }
        if price < minPrice {
          minPrice, iMin := price, i;
        }
        i := i + 1;
      }
      assert books[..i] == books;
      stats := PriceStats(maxPrice, minPrice, sum as real / count as real, totalValue);
    }

    /** getStockStatistics: all zeros for an empty store; otherwise the
        number of books, the total stock, the largest and smallest stocks,
        both taken by some book, and the mean stock. */
    method GetStockStatistics() returns (stats: StockStats)
      ensures bookManager.books == [] ==> stats == StockStats(0, 0, 0, 0, 0.0)
      ensures bookManager.books != [] ==>
        var books := bookManager.books;
        stats.totalBooks == |books|
        && (forall j :: 0 <= j < |books| ==> stats.minStock <= books[j].stock <= stats.maxStock)
        && (exists j :: 0 <= j < |books| && books[j].stock == stats.maxStock)
        && (exists j :: 0 <= j < |books| && books[j].stock == stats.minStock)
        && stats.avgStock == TotalStock(books) as real / |books| as real
      ensures stats.totalStock == TotalStock(bookManager.books)
    {
      var books := bookManager.books;
      if |books| == 0 {
        return StockStats(0, 0, 0, 0, 0.0);
      }
      var totalStock := 0;
      var maxStock := books[0].stock;
      var minStock := books[0].stock;
      ghost var iMax, iMin := 0, 0;
      var i := 0;
      while i < |books|
        invariant 0 <= i <= |books|
        invariant totalStock == TotalStock(books[..i])
        invariant 0 <= iMax < |books| && books[iMax].stock == maxStock
        invariant 0 <= iMin < |books| && books[iMin].stock == minStock
        invariant forall j :: 0 <= j < i ==> minStock <= books[j].stock <= maxStock
      {
        TotalsPrefix(books, i);
        var stock := books[i].stock;
        totalStock := totalStock + stock;
        if stock > maxStock {
          maxStock, iMax := stock, i;
        }
        if stock < minStock {
          minStock, iMin := stock, i;
        }
        i := i + 1;
      }
      assert books[..i] == books;
      stats := StockStats(|books|, totalStock, maxStock, minStock, totalStock as real / |books| as real);
    }

    /** The grouping loop of printBooksByAuthor / printBooksByPublisher. */
    method GroupBy(f: Field) returns (groups: map<string, seq<Book>>)
      ensures groups == Groups(bookManager.books, f)
      ensures forall key :: key in groups <==> exists j :: 0 <= j < |bookManager.books| && FieldOf(bookManager.books[j], f) == key
      ensures forall key :: key in groups ==> groups[key] == Search(bookManager.books, f, key, Exact)
    {
      var books := bookManager.books;
      groups := map[];
      var i := 0;
      while i < |books|
        invariant 0 <= i <= |books|
        invariant groups == Groups(books[..i], f)
      {
        assert books[..i + 1][..i] == books[..i];
        var key := FieldOf(books[i], f);
        var group := if key in groups then groups[key] else [];
        groups := groups[key := group + [books[i]]];
        i := i + 1;
      }
      assert books[..i] == books;
      GroupsAreSearches(books, f);
    }

    method GroupByAuthor() returns (groups: map<string, seq<Book>>)
      ensures forall key :: key in groups <==> exists j :: 0 <= j < |bookManager.books| && bookManager.books[j].author == key
      ensures forall key :: key in groups ==> groups[key] == Search(bookManager.books, Author, key, Exact)
    {
      groups := GroupBy(Author);
    }

    method GroupByPublisher() returns (groups: map<string, seq<Book>>)
      ensures forall key :: key in groups <==> exists j :: 0 <= j < |bookManager.books| && bookManager.books[j].publisher == key
      ensures forall key :: key in groups ==> groups[key] == Search(bookManager.books, Publisher, key, Exact)
    {
      groups := GroupBy(Publisher);
    }

    /** The sorted copy of printBooksSortedByPrice / printBooksSortedByStock:
        a non-increasing permutation of a copy; the store keeps its order. */
    method SortedCopy(k: SortKey) returns (sorted: seq<Book>)
      ensures NonIncreasing(sorted, k)
      ensures multiset(sorted) == multiset(bookManager.books)
    {
      var books := bookManager.books;
      sorted := SortDescending(books, k);
    }

    method SortedByPrice() returns (sorted: seq<Book>)
      ensures NonIncreasing(sorted, ByPrice)
      ensures multiset(sorted) == multiset(bookManager.books)
    {
      sorted := SortedCopy(ByPrice);
    }

    method SortedByStock() returns (sorted: seq<Book>)
      ensures NonIncreasing(sorted, ByStock)
      ensures multiset(sorted) == multiset(bookManager.books)
    {
      sorted := SortedCopy(ByStock);
    }
  }
}
