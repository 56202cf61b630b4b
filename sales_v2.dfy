/** The v2.0 SalesManager: purchases against a v2.0 BookManager, the sales
    ledger, and its line-per-record text file. The wall clock a new record is
    stamped with is the parameter `now`. */
module SalesV2 {
  import opened Common
  import opened Books
  import opened Inventory
  import opened TextStream
  import opened SaleRecords
  import StoreV2

  /** The records for one ISBN, in ledger order. */
  function RecordsFor(records: seq<SaleRecord>, isbn: string): (r: seq<SaleRecord>)
    ensures |r| <= |records|
    ensures forall x :: x in r <==> x in records && x.isbn == isbn
  {
    if records == [] then []
    else
      var init := records[..|records| - 1];
      var last := records[|records| - 1];
      assert records == init + [last];
      RecordsFor(init, isbn) + (if last.isbn == isbn then [last] else [])
  }

  /** The sum of the totals of a ledger, in cents. */
  function TotalSales(records: seq<SaleRecord>): int {
    if records == [] then 0 else TotalSales(records[..|records| - 1]) + records[|records| - 1].totalPrice
  }

  lemma {:induction false} TotalSalesAppend(a: seq<SaleRecord>, b: seq<SaleRecord>)
    ensures TotalSales(a + b) == TotalSales(a) + TotalSales(b)
    decreases |b|
  {
    if b == [] {
      assert a + b == a;
    } else {
      assert (a + b)[..|a + b| - 1] == a + b[..|b| - 1];
      TotalSalesAppend(a, b[..|b| - 1]);
    }
  }

  /** With no negative totals the sum bounds each of them. */
  lemma {:induction false} TotalSalesBounds(records: seq<SaleRecord>, k: nat)
    requires k < |records| && forall j :: 0 <= j < |records| ==> records[j].totalPrice >= 0
    ensures 0 <= records[k].totalPrice <= TotalSales(records)
    decreases |records|
  {
    var init := records[..|records| - 1];
    NonNegativeSales(init);
    if k < |init| {
      assert records[k] == init[k];
      TotalSalesBounds(init, k);
    }
  }

  lemma {:induction false} NonNegativeSales(records: seq<SaleRecord>)
    requires forall j :: 0 <= j < |records| ==> records[j].totalPrice >= 0
    ensures TotalSales(records) >= 0
  {
    if records != [] {
      NonNegativeSales(records[..|records| - 1]);
    }
  }

  /** One line of the ledger's load loop, parsed into a fresh record. */
  function LoadLine(line: string, now: string, records: seq<SaleRecord>): (r: (StoreV2.LoadStatus, seq<SaleRecord>))
    ensures r.0 == StoreV2.Loaded ==> r.1 == records || (line != [] && r.1 == records + [FromString(DefaultSaleRecord(now), line).record])
  {
    if line == [] then (StoreV2.Loaded, records)
    else
      var p := FromString(DefaultSaleRecord(now), line);
      match p.outcome
      case Parsed => (StoreV2.Loaded, records + [p.record])
      case Rejected => (StoreV2.Loaded, records)
      case Threw(e) => (StoreV2.Aborted(e), records)
  }

  function LoadLines(lines: seq<string>, now: string): (r: (StoreV2.LoadStatus, seq<SaleRecord>))
    ensures r.0 != StoreV2.OpenFailed && |r.1| <= |lines|
  {
    if lines == [] then (StoreV2.Loaded, [])
    else
      var prev := LoadLines(lines[..|lines| - 1], now);
      if prev.0 != StoreV2.Loaded then prev else LoadLine(lines[|lines| - 1], now, prev.1)
  }

  function Rendered(records: seq<SaleRecord>): (ls: seq<string>)
    ensures |ls| == |records|
  {
    if records == [] then [] else Rendered(records[..|records| - 1]) + [ToString(records[|records| - 1])]
  }

  /** A record that survives the text file. */
  predicate FileSafe(r: SaleRecord) {
    TextSafe(r) && '\n' !in r.isbn && '\n' !in r.bookTitle
  }

  lemma LoadLineOfRecord(r: SaleRecord, now: string, records: seq<SaleRecord>)
    requires FileSafe(r)
    ensures LoadLine(ToString(r), now, records) == (StoreV2.Loaded, records + [r])
  {
    ToStringIsLine(r);
    RoundTrip(DefaultSaleRecord(now), r);
  }

  lemma {:induction false} LoadRendered(records: seq<SaleRecord>, now: string)
    requires forall i :: 0 <= i < |records| ==> FileSafe(records[i])
    ensures LoadLines(Rendered(records), now) == (StoreV2.Loaded, records)
  {
    if records != [] {
      var init, last := records[..|records| - 1], records[|records| - 1];
      assert records == init + [last];
      assert forall i :: 0 <= i < |init| ==> FileSafe(init[i]) by {
        forall i | 0 <= i < |init| ensures FileSafe(init[i]) {
          assert init[i] == records[i];
        }
      }
      LoadRendered(init, now);
      LoadRenderedStep(init, last, now);
    }
  }

  lemma LoadRenderedStep(init: seq<SaleRecord>, last: SaleRecord, now: string)
    requires LoadLines(Rendered(init), now) == (StoreV2.Loaded, init) && FileSafe(last)
    ensures LoadLines(Rendered(init + [last]), now) == (StoreV2.Loaded, init + [last])
  {
    var ls := Rendered(init + [last]);
    assert (init + [last])[..|init|] == init;
    assert ls[..|ls| - 1] == Rendered(init);
    assert ls[|ls| - 1] == ToString(last);
    LoadLinesLast(ls, now);
    LoadLineOfRecord(last, now, init);
  }

  lemma LoadLinesLast(lines: seq<string>, now: string)
    requires lines != [] && LoadLines(lines[..|lines| - 1], now).0 == StoreV2.Loaded
    ensures LoadLines(lines, now) == LoadLine(lines[|lines| - 1], now, LoadLines(lines[..|lines| - 1], now).1)
  {
  }

  lemma {:induction false} RenderedAreLines(records: seq<SaleRecord>)
    requires forall i :: 0 <= i < |records| ==> FileSafe(records[i])
    ensures forall i :: 0 <= i < |records| ==> '\n' !in Rendered(records)[i]
  {
    if records != [] {
      RenderedAreLines(records[..|records| - 1]);
      ToStringIsLine(records[|records| - 1]);
    }
  }

  /** Saving the ledger and loading it back gives the same records. */
  lemma SaveLoadRoundTrip(records: seq<SaleRecord>, now: string)
    requires forall i :: 0 <= i < |records| ==> FileSafe(records[i])
    ensures LoadLines(Lines(Unlines(Rendered(records))), now) == (StoreV2.Loaded, records)
  {
    RenderedAreLines(records);
    LinesUnlines(Rendered(records));
    LoadRendered(records, now);
  }

  lemma {:induction false} StopsAtThrow(lines: seq<string>, now: string, n: nat)
    requires n <= |lines| && LoadLines(lines[..n], now).0.Aborted?
    ensures LoadLines(lines, now) == LoadLines(lines[..n], now)
    decreases |lines| - n
  {
    if n < |lines| {
      assert lines[..n + 1][..n] == lines[..n];
      StopsAtThrow(lines, now, n + 1);
    } else {
      assert lines[..n] == lines;
    }
  }

  class SalesManager {
    const bookManager: StoreV2.BookManager
    var saleRecords: seq<SaleRecord>

    constructor(bm: StoreV2.BookManager)
      ensures bookManager == bm && saleRecords == []
    {
      bookManager := bm;
      saleRecords := [];
    }

    /** purchaseBook: refuses a quantity that is not positive, an absent ISBN
        and a quantity above the stock, changing nothing. Otherwise the stock
        drops by the quantity and one record, priced at the book's price, is
        appended to the ledger. */
    method PurchaseBook(isbn: string, quantity: int, now: string) returns (ok: bool)
      modifies this, bookManager
      ensures ok <==> quantity > 0 && HasIsbn(old(bookManager.books), isbn)
                      && old(bookManager.books)[IndexOf(old(bookManager.books), isbn)].stock >= quantity
      ensures ok ==> var k := IndexOf(old(bookManager.books), isbn);
                     var b := old(bookManager.books)[k];
                     bookManager.books == old(bookManager.books)[k := b.(stock := b.stock - quantity)]
                     && bookManager.books[k].stock >= 0
                     && saleRecords == old(saleRecords) + [NewSaleRecord(isbn, b.title, quantity, b.price, now)]
      ensures !ok ==> bookManager.books == old(bookManager.books) && saleRecords == old(saleRecords)
      ensures old(bookManager.Valid()) ==> bookManager.Valid()
    {
      if quantity <= 0 {
        return false;
      }
      var book := bookManager.FindBookByIsbn(isbn);
      if book.None? {
        return false;
      }
      var currentStock := book.value.stock;
      if currentStock < quantity {
        return false;
      }
      var updated := bookManager.UpdateStock(isbn, -quantity);
      if !updated {
        return false;
      }
      var saleRecord := NewSaleRecord(isbn, book.value.title, quantity, book.value.price, now);
      saleRecords := saleRecords + [saleRecord];
      return true;
    }

    /** getSaleRecordsByIsbn: in ledger order, the records with this ISBN. */
    method GetSaleRecordsByIsbn(isbn: string) returns (r: seq<SaleRecord>)
      ensures r == RecordsFor(saleRecords, isbn)
    {
      r := [];
      var i := 0;
      while i < |saleRecords|
        invariant 0 <= i <= |saleRecords|
        invariant r == RecordsFor(saleRecords[..i], isbn)
      {
        assert saleRecords[..i + 1][..i] == saleRecords[..i];
        if saleRecords[i].isbn == isbn {
          r := r + [saleRecords[i]];
        }
        i := i + 1;
      }
      assert saleRecords[..i] == saleRecords;
    }

    /** getTotalSales: the sum of the ledger's totals, 0 for an empty one. */
    method GetTotalSales() returns (total: int)
      ensures total == TotalSales(saleRecords)
      ensures saleRecords == [] ==> total == 0
    {
      total := 0;
      var i := 0;
      while i < |saleRecords|
        invariant 0 <= i <= |saleRecords|
        invariant total == TotalSales(saleRecords[..i])
      {
        assert saleRecords[..i + 1][..i] == saleRecords[..i];
        total := total + saleRecords[i].totalPrice;
        i := i + 1;
      }
      assert saleRecords[..i] == saleRecords;
    }

    /** getSaleRecordCount. */
    function SaleRecordCount(): (n: nat)
      reads this
      ensures n == 0 <==> saleRecords == []
    {
      |saleRecords|
    }

    /** clear: empties the ledger; the book store is untouched. */
    method Clear()
      modifies this
      ensures saleRecords == []
    {
      saleRecords := [];
    }

    /** loadFromFile: the ledger is emptied, then each non-empty line that
        fromString accepts is appended in file order. */
    method LoadFromFile(isOpen: bool, text: string, now: string) returns (status: StoreV2.LoadStatus)
      modifies this
      ensures status == StoreV2.OpenFailed <==> !isOpen
      ensures !isOpen ==> saleRecords == old(saleRecords)
      ensures isOpen ==> (status, saleRecords) == LoadLines(Lines(text), now)
    {
      if !isOpen {
        return StoreV2.OpenFailed;
      }
      saleRecords := [];
      var lines := Lines(text);
      var i := 0;
      while i < |lines|
        invariant 0 <= i <= |lines|
        invariant LoadLines(lines[..i], now) == (StoreV2.Loaded, saleRecords)
      {
        assert lines[..i + 1][..i] == lines[..i];
        var line := lines[i];
        if line != [] {
          var p := FromString(DefaultSaleRecord(now), line);
          if p.outcome.Threw? {
            status := StoreV2.Aborted(p.outcome.error);
            assert LoadLines(lines[..i + 1], now) == (status, saleRecords);
            assert LoadLines(lines, now) == (status, saleRecords) by {
              StopsAtThrow(lines, now, i + 1);
            }
            return;
          }
          if p.outcome == Parsed {
            saleRecords := saleRecords + [p.record];
          }
        }
        i := i + 1;
      }
      assert lines[..i] == lines;
      return StoreV2.Loaded;
    }

    /** saveToFile: each record's toString and a newline, in ledger order. */
    method SaveToFile(isOpen: bool, now: string) returns (ok: bool, text: string)
      ensures ok == isOpen
      ensures text == if ok then Unlines(Rendered(saleRecords)) else ""
      ensures ok && (forall i :: 0 <= i < |saleRecords| ==> FileSafe(saleRecords[i]))
              ==> LoadLines(Lines(text), now) == (StoreV2.Loaded, saleRecords)
    {
      if !isOpen {
        return false, "";
      }
      text := "";
      var i := 0;
      while i < |saleRecords|
        invariant 0 <= i <= |saleRecords|
        invariant text == Unlines(Rendered(saleRecords[..i]))
      {
        assert saleRecords[..i + 1][..i] == saleRecords[..i];
        UnlinesAppend(Rendered(saleRecords[..i]), ToString(saleRecords[i]));
        text := text + ToString(saleRecords[i]) + "\n";
        i := i + 1;
      }
      assert saleRecords[..i] == saleRecords;
      ok := true;
      if forall i :: 0 <= i < |saleRecords| ==> FileSafe(saleRecords[i]) {
        SaveLoadRoundTrip(saleRecords, now);
      }
    }
  }

  /** A sale adds exactly its own total to the ledger's sum, and appears
      among the records for its ISBN. */
  lemma SaleAddsItsTotal(records: seq<SaleRecord>, r: SaleRecord)
    ensures TotalSales(records + [r]) == TotalSales(records) + r.totalPrice
    ensures RecordsFor(records + [r], r.isbn) == RecordsFor(records, r.isbn) + [r]
  {
    assert (records + [r])[..|records|] == records;
  }
}
