/** The abstract view of a book store shared by both revisions: an ordered
    sequence of books, keyed by ISBN and scanned linearly. The store classes of
    each revision are proved against these functions. */
module Inventory {
  import opened Common
  import opened Books

  /** The first ISBN match, or -1 (the scan of findBookIndex). */
  function IndexOf(books: seq<Book>, isbn: string): (r: int)
    ensures -1 <= r < |books|
    ensures r >= 0 ==> books[r].isbn == isbn
    ensures r >= 0 ==> forall j :: 0 <= j < r ==> books[j].isbn != isbn
    ensures r == -1 <==> forall j :: 0 <= j < |books| ==> books[j].isbn != isbn
  {
    if books == [] then -1
    else if books[0].isbn == isbn then 0
    else
      var k := IndexOf(books[1..], isbn);
      if k == -1 then -1 else k + 1
  }

  predicate HasIsbn(books: seq<Book>, isbn: string) {
    exists j :: 0 <= j < |books| && books[j].isbn == isbn
  }

  lemma HasIsbnIndexOf(books: seq<Book>, isbn: string)
    ensures HasIsbn(books, isbn) <==> IndexOf(books, isbn) != -1
  {
  }

  /** The store invariant: no two books share an ISBN. */
  predicate UniqueIsbns(books: seq<Book>) {
    forall i, j :: 0 <= i < |books| && 0 <= j < |books| && i != j ==> books[i].isbn != books[j].isbn
  }

  /** In a store with unique ISBNs, the book at any index is the one IndexOf finds. */
  lemma UniqueIndexOf(books: seq<Book>, k: nat)
    requires UniqueIsbns(books) && k < |books|
    ensures IndexOf(books, books[k].isbn) == k
  {
  }

  function RemoveAt(books: seq<Book>, k: nat): (r: seq<Book>)
    requires k < |books|
    ensures |r| == |books| - 1
    ensures forall j :: 0 <= j < k ==> r[j] == books[j]
    ensures forall j :: k <= j < |r| ==> r[j] == books[j + 1]
  {
    books[..k] + books[k + 1..]
  }

  /** Appending a book whose ISBN is absent keeps ISBNs unique. */
  lemma AppendKeepsUnique(books: seq<Book>, b: Book)
    requires UniqueIsbns(books) && !HasIsbn(books, b.isbn)
    ensures UniqueIsbns(books + [b])
  {
    var s := books + [b];
    forall i, j | 0 <= i < |s| && 0 <= j < |s| && i != j
      ensures s[i].isbn != s[j].isbn
    {
      if i == |books| { assert s[j] == books[j]; }
      else if j == |books| { assert s[i] == books[i]; }
    }
  }

  /** Overwriting slot k with a book whose ISBN is that slot's or is absent
      elsewhere keeps ISBNs unique (the guard of updateBook). */
  lemma ReplaceKeepsUnique(books: seq<Book>, k: nat, b: Book)
    requires UniqueIsbns(books) && k < |books|
    requires b.isbn == books[k].isbn || !HasIsbn(books, b.isbn)
    ensures UniqueIsbns(books[k := b])
  {
    var s := books[k := b];
    forall i, j | 0 <= i < |s| && 0 <= j < |s| && i != j
      ensures s[i].isbn != s[j].isbn
    {
      if i == k { assert s[j] == books[j]; }
      else if j == k { assert s[i] == books[i]; }
      else { assert s[i] == books[i] && s[j] == books[j]; }
    }
  }

  /** Removing one entry keeps ISBNs unique, and in a unique store the removed
      ISBN is then absent. */
  lemma RemoveKeepsUnique(books: seq<Book>, k: nat)
    requires UniqueIsbns(books) && k < |books|
    ensures UniqueIsbns(RemoveAt(books, k))
    ensures !HasIsbn(RemoveAt(books, k), books[k].isbn)
  {
    var r := RemoveAt(books, k);
    forall i, j | 0 <= i < |r| && 0 <= j < |r| && i != j
      ensures r[i].isbn != r[j].isbn
    {
      var i' := if i < k then i else i + 1;
      var j' := if j < k then j else j + 1;
      assert r[i] == books[i'] && r[j] == books[j'];
    }
    forall j | 0 <= j < |r| ensures r[j].isbn != books[k].isbn {
      var j' := if j < k then j else j + 1;
      assert r[j] == books[j'];
    }
  }

  /** The searchable text fields and the two query semantics: v2.0 compares
      for equality, v3.0 looks for a substring. */
  datatype Field = Title | Author | Publisher
  datatype MatchMode = Exact | Substring

  function FieldOf(b: Book, f: Field): string {
    match f
    case Title => b.title
    case Author => b.author
    case Publisher => b.publisher
  }

  predicate Matches(b: Book, f: Field, q: string, m: MatchMode) {
    match m
    case Exact => FieldOf(b, f) == q
    case Substring => Contains(FieldOf(b, f), q)
  }

  /** The books matching a query, in store order (the push_back loops of the
      findBy* searches); defined by the step that the loop takes. */
  function Search(books: seq<Book>, f: Field, q: string, m: MatchMode): (r: seq<Book>)
    ensures |r| <= |books|
  {
    if books == [] then []
    else
      var init := books[..|books| - 1];
      var last := books[|books| - 1];
      Search(init, f, q, m) + (if Matches(last, f, q, m) then [last] else [])
  }

  /** A search finds exactly the books of the store that match. */
  lemma {:induction false} SearchMembers(books: seq<Book>, f: Field, q: string, m: MatchMode)
    ensures forall b :: b in Search(books, f, q, m) <==> b in books && Matches(b, f, q, m)
  {
    if books != [] {
      var init := books[..|books| - 1];
      assert books == init + [books[|books| - 1]];
      SearchMembers(init, f, q, m);
    }
  }

  /** Search distributes over concatenation, so the result keeps store order. */
  lemma {:induction false} SearchAppend(a: seq<Book>, b: seq<Book>, f: Field, q: string, m: MatchMode)
    ensures Search(a + b, f, q, m) == Search(a, f, q, m) + Search(b, f, q, m)
    decreases |b|
  {
    if b == [] {
      assert a + b == a;
    } else {
      var init := b[..|b| - 1];
      var last := b[|b| - 1];
      assert (a + b)[..|a + b| - 1] == a + init;
      assert (a + b)[|a + b| - 1] == last;
      SearchAppend(a, init, f, q, m);
    }
  }

  /** A substring query with the empty string returns the whole store. */
  lemma {:induction false} SearchEmptySubstring(books: seq<Book>, f: Field)
    ensures Search(books, f, "", Substring) == books
  {
    if books != [] {
      var init := books[..|books| - 1];
      ContainsEmpty(FieldOf(books[|books| - 1], f));
      SearchEmptySubstring(init, f);
      assert books == init + [books[|books| - 1]];
    }
  }

  /** Every exact match is a substring match; the converse fails in general. */
  lemma {:induction false} ExactWithinSubstring(books: seq<Book>, f: Field, q: string)
    ensures forall b :: b in Search(books, f, q, Exact) ==> b in Search(books, f, q, Substring)
  {
    SearchMembers(books, f, q, Exact);
    SearchMembers(books, f, q, Substring);
    forall b | b in Search(books, f, q, Exact)
      ensures b in Search(books, f, q, Substring)
    {
      ContainsSelfAndLonger(FieldOf(b, f), q);
    }
  }

  /** Sum of the stock field (the accumulator loops of the statistics code). */
  function TotalStock(books: seq<Book>): int {
    if books == [] then 0 else TotalStock(books[..|books| - 1]) + books[|books| - 1].stock
  }

  /** Sum of the price field, in cents. */
  function TotalPrice(books: seq<Book>): int {
    if books == [] then 0 else TotalPrice(books[..|books| - 1]) + books[|books| - 1].price
  }

  /** Inventory value: sum of price times stock, in cents. */
  function TotalValue(books: seq<Book>): int {
    if books == [] then 0
    else TotalValue(books[..|books| - 1]) + books[|books| - 1].price * books[|books| - 1].stock
  }

  /** The sums split over a concatenation. */
  lemma {:induction false} TotalsAppend(a: seq<Book>, b: seq<Book>)
    ensures TotalStock(a + b) == TotalStock(a) + TotalStock(b)
    ensures TotalPrice(a + b) == TotalPrice(a) + TotalPrice(b)
    ensures TotalValue(a + b) == TotalValue(a) + TotalValue(b)
    decreases |b|
  {
    if b == [] {
      assert a + b == a;
    } else {
      var init := b[..|b| - 1];
      assert (a + b)[..|a + b| - 1] == a + init;
      assert (a + b)[|a + b| - 1] == b[|b| - 1];
      TotalsAppend(a, init);
    }
  }

  /** A summing loop's step: one more book of the store added to the sums. */
  lemma TotalsPrefix(books: seq<Book>, i: nat)
    requires i < |books|
    ensures TotalStock(books[..i + 1]) == TotalStock(books[..i]) + books[i].stock
    ensures TotalPrice(books[..i + 1]) == TotalPrice(books[..i]) + books[i].price
    ensures TotalValue(books[..i + 1]) == TotalValue(books[..i]) + books[i].price * books[i].stock
  {
    assert books[..i + 1][..i] == books[..i];
  }

  /** Changing one book changes the total stock by that book's difference. */
  lemma {:induction false} TotalStockReplace(books: seq<Book>, k: nat, b: Book)
    requires k < |books|
    ensures TotalStock(books[k := b]) == TotalStock(books) - books[k].stock + b.stock
    decreases |books|
  {
    var n := |books| - 1;
    var r := books[k := b];
    assert r[..n] == if k == n then books[..n] else books[..n][k := b];
    if k < n {
      TotalStockReplace(books[..n], k, b);
    }
  }

  /** With no negative stock, the total stock bounds every single stock. */
  lemma {:induction false} TotalStockBounds(books: seq<Book>, k: nat)
    requires k < |books|
    requires forall j :: 0 <= j < |books| ==> books[j].stock >= 0
    ensures 0 <= books[k].stock <= TotalStock(books)
    decreases |books|
  {
    var init := books[..|books| - 1];
    assert TotalStock(books) == TotalStock(init) + books[|books| - 1].stock;
    NonNegativeTotal(init);
    if k < |books| - 1 {
      assert books[k] == init[k];
      TotalStockBounds(init, k);
    }
  }

  lemma {:induction false} NonNegativeTotal(books: seq<Book>)
    requires forall j :: 0 <= j < |books| ==> books[j].stock >= 0
    ensures TotalStock(books) >= 0
  {
    if books != [] {
      NonNegativeTotal(books[..|books| - 1]);
    }
  }
}
