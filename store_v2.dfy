/** The v2.0 BookManager: the same ISBN-keyed vector as v3.0 (held through
    shared pointers, modelled as value copies), with exact-match searches, a
    guarded stock adjustment and the line-per-book text file. */
module StoreV2 {
  import opened Common
  import opened Books
  import opened Inventory
  import opened Decimal
  import opened TextStream
  import opened BookText

  /** How loadFromFile ends: true, false because the file did not open, or
      an exception from std::stoi that leaves it part-way. */
  datatype LoadStatus = Loaded | OpenFailed | Aborted(error: IntParse)

  /** One line of the load loop: empty lines are skipped; otherwise a fresh
      Book parses the line and is kept when fromString returns true. */
  function LoadLine(line: string, books: seq<Book>): (r: (LoadStatus, seq<Book>))
    ensures r.0 == Loaded ==> r.1 == books || (line != [] && r.1 == books + [FromString(DefaultBook(), line).book])
  {
    if line == [] then (Loaded, books)
    else
      var p := FromString(DefaultBook(), line);
      match p.outcome
      case Parsed => (Loaded, books + [p.book])
      case Rejected => (Loaded, books)
      case Threw(e) => (Aborted(e), books)
  }

  /** The store after the load loop has read `lines`, from an empty store;
      the first exception stops the loop with what was read so far. */
  function LoadLines(lines: seq<string>): (r: (LoadStatus, seq<Book>))
    ensures r.0 != OpenFailed && |r.1| <= |lines|
  {
    if lines == [] then (Loaded, [])
    else
      var prev := LoadLines(lines[..|lines| - 1]);
      if prev.0 != Loaded then prev else LoadLine(lines[|lines| - 1], prev.1)
  }

  /** The lines saveToFile writes, one toString per book in store order. */
  function Rendered(books: seq<Book>): (ls: seq<string>)
    ensures |ls| == |books|
  {
    if books == [] then [] else Rendered(books[..|books| - 1]) + [ToString(books[|books| - 1])]
  }

  /** A book that survives the text file: the round-trip condition of the
      line codec, and no line break in its text. */
  predicate FileSafe(b: Book) {
    TextSafe(b) && '\n' !in b.title && '\n' !in b.publisher && '\n' !in b.isbn && '\n' !in b.author
  }

  /** Loading what was rendered gives back the books in order. */
  lemma {:induction false} LoadRendered(books: seq<Book>)
    requires forall i :: 0 <= i < |books| ==> FileSafe(books[i])
    ensures LoadLines(Rendered(books)) == (Loaded, books)
  {
    if books != [] {
      var init, last := books[..|books| - 1], books[|books| - 1];
      assert books == init + [last];
      assert forall i :: 0 <= i < |init| ==> FileSafe(init[i]) by {
        forall i | 0 <= i < |init| ensures FileSafe(init[i]) {
          assert init[i] == books[i];
        }
      }
      LoadRendered(init);
      LoadRenderedStep(init, last);
    }
  }

  lemma LoadRenderedStep(init: seq<Book>, last: Book)
    requires LoadLines(Rendered(init)) == (Loaded, init) && FileSafe(last)
    ensures LoadLines(Rendered(init + [last])) == (Loaded, init + [last])
  {
    var ls := Rendered(init + [last]);
    assert (init + [last])[..|init|] == init;
    assert ls[..|ls| - 1] == Rendered(init);
    assert ls[|ls| - 1] == ToString(last);
    LoadLinesLast(ls);
    LoadLineOfBook(last, init);
  }

  /** The load loop's step: a line read while still loading goes through LoadLine. */
  lemma LoadLinesLast(lines: seq<string>)
    requires lines != [] && LoadLines(lines[..|lines| - 1]).0 == Loaded
    ensures LoadLines(lines) == LoadLine(lines[|lines| - 1], LoadLines(lines[..|lines| - 1]).1)
  {
  }

  /** One saved book's line is loaded back as that book. */
  lemma LoadLineOfBook(b: Book, books: seq<Book>)
    requires FileSafe(b)
    ensures LoadLine(ToString(b), books) == (Loaded, books + [b])
  {
    ToStringIsLine(b);
    RoundTrip(DefaultBook(), b);
  }

  lemma {:induction false} RenderedAreLines(books: seq<Book>)
    requires forall i :: 0 <= i < |books| ==> FileSafe(books[i])
    ensures forall i :: 0 <= i < |books| ==> '\n' !in Rendered(books)[i]
  {
    if books != [] {
      RenderedAreLines(books[..|books| - 1]);
      ToStringIsLine(books[|books| - 1]);
    }
  }

  /** Save followed by load reproduces the store. */
  lemma SaveLoadRoundTrip(books: seq<Book>)
    requires forall i :: 0 <= i < |books| ==> FileSafe(books[i])
    ensures LoadLines(Lines(Unlines(Rendered(books)))) == (Loaded, books)
  {
    RenderedAreLines(books);
    LinesUnlines(Rendered(books));
    LoadRendered(books);
  }

  /** The loader does not check ISBNs: a file that lists a book twice loads
      a store holding it twice. */
  lemma LoadKeepsDuplicates(b: Book)
    requires FileSafe(b)
    ensures LoadLines(Rendered([b, b])) == (Loaded, [b, b])
    ensures !UniqueIsbns([b, b])
  {
    LoadRendered([b, b]);
  }

  class BookManager {
    var books: seq<Book>

    /** The invariant addBook, updateBook, updateStock and deleteBook keep. */
    predicate Valid()
      reads this
    {
      UniqueIsbns(books)
    }

    constructor()
      ensures books == [] && Valid()
    {
      books := [];
    }

    /** findBookIndexByIsbn. */
    method FindBookIndexByIsbn(isbn: string) returns (r: int)
      ensures r == IndexOf(books, isbn)
      ensures r == -1 <==> !HasIsbn(books, isbn)
      ensures r != -1 ==> 0 <= r < |books| && books[r].isbn == isbn
    {
      var i := 0;
      while i < |books|
        invariant 0 <= i <= |books|
        invariant forall j :: 0 <= j < i ==> books[j].isbn != isbn
      {
        if books[i].isbn == isbn {
          return i;
        }
        i := i + 1;
      }
      return -1;
    }

    /** isIsbnExists. */
    method IsIsbnExists(isbn: string) returns (b: bool)
      ensures b <==> HasIsbn(books, isbn)
    {
      var k := FindBookIndexByIsbn(isbn);
      b := k != -1;
    }

    /** addBook: refuses a present ISBN, otherwise appends a copy. */
    method AddBook(book: Book) returns (ok: bool)
      modifies this
      ensures ok <==> !HasIsbn(old(books), book.isbn)
      ensures books == if ok then old(books) + [book] else old(books)
      ensures old(Valid()) ==> Valid()
    {
      var present := IsIsbnExists(book.isbn);
      if present {
        return false;
      }
      if Valid() {
        AppendKeepsUnique(books, book);
      }
      books := books + [book];
      return true;
    }

    /** deleteBook: erases the first book with this ISBN, keeping the order
        of the others. */
    method DeleteBook(isbn: string) returns (ok: bool)
      modifies this
      ensures ok <==> HasIsbn(old(books), isbn)
      ensures books == if ok then RemoveAt(old(books), IndexOf(old(books), isbn)) else old(books)
      ensures old(Valid()) ==> Valid() && !HasIsbn(books, isbn)
    {
      var index := FindBookIndexByIsbn(isbn);
      if index == -1 {
        return false;
      }
      if Valid() {
        RemoveKeepsUnique(books, index);
      }
      books := RemoveAt(books, index);
      return true;
    }

    /** updateBook: `*books[index] = newBook`, unless `isbn` is absent or the
        new ISBN belongs to another book. */
    method UpdateBook(isbn: string, newBook: Book) returns (ok: bool)
      modifies this
      ensures ok <==> HasIsbn(old(books), isbn)
                      && (newBook.isbn == isbn || !HasIsbn(old(books), newBook.isbn))
      ensures books == if ok then old(books)[IndexOf(old(books), isbn) := newBook] else old(books)
      ensures old(Valid()) ==> Valid()
    {
      var index := FindBookIndexByIsbn(isbn);
      if index == -1 {
        return false;
      }
      if newBook.isbn != isbn {
        var taken := IsIsbnExists(newBook.isbn);
        if taken {
          return false;
        }
      }
      if Valid() {
        ReplaceKeepsUnique(books, index, newBook);
      }
      books := books[index := newBook];
      return true;
    }

    /** findBookByIsbn: the book, or a null pointer. */
    method FindBookByIsbn(isbn: string) returns (r: Option<Book>)
      ensures r.Some? <==> HasIsbn(books, isbn)
      ensures r.Some? ==> r.value == books[IndexOf(books, isbn)] && r.value.isbn == isbn
    {
      var k := FindBookIndexByIsbn(isbn);
      if k == -1 {
        return None;
      }
      return Some(books[k]);
    }

    /** The push_back loop of the three searches, comparing for equality. */
    method FindBooksBy(f: Field, q: string) returns (r: seq<Book>)
      ensures r == Search(books, f, q, Exact)
    {
      r := [];
      var i := 0;
      while i < |books|
        invariant 0 <= i <= |books|
        invariant r == Search(books[..i], f, q, Exact)
      {
        assert books[..i + 1][..i] == books[..i];
        if FieldOf(books[i], f) == q {
          r := r + [books[i]];
        }
        i := i + 1;
      }
      assert books[..i] == books;
    }

    method FindBooksByTitle(title: string) returns (r: seq<Book>)
      ensures r == Search(books, Title, title, Exact)
      ensures forall b :: b in r <==> b in books && b.title == title
    {
      r := FindBooksBy(Title, title);
      SearchMembers(books, Title, title, Exact);
    }

    method FindBooksByAuthor(author: string) returns (r: seq<Book>)
      ensures r == Search(books, Author, author, Exact)
      ensures forall b :: b in r <==> b in books && b.author == author
    {
      r := FindBooksBy(Author, author);
      SearchMembers(books, Author, author, Exact);
    }

    method FindBooksByPublisher(publisher: string) returns (r: seq<Book>)
      ensures r == Search(books, Publisher, publisher, Exact)
      ensures forall b :: b in r <==> b in books && b.publisher == publisher
    {
      r := FindBooksBy(Publisher, publisher);
      SearchMembers(books, Publisher, publisher, Exact);
    }

    /** updateStock: adds `quantity` (negative for a sale) to the stock of the
        book with this ISBN, refusing when it is absent or the stock would go
        below zero. No other book and no other field changes. */
    method UpdateStock(isbn: string, quantity: int) returns (ok: bool)
      modifies this
      ensures ok <==> HasIsbn(old(books), isbn)
                      && old(books)[IndexOf(old(books), isbn)].stock + quantity >= 0
      ensures ok ==> var k := IndexOf(old(books), isbn);
                     books == old(books)[k := old(books)[k].(stock := old(books)[k].stock + quantity)]
                     && books[k].stock >= 0
      ensures !ok ==> books == old(books)
      ensures old(Valid()) ==> Valid()
    {
      var index := FindBookIndexByIsbn(isbn);
      if index == -1 {
        return false;
      }
      var currentStock := books[index].stock;
      if currentStock + quantity < 0 {
        return false;
      }
      var updated := SetStock(books[index], currentStock + quantity);
      if Valid() {
        ReplaceKeepsUnique(books, index, updated);
      }
      books := books[index := updated];
      return true;
    }

    /** getStock: the stock of the book with this ISBN, or -1. */
    method GetStock(isbn: string) returns (s: int)
      ensures HasIsbn(books, isbn) ==> s == books[IndexOf(books, isbn)].stock
      ensures !HasIsbn(books, isbn) ==> s == -1
    {
      var index := FindBookIndexByIsbn(isbn);
      if index != -1 {
        return books[index].stock;
      }
      return -1;
    }

    /** clear. */
    method Clear()
      modifies this
      ensures books == [] && Valid()
    {
      books := [];
    }

    /** loadFromFile on a file holding `text`: the store is emptied, then each
        non-empty line that fromString accepts is appended in file order. */
    method LoadFromFile(isOpen: bool, text: string) returns (status: LoadStatus)
      modifies this
      ensures status == OpenFailed <==> !isOpen
      ensures !isOpen ==> books == old(books)
      ensures isOpen ==> (status, books) == LoadLines(Lines(text))
    {
      if !isOpen {
        return OpenFailed;
      }
      books := [];
      var lines := Lines(text);
      var i := 0;
      while i < |lines|
        invariant 0 <= i <= |lines|
        invariant LoadLines(lines[..i]) == (Loaded, books)
      {
        assert lines[..i + 1][..i] == lines[..i];
        LoadLinesLast(lines[..i + 1]);
        var line := lines[i];
        assert lines[..i + 1][i] == line;
        if line != [] {
          var p := FromString(DefaultBook(), line);
          if p.outcome.Threw? {
            status := Aborted(p.outcome.error);
            assert LoadLines(lines[..i + 1]) == (status, books);
            assert LoadLines(lines) == (status, books) by {
              StopsAtThrow(lines, i + 1);
            }
            return;
          }
          if p.outcome == Parsed {
            books := books + [p.book];
          }
        }
        i := i + 1;
      }
      assert lines[..i] == lines;
      return Loaded;
    }

    /** saveToFile: each book's toString and a newline, in store order. */
    method SaveToFile(isOpen: bool) returns (ok: bool, text: string)
      ensures ok == isOpen
      ensures text == if ok then Unlines(Rendered(books)) else ""
      ensures ok && (forall i :: 0 <= i < |books| ==> FileSafe(books[i]))
              ==> LoadLines(Lines(text)) == (Loaded, books)
    {
      if !isOpen {
        return false, "";
      }
      text := "";
      var i := 0;
      while i < |books|
        invariant 0 <= i <= |books|
        invariant text == Unlines(Rendered(books[..i]))
      {
        assert books[..i + 1][..i] == books[..i];
        UnlinesAppend(Rendered(books[..i]), ToString(books[i]));
        text := text + ToString(books[i]) + "\n";
        i := i + 1;
      }
      assert books[..i] == books;
      ok := true;
      if forall i :: 0 <= i < |books| ==> FileSafe(books[i]) {
        SaveLoadRoundTrip(books);
      }
    }
  }

  /** Once the loop has stopped on an exception, later lines change nothing. */
  lemma {:induction false} StopsAtThrow(lines: seq<string>, n: nat)
    requires n <= |lines| && LoadLines(lines[..n]).0.Aborted?
    ensures LoadLines(lines) == LoadLines(lines[..n])
    decreases |lines| - n
  {
    if n < |lines| {
      assert lines[..n + 1][..n] == lines[..n];
      StopsAtThrow(lines, n + 1);
    } else {
      assert lines[..n] == lines;
    }
  }
}
