/** The v3.0 BookManager: an ordered vector of books, keyed by ISBN and
    scanned linearly, with substring searches, descending sorted views and
    the binary file. Pointers into the vector that the C++ hands out are
    modelled as copies of the books they point to. */
module StoreV3 {
  import opened Common
  import opened Books
  import opened Inventory
  import opened Sorting
  import opened BookBinary

  class BookManager {
    var books: seq<Book>

    /** The store invariant the operations keep: ISBNs are pairwise distinct. */
    predicate Valid()
      reads this
    {
      UniqueIsbns(books)
    }

    constructor()
      ensures books == [] && Valid()
    {
      books := [];
    }

    /** findBookIndex: the index of the first book with this ISBN, or -1. */
    method FindBookIndex(isbn: string) returns (r: int)
      ensures r == IndexOf(books, isbn)
      ensures r == -1 <==> !HasIsbn(books, isbn)
      ensures r != -1 ==> 0 <= r < |books| && books[r].isbn == isbn
    {
      var i := 0;
      while i < |books|
        invariant 0 <= i <= |books|
        invariant forall j :: 0 <= j < i ==> books[j].isbn != isbn
      {
        if books[i].isbn == isbn {
          return i;
        }
        i := i + 1;
      }
      return -1;
    }

    /** is_ISBNExists. */
    method IsISBNExists(isbn: string) returns (b: bool)
      ensures b <==> HasIsbn(books, isbn)
    {
      var k := FindBookIndex(isbn);
      b := k != -1;
    }

    /** addBook: refuses a book whose ISBN is present, otherwise appends it. */
    method AddBook(book: Book) returns (ok: bool)
      modifies this
      ensures ok <==> !HasIsbn(old(books), book.isbn)
      ensures books == if ok then old(books) + [book] else old(books)
      ensures old(Valid()) ==> Valid()
    {
      var present := IsISBNExists(book.isbn);
      if present {
        return false;
      }
      if Valid() {
        AppendKeepsUnique(books, book);
      }
      books := books + [book];
      return true;
    }

    /** findByISBN: the book with this ISBN, or nothing (a null pointer). */
    method FindByISBN(isbn: string) returns (r: Option<Book>)
      ensures r.Some? <==> HasIsbn(books, isbn)
      ensures r.Some? ==> r.value == books[IndexOf(books, isbn)] && r.value.isbn == isbn
    {
      var k := FindBookIndex(isbn);
      if k == -1 {
        return None;
      }
      return Some(books[k]);
    }

    /** The push_back loop shared by the three searches. */
    method FindBy(f: Field, q: string) returns (r: seq<Book>)
      ensures r == Search(books, f, q, Substring)
    {
      r := [];
      var i := 0;
      while i < |books|
        invariant 0 <= i <= |books|
        invariant r == Search(books[..i], f, q, Substring)
      {
        assert books[..i + 1][..i] == books[..i];
        if Contains(FieldOf(books[i], f), q) {
          r := r + [books[i]];
        }
        i := i + 1;
      }
      assert books[..i] == books;
    }

    /** findByTitle: in store order, the books whose title contains `title`. */
    method FindByTitle(title: string) returns (r: seq<Book>)
      ensures r == Search(books, Title, title, Substring)
      ensures forall b :: b in r <==> b in books && Contains(b.title, title)
    {
      r := FindBy(Title, title);
      SearchMembers(books, Title, title, Substring);
    }

    method FindByAuthor(author: string) returns (r: seq<Book>)
      ensures r == Search(books, Author, author, Substring)
      ensures forall b :: b in r <==> b in books && Contains(b.author, author)
    {
      r := FindBy(Author, author);
      SearchMembers(books, Author, author, Substring);
    }

    method FindByPublisher(publisher: string) returns (r: seq<Book>)
      ensures r == Search(books, Publisher, publisher, Substring)
      ensures forall b :: b in r <==> b in books && Contains(b.publisher, publisher)
    {
      r := FindBy(Publisher, publisher);
      SearchMembers(books, Publisher, publisher, Substring);
    }

    /** updateBook: overwrites the slot of `isbn` with `newBook`, unless `isbn`
        is absent or `newBook` takes an ISBN that another book already has. */
    method UpdateBook(isbn: string, newBook: Book) returns (ok: bool)
      modifies this
      ensures ok <==> HasIsbn(old(books), isbn)
                      && (newBook.isbn == isbn || !HasIsbn(old(books), newBook.isbn))
      ensures books == if ok then old(books)[IndexOf(old(books), isbn) := newBook] else old(books)
      ensures old(Valid()) ==> Valid()
    {
      var index := FindBookIndex(isbn);
      if index == -1 {
        return false;
      }
      if newBook.isbn != isbn {
        var taken := IsISBNExists(newBook.isbn);
        if taken {
          return false;
        }
      }
      if Valid() {
        ReplaceKeepsUnique(books, index, newBook);
      }
      books := books[index := newBook];
      return true;
    }

    /** deleteBook: erases the first book with this ISBN; the others keep
        their order. */
    method DeleteBook(isbn: string) returns (ok: bool)
      modifies this
      ensures ok <==> HasIsbn(old(books), isbn)
      ensures books == if ok then RemoveAt(old(books), IndexOf(old(books), isbn)) else old(books)
      ensures old(Valid()) ==> Valid() && !HasIsbn(books, isbn)
    {
      var index := FindBookIndex(isbn);
      if index == -1 {
        return false;
      }
      if Valid() {
        RemoveKeepsUnique(books, index);
      }
      books := RemoveAt(books, index);
      return true;
    }

    /** The copy loop of sortByPrice/sortByStock followed by std::sort with a
        `>` comparison. std::sort is not stable, so only the multiset and the
        order of the keys are promised. */
    method SortedBy(k: SortKey) returns (r: seq<Book>)
      ensures NonIncreasing(r, k)
      ensures multiset(r) == multiset(books)
    {
      var copy: seq<Book> := [];
      var i := 0;
      while i < |books|
        invariant 0 <= i <= |books|
        invariant copy == books[..i]
      {
        copy := copy + [books[i]];
        i := i + 1;
      }
      assert copy == books;
      r := SortDescending(copy, k);
    }

    method SortByPrice() returns (r: seq<Book>)
      ensures NonIncreasing(r, ByPrice)
      ensures multiset(r) == multiset(books)
    {
      r := SortedBy(ByPrice);
    }

    method SortByStock() returns (r: seq<Book>)
      ensures NonIncreasing(r, ByStock)
      ensures multiset(r) == multiset(books)
    {
      r := SortedBy(ByStock);
    }

    /** getBookCount. */
    function BookCount(): (n: nat)
      reads this
      ensures n == 0 <==> books == []
    {
      |books|
    }

    /** saveToFile: on an open file, the header and then every book in store
        order; `data` is what the file holds afterwards. */
    method SaveToFile(isOpen: bool) returns (ok: bool, data: seq<byte>)
      ensures ok == isOpen
      ensures data == if ok then FileImage(books) else []
      ensures ok && AllSafe(books) && |books| <= INT32_MAX ==> DecodeFile(data) == Some(books)
    {
      if !isOpen {
        return false, [];
      }
      var written: seq<byte> := [];
      var i := 0;
      while i < |books|
        invariant 0 <= i <= |books|
        invariant written == EncodeAll(books[..i])
      {
        EncodeAllPrefix(books, i);
        written := written + Encode(books[i]);
        i := i + 1;
      }
      assert books[..i] == books;
      ok, data := true, Header(|books|) + written;
      ImageLoads(books);
    }

    /** loadFromFile as written: a file that did not open, and every file
        that did, since the magic comparison never succeeds, give false with
        the store untouched. */
    method LoadFromFile(isOpen: bool, data: seq<byte>) returns (ok: bool)
      modifies this
      ensures !ok && books == old(books)
    {
      var loaded := LoadAsWritten(isOpen, data);
      LoadAsWrittenAlwaysFails(isOpen, data);
      ok := loaded.Some?;
    }

    /** clear. */
    method Clear()
      modifies this
      ensures books == [] && Valid()
    {
      books := [];
    }
  }
}
