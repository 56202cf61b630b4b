/** The Book record shared by both revisions (v2.0 and v3.0 declare the same
    six fields). C++ Book has value semantics: the store keeps copies, and
    copy construction and assignment copy all six fields, so a Dafny datatype
    is the faithful model; a setter returns the updated value. Prices are
    integer cents. */
module Books {

  datatype Book = Book(
    title: string,
    publisher: string,
    isbn: string,
    author: string,
    stock: int,
    price: int)

  /** Book(): empty strings, stock 0, price 0. */
  function DefaultBook(): (b: Book)
    ensures b.title == b.publisher == b.isbn == b.author == ""
    ensures b.stock == 0 && b.price == 0
  {
    Book("", "", "", "", 0, 0)
  }

  /** The six-argument constructor; its argument order is title, publisher,
      isbn, author, stock, price, and each lands in its like-named field. */
  function NewBook(title: string, publisher: string, isbn: string, author: string,
                   stock: int, price: int): (b: Book)
    ensures b.title == title && b.publisher == publisher && b.isbn == isbn
    ensures b.author == author && b.stock == stock && b.price == price
  {
    Book(title, publisher, isbn, author, stock, price)
  }

  /** Copy construction (and assignment, including self-assignment) yields a
      book equal in all six fields: with value semantics the copy is the value. */
  function Copy(other: Book): (b: Book)
    ensures b.title == other.title && b.publisher == other.publisher
    ensures b.isbn == other.isbn && b.author == other.author
    ensures b.stock == other.stock && b.price == other.price
  {
    Book(other.title, other.publisher, other.isbn, other.author, other.stock, other.price)
  }

  lemma CopyIsIdentity(b: Book)
    ensures Copy(b) == b
    ensures Copy(Copy(b)) == Copy(b)
  {
  }

  function SetTitle(b: Book, v: string): Book { b.(title := v) }
  function SetPublisher(b: Book, v: string): Book { b.(publisher := v) }
  function SetIsbn(b: Book, v: string): Book { b.(isbn := v) }
  function SetAuthor(b: Book, v: string): Book { b.(author := v) }
  function SetStock(b: Book, v: int): Book { b.(stock := v) }
  function SetPrice(b: Book, v: int): Book { b.(price := v) }

  /** Each setter changes its own field to the argument and no other field;
      setting a field to its current value is a no-op, and a second set of the
      same field overrides the first. */
  lemma SetterLaws(b: Book, s: string, t: string, n: int, m: int)
    ensures SetTitle(b, s) == Book(s, b.publisher, b.isbn, b.author, b.stock, b.price)
    ensures SetPublisher(b, s) == Book(b.title, s, b.isbn, b.author, b.stock, b.price)
    ensures SetIsbn(b, s) == Book(b.title, b.publisher, s, b.author, b.stock, b.price)
    ensures SetAuthor(b, s) == Book(b.title, b.publisher, b.isbn, s, b.stock, b.price)
    ensures SetStock(b, n) == Book(b.title, b.publisher, b.isbn, b.author, n, b.price)
    ensures SetPrice(b, n) == Book(b.title, b.publisher, b.isbn, b.author, b.stock, n)
    ensures SetTitle(b, b.title) == b && SetIsbn(b, b.isbn) == b && SetStock(b, b.stock) == b
    ensures SetIsbn(SetIsbn(b, s), t) == SetIsbn(b, t) && SetStock(SetStock(b, n), m) == SetStock(b, m)
  {
  }
}
