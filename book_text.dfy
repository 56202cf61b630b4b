/** The v2.0 Book's delimited text form (toString / fromString) and its two
    comparison operators, which look at the ISBN only. */
module BookText {
  import opened Common
  import opened Books
  import opened Decimal
  import opened TextStream

  /** `title|publisher|isbn|author|stock|price`, the price with two decimals. */
  function ToString(b: Book): string {
    b.title + "|" + b.publisher + "|" + b.isbn + "|" + b.author + "|"
      + IntToString(b.stock) + "|" + CentsToString(b.price)
  }

  /** How fromString ends: it returns true, returns false, or std::stoi throws. */
  datatype Outcome = Parsed | Rejected | Threw(error: IntParse)

  /** The outcome, and the book that fromString was called on, afterwards. */
  datatype ParseResult = ParseResult(outcome: Outcome, book: Book)

  /** `bool Book::fromString(str)` called on `into`. The fields are assigned
      one at a time as they are read, so a line that fails part-way leaves the
      earlier fields overwritten. */
  function FromString(into: Book, str: string): (r: ParseResult)
    ensures r.outcome.Threw? ==> !r.outcome.error.IntValue?
    ensures str == [] ==> r == ParseResult(Rejected, into.(title := ""))
  {
    var g1 := GetLine(Open(str), '|', into.title);
    var b1 := into.(title := g1.value);
    if !g1.ok then ParseResult(Rejected, b1) else
    var g2 := GetLine(g1.stream, '|', into.publisher);
    var b2 := b1.(publisher := g2.value);
    if !g2.ok then ParseResult(Rejected, b2) else
    var g3 := GetLine(g2.stream, '|', into.isbn);
    var b3 := b2.(isbn := g3.value);
    if !g3.ok then ParseResult(Rejected, b3) else
    var g4 := GetLine(g3.stream, '|', into.author);
    var b4 := b3.(author := g4.value);
    if !g4.ok then ParseResult(Rejected, b4) else
    var g5 := GetLine(g4.stream, '|', "");
    if !g5.ok then ParseResult(Rejected, b4) else
    match Stoi(g5.value)
    case IntValue(n) =>
      var b5 := b4.(stock := n);
      var g6 := ExtractCents(g5.stream, b5.price);
      ParseResult(if g6.ok then Parsed else Rejected, b5.(price := g6.value))
    case e => ParseResult(Threw(e), b4)
  }

  /** The text fields may not hold the separator, and the stock must be an int. */
  predicate TextSafe(b: Book) {
    '|' !in b.title && '|' !in b.publisher && '|' !in b.isbn && '|' !in b.author
    && IsInt32(b.stock)
  }

  /** Reading back the text of a book, into any book, restores all six fields. */
  lemma {:induction false} RoundTrip(into: Book, b: Book)
    requires TextSafe(b)
    ensures FromString(into, ToString(b)) == ParseResult(Parsed, b)
  {
    var st := IntToString(b.stock);
    var pr := CentsToString(b.price);
    NumbersHaveNoSeparators(b.stock, b.price);
    var r5 := st + "|" + pr;
    var r4 := b.author + "|" + r5;
    var r3 := b.isbn + "|" + r4;
    var r2 := b.publisher + "|" + r3;
    assert ToString(b) == b.title + ['|'] + r2;
    GetLineField(b.title, '|', r2, into.title);
    assert r2 == b.publisher + ['|'] + r3;
    GetLineField(b.publisher, '|', r3, into.publisher);
    assert r3 == b.isbn + ['|'] + r4;
    GetLineField(b.isbn, '|', r4, into.isbn);
    assert r4 == b.author + ['|'] + r5;
    GetLineField(b.author, '|', r5, into.author);
    assert r5 == st + ['|'] + pr;
    GetLineField(st, '|', pr, "");
    StoiRoundTrip(b.stock);
    ExtractCentsPrinted(b.price, into.price);
  }

  /** With no line break in its text fields, a book's text is one non-empty
      line of a file. */
  lemma ToStringIsLine(b: Book)
    requires '\n' !in b.title && '\n' !in b.publisher && '\n' !in b.isbn && '\n' !in b.author
    ensures ToString(b) != [] && '\n' !in ToString(b)
  {
    NumbersHaveNoSeparators(b.stock, b.price);
  }

  /** A line without any separator only replaces the title before failing:
      the next getline finds the stream at its end and leaves the publisher,
      and everything after it, as they were. */
  lemma NoSeparatorLine(into: Book, str: string)
    requires str != [] && '|' !in str
    ensures FromString(into, str) == ParseResult(Rejected, into.(title := str))
  {
    FirstIndexOfAbsent(str, '|');
  }

  /** A line whose separators run out after the title ends with the title
      replaced and the publisher erased, since the stream was still good when
      the second getline found nothing to read. */
  lemma TitleThenNothing(into: Book, t: string)
    requires '|' !in t
    ensures FromString(into, t + "|") == ParseResult(Rejected, into.(title := t, publisher := ""))
  {
    GetLineField(t, '|', "", into.title);
    assert t + "|" == t + ['|'] + "";
  }

  /** A stock field that does not start with a number makes std::stoi throw
      invalid_argument, after the four text fields have been overwritten. */
  lemma NonNumericStockThrows(into: Book, t: string, p: string, i: string, a: string, s: string, rest: string)
    requires '|' !in t && '|' !in p && '|' !in i && '|' !in a && '|' !in s
    requires s != [] && 'a' <= s[0] <= 'z'
    ensures FromString(into, t + "|" + (p + "|" + (i + "|" + (a + "|" + (s + "|" + rest)))))
         == ParseResult(Threw(InvalidArgument), into.(title := t, publisher := p, isbn := i, author := a))
  {
    var r5 := s + "|" + rest;
    var r4 := a + "|" + r5;
    var r3 := i + "|" + r4;
    var r2 := p + "|" + r3;
    assert t + "|" + r2 == t + ['|'] + r2;
    GetLineField(t, '|', r2, into.title);
    assert r2 == p + ['|'] + r3;
    GetLineField(p, '|', r3, into.publisher);
    assert r3 == i + ['|'] + r4;
    GetLineField(i, '|', r4, into.isbn);
    assert r4 == a + ['|'] + r5;
    GetLineField(a, '|', r5, into.author);
    assert r5 == s + ['|'] + rest;
    GetLineField(s, '|', rest, "");
    StoiRejectsLetter(s);
  }

  lemma StoiRejectsLetter(s: string)
    requires s != [] && 'a' <= s[0] <= 'z'
    ensures Stoi(s) == InvalidArgument
  {
    SpaceRunNone(s);
    assert s[0..] == s;
  }

  /** `operator==`: two books are equal when their ISBNs are. */
  predicate SameIsbn(a: Book, b: Book) { a.isbn == b.isbn }

  /** std::string's `<`: lexicographic by character code. */
  predicate LexLess(s: string, t: string)
    decreases |s|
  {
    if s == [] then t != []
    else if t == [] then false
    else if s[0] != t[0] then s[0] < t[0]
    else LexLess(s[1..], t[1..])
  }

  /** `operator<`: orders books by ISBN. */
  predicate IsbnLess(a: Book, b: Book) { LexLess(a.isbn, b.isbn) }

  /** The ISBN order is a strict total order whose ties are exactly the
      books operator== calls equal; no other field takes part. */
  lemma {:induction false} LexTrichotomy(s: string, t: string)
    ensures !(LexLess(s, t) && LexLess(t, s))
    ensures LexLess(s, t) || LexLess(t, s) || s == t
    ensures !LexLess(s, s)
    decreases |s|
  {
    if s != [] && t != [] && s[0] == t[0] {
      LexTrichotomy(s[1..], t[1..]);
      if s[1..] == t[1..] {
        assert s == [s[0]] + s[1..] && t == [t[0]] + t[1..];
      }
    }
    if s != [] {
      LexTrichotomy(s[1..], s[1..]);
    }
  }

  lemma ComparisonsUseIsbnOnly(a: Book, b: Book)
    ensures IsbnLess(a, b) || IsbnLess(b, a) || SameIsbn(a, b)
    ensures !(IsbnLess(a, b) && IsbnLess(b, a)) && !IsbnLess(a, a)
    ensures SameIsbn(a, b) ==> !IsbnLess(a, b) && !IsbnLess(b, a)
    ensures SameIsbn(a, a.(title := b.title, stock := b.stock, price := b.price))
  {
    LexTrichotomy(a.isbn, b.isbn);
    LexTrichotomy(a.isbn, a.isbn);
  }
}
