/** The v3.0 binary form of a Book (`operator<<` / `operator>>`) and of the
    whole store's file, on a host with 8-byte little-endian size_t, 4-byte
    int and 8-byte double. Each of isbn, title, author and publisher, in that
    order, is written as its length (a size_t) and then its bytes; then the
    raw stock int and the raw price. The 8 bytes of a price are modelled as
    the little-endian two's-complement image of its cents, a stand-in for the
    IEEE-754 image that is likewise injective. */
module BookBinary {
  import opened Common
  import opened Books

  const TWO_32: int := 0x1_0000_0000
  const TWO_64: int := 0x1_0000_0000_0000_0000
  const NUL: char := 0 as char

  /** `width` little-endian bytes of n. */
  function Le(n: nat, width: nat): (bs: seq<byte>)
    ensures |bs| == width
  {
    if width == 0 then [] else [(n % 256) as byte] + Le(n / 256, width - 1)
  }

  /** The number that little-endian bytes denote. */
  function LeValue(bs: seq<byte>): nat {
    if bs == [] then 0 else bs[0] as nat + 256 * LeValue(bs[1..])
  }

  function Pow256(width: nat): (p: nat)
    ensures p >= 1
  {
    if width == 0 then 1 else 256 * Pow256(width - 1)
  }

  lemma {:induction false} LeRoundTrip(n: nat, width: nat)
    requires n < Pow256(width)
    ensures LeValue(Le(n, width)) == n
  {
    if width > 0 {
      LeRoundTrip(n / 256, width - 1);
      assert Le(n, width)[1..] == Le(n / 256, width - 1);
    }
  }

  lemma Pow256Values()
    ensures Pow256(4) == TWO_32 && Pow256(8) == TWO_64
  {
    assert Pow256(4) == 256 * 256 * 256 * 256 * Pow256(0);
    assert Pow256(8) == 256 * 256 * 256 * 256 * Pow256(4);
  }

  /** A size_t as written: the length modulo 2^64. */
  function SizeBytes(n: nat): (bs: seq<byte>)
    ensures |bs| == 8
  {
    Le(n % TWO_64, 8)
  }

  /** An int as written: two's complement, modulo 2^32. */
  function Int32Bytes(x: int): (bs: seq<byte>)
    ensures |bs| == 4
  {
    Le(x % TWO_32, 4)
  }

  /** The int that four bytes denote. */
  function Int32Of(bs: seq<byte>): (x: int)
    requires |bs| == 4
  {
    var u := LeValue(bs);
    if u > INT32_MAX then u - TWO_32 else u
  }

  /** A price as written (see the module comment). */
  function PriceBytes(c: int): (bs: seq<byte>)
    ensures |bs| == 8
  {
    Le(c % TWO_64, 8)
  }

  function PriceOf(bs: seq<byte>): (c: int)
    requires |bs| == 8
  {
    var u := LeValue(bs);
    if u > INT64_MAX then u - TWO_64 else u
  }

  lemma SizeRoundTrip(n: nat, rest: seq<byte>)
    requires n < TWO_64
    ensures (SizeBytes(n) + rest)[..8] == SizeBytes(n)
    ensures LeValue(SizeBytes(n)) == n
  {
    assert n % TWO_64 == n;
    assert SizeBytes(n) == Le(n, 8);
    Pow256Values();
    LeRoundTrip(n, 8);
  }

  lemma Int32RoundTrip(x: int)
    requires IsInt32(x)
    ensures Int32Of(Int32Bytes(x)) == x
  {
    Pow256Values();
    LeRoundTrip(x % TWO_32, 4);
  }

  lemma PriceRoundTrip(c: int)
    requires IsInt64(c)
    ensures PriceOf(PriceBytes(c)) == c
  {
    Pow256Values();
    LeRoundTrip(c % TWO_64, 8);
  }

  /** The bytes of a std::string. A std::string holds bytes, so only the
      low eight bits of a character take part. */
  function StrBytes(s: string): (bs: seq<byte>)
    ensures |bs| == |s|
  {
    if s == [] then [] else [(s[0] as int % 256) as byte] + StrBytes(s[1..])
  }

  /** Assigning a NUL-terminated buffer to a std::string: the bytes before
      the first zero byte. */
  function CString(bs: seq<byte>): (s: string)
    ensures |s| <= |bs|
  {
    if bs == [] || bs[0] == 0 then "" else [bs[0] as int as char] + CString(bs[1..])
  }

  /** Passing a string's bytes through a C string keeps it up to its first NUL. */
  lemma {:induction false} CStringOfStrBytes(s: string)
    requires Narrow(s)
    ensures CString(StrBytes(s)) == s[..FirstIndexOf(s, NUL)]
  {
    if s != [] && s[0] != NUL {
      CStringOfStrBytes(s[1..]);
      assert StrBytes(s)[1..] == StrBytes(s[1..]);
      assert s[..FirstIndexOf(s, NUL)] == [s[0]] + s[1..][..FirstIndexOf(s[1..], NUL)];
    }
  }

  function EncodeField(s: string): seq<byte> {
    SizeBytes(|s|) + StrBytes(s)
  }

  /** Every text field holds bytes only. */
  predicate NarrowBook(b: Book) {
    Narrow(b.isbn) && Narrow(b.title) && Narrow(b.author) && Narrow(b.publisher)
  }

  /** `os << book`. */
  function Encode(b: Book): (bs: seq<byte>)
    ensures |bs| == 8 * 4 + |b.isbn| + |b.title| + |b.author| + |b.publisher| + 4 + 8
  {
    EncodeField(b.isbn) + EncodeField(b.title) + EncodeField(b.author) + EncodeField(b.publisher)
      + Int32Bytes(b.stock) + PriceBytes(b.price)
  }

  /** One text field of `is >> book`: a length, then that many bytes read as a
      C string. A length of 0 leaves the field as it was. None when the input
      ends early. */
  function DecodeField(data: seq<byte>, current: string): (r: Option<(string, seq<byte>)>)
    ensures r.Some? ==> |r.value.1| < |data|
  {
    if |data| < 8 then None
    else
      var n := LeValue(data[..8]);
      var rest := data[8..];
      if n == 0 then Some((current, rest))
      else if |rest| < n then None
      else Some((CString(rest[..n]), rest[n..]))
  }

  /** `is >> book` into `into`, giving the book and the unread bytes. */
  function Decode(into: Book, data: seq<byte>): (r: Option<(Book, seq<byte>)>)
    ensures r.Some? ==> |r.value.1| < |data|
  {
    match DecodeField(data, into.isbn)
    case None => None
    case Some((isbn, d1)) =>
      match DecodeField(d1, into.title)
      case None => None
      case Some((title, d2)) =>
        match DecodeField(d2, into.author)
        case None => None
        case Some((author, d3)) =>
          match DecodeField(d3, into.publisher)
          case None => None
          case Some((publisher, d4)) =>
            if |d4| < 12 then None
            else Some((into.(isbn := isbn, title := title, author := author, publisher := publisher,
                             stock := Int32Of(d4[..4]), price := PriceOf(d4[4..12])), d4[12..]))
  }

  /** What a written field reads back as, into a field holding `current`. */
  function ReadBack(s: string, current: string): string {
    if s == "" then current else s[..FirstIndexOf(s, NUL)]
  }

  predicate FieldFits(s: string) { Narrow(s) && |s| < TWO_64 }

  /** The text fields hold bytes and have lengths a size_t can hold, and the
      stock and price fit their fixed widths. */
  predicate BookFits(b: Book) {
    NarrowBook(b)
    && FieldFits(b.isbn) && FieldFits(b.title) && FieldFits(b.author) && FieldFits(b.publisher)
    && IsInt32(b.stock) && IsInt64(b.price)
  }

  lemma FieldRoundTrip(s: string, current: string, rest: seq<byte>)
    requires FieldFits(s)
    ensures DecodeField(EncodeField(s) + rest, current) == Some((ReadBack(s, current), rest))
  {
    var size, body := SizeBytes(|s|), StrBytes(s) + rest;
    var data := EncodeField(s) + rest;
    ConcatAssoc(size, StrBytes(s), rest);
    SplitAt(size, body);
    SizeRoundTrip(|s|, body);
    if s != "" {
      SplitAt(StrBytes(s), rest);
      CStringOfStrBytes(s);
    }
  }

  lemma SplitAt(a: seq<byte>, b: seq<byte>)
    ensures (a + b)[..|a|] == a && (a + b)[|a|..] == b
  {
  }

  /** Reading a written book into `into` restores its stock and price; each
      text field comes back cut at its first NUL, and an empty one leaves the
      target's old value in place. */
  lemma {:induction false} DecodeEncode(into: Book, b: Book, rest: seq<byte>)
    requires BookFits(b)
    ensures Decode(into, Encode(b) + rest) == Some((b.(
      isbn := ReadBack(b.isbn, into.isbn),
      title := ReadBack(b.title, into.title),
      author := ReadBack(b.author, into.author),
      publisher := ReadBack(b.publisher, into.publisher)), rest))
  {
    var tail := Int32Bytes(b.stock) + PriceBytes(b.price) + rest;
    var d3 := EncodeField(b.publisher) + tail;
    var d2 := EncodeField(b.author) + d3;
    var d1 := EncodeField(b.title) + d2;
    EncodeSplit(b, rest);
    FieldRoundTrip(b.isbn, into.isbn, d1);
    FieldRoundTrip(b.title, into.title, d2);
    FieldRoundTrip(b.author, into.author, d3);
    FieldRoundTrip(b.publisher, into.publisher, tail);
    TailRoundTrip(b.stock, b.price, rest);
  }

  /** A written book is its four fields followed by the stock and price. */
  lemma EncodeSplit(b: Book, rest: seq<byte>)
    ensures Encode(b) + rest
         == EncodeField(b.isbn) + (EncodeField(b.title) + (EncodeField(b.author)
            + (EncodeField(b.publisher) + (Int32Bytes(b.stock) + PriceBytes(b.price) + rest))))
  {
  }

  /** The stock and price read back from their fixed-width bytes. */
  lemma TailRoundTrip(stock: int, price: int, rest: seq<byte>)
    requires IsInt32(stock) && IsInt64(price)
    ensures var tail := Int32Bytes(stock) + PriceBytes(price) + rest;
      |tail| >= 12 && Int32Of(tail[..4]) == stock && PriceOf(tail[4..12]) == price && tail[12..] == rest
  {
    var tail := Int32Bytes(stock) + PriceBytes(price) + rest;
    assert tail[..4] == Int32Bytes(stock);
    assert tail[4..12] == PriceBytes(price);
    assert tail[12..] == rest;
    Int32RoundTrip(stock);
    PriceRoundTrip(price);
  }

  /** A book survives the round trip through a default-constructed Book, as
      the loader reads it, when no text field holds a NUL. */
  predicate BinarySafe(b: Book) {
    BookFits(b) && NUL !in b.isbn && NUL !in b.title && NUL !in b.author && NUL !in b.publisher
  }

  lemma DecodeEncodeDefault(b: Book, rest: seq<byte>)
    requires BinarySafe(b)
    ensures Decode(DefaultBook(), Encode(b) + rest) == Some((b, rest))
  {
    DecodeEncode(DefaultBook(), b, rest);
    ReadBackClean(b.isbn);
    ReadBackClean(b.title);
    ReadBackClean(b.author);
    ReadBackClean(b.publisher);
  }

  lemma ReadBackClean(s: string)
    requires NUL !in s
    ensures ReadBack(s, "") == s
  {
    FirstIndexOfAbsent(s, NUL);
  }

  /** Reading a book with an empty title into a Book that has one keeps the
      stale title. */
  lemma StaleTitle(into: Book, b: Book)
    requires BookFits(b) && b.title == "" && into.title != ""
    ensures Decode(into, Encode(b) + []).Some?
    ensures Decode(into, Encode(b) + []).value.0.title == into.title
  {
    DecodeEncode(into, b, []);
  }

  // The file: the 4-byte magic "BMS\0", the version, the count, the books.

  const MAGIC: seq<byte> := [66, 77, 83, 0]
  const VERSION: int := 1

  /** Every book of the store survives the round trip. */
  predicate AllSafe(books: seq<Book>) {
    books == [] || (BinarySafe(books[0]) && AllSafe(books[1..]))
  }

  lemma {:induction false} AllSafeEach(books: seq<Book>)
    ensures AllSafe(books) <==> forall i :: 0 <= i < |books| ==> BinarySafe(books[i])
  {
    if books != [] {
      AllSafeEach(books[1..]);
      assert forall i :: 1 <= i < |books| ==> books[1..][i - 1] == books[i];
    }
  }

  /** Every book of the store in its binary form, in order. */
  function EncodeAll(books: seq<Book>): (bs: seq<byte>) {
    if books == [] then [] else Encode(books[0]) + EncodeAll(books[1..])
  }

  lemma {:induction false} EncodeAllAppend(books: seq<Book>, b: Book)
    ensures EncodeAll(books + [b]) == EncodeAll(books) + Encode(b)
  {
    if books == [] {
      assert [b][1..] == [];
    } else {
      assert (books + [b])[1..] == books[1..] + [b];
      EncodeAllAppend(books[1..], b);
    }
  }

  /** The save loop's step: one more book written after the prefix. */
  lemma EncodeAllPrefix(books: seq<Book>, i: nat)
    requires i < |books|
    ensures EncodeAll(books[..i + 1]) == EncodeAll(books[..i]) + Encode(books[i])
  {
    assert books[..i + 1] == books[..i] + [books[i]];
    EncodeAllAppend(books[..i], books[i]);
  }

  /** The header saveToFile writes: magic, version 1, and the book count
      converted to int. */
  function Header(n: nat): (h: seq<byte>)
    ensures |h| == 12
  {
    MAGIC + Int32Bytes(VERSION) + Int32Bytes(n)
  }

  /** The whole file saveToFile writes. */
  function FileImage(books: seq<Book>): seq<byte> {
    Header(|books|) + EncodeAll(books)
  }

  /** `count` books read one after another, each into a fresh Book. */
  function DecodeMany(data: seq<byte>, count: nat): (r: Option<(seq<Book>, seq<byte>)>)
    ensures r.Some? ==> |r.value.0| == count
    decreases count
  {
    if count == 0 then Some(([], data))
    else
      match Decode(DefaultBook(), data)
      case None => None
      case Some((b, d)) =>
        match DecodeMany(d, count - 1)
        case None => None
        case Some((bs, d')) => Some(([b] + bs, d'))
  }

  lemma {:induction false} DecodeManyEncodeAll(books: seq<Book>, rest: seq<byte>)
    requires AllSafe(books)
    ensures DecodeMany(EncodeAll(books) + rest, |books|) == Some((books, rest))
  {
    if books != [] {
      DecodeManyEncodeAll(books[1..], rest);
      DecodeManyStep(books, rest);
    } else {
      assert EncodeAll(books) + rest == rest;
    }
  }

  lemma DecodeManyStep(books: seq<Book>, rest: seq<byte>)
    requires books != [] && BinarySafe(books[0])
    requires DecodeMany(EncodeAll(books[1..]) + rest, |books| - 1) == Some((books[1..], rest))
    ensures DecodeMany(EncodeAll(books) + rest, |books|) == Some((books, rest))
  {
    EncodeAllCons(books, rest);
    var d := EncodeAll(books[1..]) + rest;
    DecodeEncodeDefault(books[0], d);
    DecodeManyCons(Encode(books[0]) + d, |books|, books[0], d, books[1..], rest);
    assert [books[0]] + books[1..] == books;
  }

  /** A non-empty store is written as its first book, then the others. */
  lemma EncodeAllCons(books: seq<Book>, rest: seq<byte>)
    requires books != []
    ensures EncodeAll(books) + rest == Encode(books[0]) + (EncodeAll(books[1..]) + rest)
  {
    var e, t := Encode(books[0]), EncodeAll(books[1..]);
    assert EncodeAll(books) == e + t;
    ConcatAssoc(e, t, rest);
  }

  lemma ConcatAssoc(a: seq<byte>, b: seq<byte>, c: seq<byte>)
    ensures (a + b) + c == a + (b + c)
  {
  }

  /** One book decoded, then the others. */
  lemma DecodeManyCons(data: seq<byte>, count: nat, b: Book, d: seq<byte>, bs: seq<Book>, rest: seq<byte>)
    requires count > 0
    requires Decode(DefaultBook(), data) == Some((b, d))
    requires DecodeMany(d, count - 1) == Some((bs, rest))
    ensures DecodeMany(data, count) == Some(([b] + bs, rest))
  {
  }

  /** What loadFromFile does once the magic is accepted: a version other than
      1 is refused; otherwise as many books as the count says (none when it is
      negative) are read. A file that ends early is refused. */
  function ReadAfterMagic(data: seq<byte>): (r: Option<seq<Book>>)
  {
    if |data| < 12 then None
    else if Int32Of(data[4..8]) != VERSION then None
    else
      var count := Int32Of(data[8..12]);
      match DecodeMany(data[12..], if count < 0 then 0 else count)
      case None => None
      case Some((books, _)) => Some(books)
  }

  /** The magic test as intended: the first four bytes are "BMS\0". */
  function DecodeFile(data: seq<byte>): (r: Option<seq<Book>>)
    ensures r.Some? ==> |data| >= 12 && data[..4] == MAGIC
  {
    if |data| < 4 || data[..4] != MAGIC then None else ReadAfterMagic(data)
  }

  /** With the intended magic test, what saveToFile writes loads back as the
      same books, in order. */
  lemma DecodeFileImage(books: seq<Book>)
    requires AllSafe(books)
    requires |books| <= INT32_MAX
    ensures DecodeFile(FileImage(books)) == Some(books)
  {
    ImageHeader(books);
    ImageBody(books);
    ReadAfterMagicOf(FileImage(books), books);
  }

  /** DecodeFileImage in the form a saver states it. */
  lemma ImageLoads(books: seq<Book>)
    ensures AllSafe(books) && |books| <= INT32_MAX ==> DecodeFile(FileImage(books)) == Some(books)
  {
    if AllSafe(books) && |books| <= INT32_MAX {
      DecodeFileImage(books);
    }
  }

  lemma ImageHeader(books: seq<Book>)
    requires |books| <= INT32_MAX
    ensures var data := FileImage(books);
      |data| >= 12 && data[..4] == MAGIC
      && Int32Of(data[4..8]) == VERSION && Int32Of(data[8..12]) == |books|
  {
    HeaderFields(|books|, EncodeAll(books));
    Int32RoundTrip(VERSION);
    Int32RoundTrip(|books|);
  }

  lemma ImageBody(books: seq<Book>)
    requires AllSafe(books)
    ensures |FileImage(books)| >= 12
    ensures DecodeMany(FileImage(books)[12..], |books|) == Some((books, []))
  {
    var body := EncodeAll(books);
    HeaderFields(|books|, body);
    DecodeManyEncodeAll(books, []);
    assert body + [] == body;
  }

  lemma ReadAfterMagicOf(data: seq<byte>, books: seq<Book>)
    requires |data| >= 12 && data[..4] == MAGIC
    requires Int32Of(data[4..8]) == VERSION && Int32Of(data[8..12]) == |books|
    requires DecodeMany(data[12..], |books|) == Some((books, []))
    ensures DecodeFile(data) == Some(books)
  {
  }

  /** The header's three fields sit at offsets 0, 4 and 8. */
  lemma HeaderFields(n: nat, body: seq<byte>)
    ensures var data := Header(n) + body;
      |data| >= 12 && data[..4] == MAGIC && data[4..8] == Int32Bytes(VERSION)
      && data[8..12] == Int32Bytes(n) && data[12..] == body
  {
  }

  /** A file whose magic is wrong is refused by the intended test. */
  lemma DecodeFileRejectsBadMagic(data: seq<byte>)
    requires |data| >= 4 && data[..4] != MAGIC
    ensures DecodeFile(data) == None
  {
  }

  // The magic test as written: `std::string(magic, 4) != "BMS\0"`. The right
  // operand is a `const char*`, so it stands for the C string "BMS", three
  // characters, and a four-character string never equals it.

  /** `std::string(magic, 4)`: four bytes as a string. */
  function BytesAsString(bs: seq<byte>): (s: string)
    ensures |s| == |bs|
  {
    if bs == [] then "" else [bs[0] as int as char] + BytesAsString(bs[1..])
  }

  /** The first four bytes of the file, or the magic buffer's indeterminate
      contents, taken here as zeros, when the file is shorter. */
  function MagicBuffer(data: seq<byte>): (m: seq<byte>)
    ensures |m| == 4
  {
    if |data| >= 4 then data[..4] else data + seq(4 - |data|, _ => 0)
  }

  predicate MagicMatchesAsWritten(m: seq<byte>) {
    BytesAsString(m) == CString(MAGIC)
  }

  /** `loadFromFile` as written, on a file that opened or not: None is a
      `false` return with the store untouched. */
  function LoadAsWritten(isOpen: bool, data: seq<byte>): Option<seq<Book>> {
    if !isOpen then None
    else if !MagicMatchesAsWritten(MagicBuffer(data)) then None
    else ReadAfterMagic(data)
  }

  /** The comparison can never succeed: whatever the file holds, loadFromFile
      as written refuses it, even the file saveToFile has just written. */
  lemma {:induction false} LoadAsWrittenAlwaysFails(isOpen: bool, data: seq<byte>)
    ensures !MagicMatchesAsWritten(MagicBuffer(data))
    ensures LoadAsWritten(isOpen, data) == None
  {
    assert CString(MAGIC) == "BMS";
  }

  /** The counterexample: a one-book store's own file. */
  lemma SavedFileRefused(b: Book)
    requires BinarySafe(b)
    ensures DecodeFile(FileImage([b])) == Some([b])
    ensures LoadAsWritten(true, FileImage([b])) == None
  {
    DecodeFileImage([b]);
    LoadAsWrittenAlwaysFails(true, FileImage([b]));
  }
}
