/** The v2.0 SaleRecord: one sale, with the ISBN, a snapshot of the title,
    the quantity, the total in cents and the time of sale, and its delimited
    text form. The wall clock that stamps a new record is a parameter. */
module SaleRecords {
  import opened Common
  import opened Decimal
  import opened TextStream

  datatype SaleRecord = SaleRecord(
    isbn: string,
    bookTitle: string,
    quantity: int,
    totalPrice: int,
    saleTime: string)

  /** SaleRecord(): empty strings, zero quantity and total, stamped `now`. */
  function DefaultSaleRecord(now: string): (r: SaleRecord)
    ensures r.isbn == r.bookTitle == "" && r.quantity == 0 && r.totalPrice == 0
    ensures r.saleTime == now
  {
    SaleRecord("", "", 0, 0, now)
  }

  /** SaleRecord(isbn, bookTitle, quantity, price): the total is the quantity
      times the unit price, and the record is stamped `now`. */
  function NewSaleRecord(isbn: string, bookTitle: string, quantity: int, price: int, now: string): (r: SaleRecord)
    ensures r.isbn == isbn && r.bookTitle == bookTitle && r.quantity == quantity
    ensures r.totalPrice == quantity * price && r.saleTime == now
    ensures quantity > 0 && price >= 0 ==> 0 <= price <= r.totalPrice
  {
    SaleRecord(isbn, bookTitle, quantity, quantity * price, now)
  }

  /** Copy construction and assignment copy all five fields. */
  function Copy(other: SaleRecord): (r: SaleRecord)
    ensures r.isbn == other.isbn && r.bookTitle == other.bookTitle
    ensures r.quantity == other.quantity && r.totalPrice == other.totalPrice
    ensures r.saleTime == other.saleTime
  {
    SaleRecord(other.isbn, other.bookTitle, other.quantity, other.totalPrice, other.saleTime)
  }

  /** `isbn|bookTitle|quantity|totalPrice|saleTime`, the total with two decimals. */
  function ToString(r: SaleRecord): string {
    r.isbn + "|" + r.bookTitle + "|" + IntToString(r.quantity) + "|"
      + CentsToString(r.totalPrice) + "|" + r.saleTime
  }

  /** std::stod: a decimal number, or it throws invalid_argument. */
  function Stod(s: string): (r: IntParse)
    ensures r.IntValue? || r == InvalidArgument
  {
    match ParseCents(s)
    case Some(c) => IntValue(c)
    case None => InvalidArgument
  }

  datatype Outcome = Parsed | Rejected | Threw(error: IntParse)
  datatype ParseResult = ParseResult(outcome: Outcome, record: SaleRecord)

  /** `bool SaleRecord::fromString(str)` called on `into`. The first four
      fields end at a `|`; the time is the rest of the line, `|` included. */
  function FromString(into: SaleRecord, str: string): (r: ParseResult)
    ensures r.outcome.Threw? ==> !r.outcome.error.IntValue?
    ensures r.outcome == Parsed ==> '|' !in r.record.isbn && '|' !in r.record.bookTitle
  {
    var g1 := GetLine(Open(str), '|', into.isbn);
    var r1 := into.(isbn := g1.value);
    if !g1.ok then ParseResult(Rejected, r1) else
    var g2 := GetLine(g1.stream, '|', into.bookTitle);
    var r2 := r1.(bookTitle := g2.value);
    if !g2.ok then ParseResult(Rejected, r2) else
    var g3 := GetLine(g2.stream, '|', "");
    if !g3.ok then ParseResult(Rejected, r2) else
    match Stoi(g3.value)
    case IntValue(q) => ReadTotalAndTime(r2.(quantity := q), g3.stream, g3.value)
    case e => ParseResult(Threw(e), r2)
  }

  /** The rest of fromString once the quantity is stored in `r3`: the total,
      read into the same temporary, then the time. */
  function ReadTotalAndTime(r3: SaleRecord, s: Stream, temp: string): (r: ParseResult)
    ensures r.outcome.Threw? ==> !r.outcome.error.IntValue?
    ensures r.record.isbn == r3.isbn && r.record.bookTitle == r3.bookTitle
  {
    var g4 := GetLine(s, '|', temp);
    if !g4.ok then ParseResult(Rejected, r3) else
    match Stod(g4.value)
    case IntValue(c) =>
      var r4 := r3.(totalPrice := c);
      var g5 := GetLine(g4.stream, '\n', r3.saleTime);
      ParseResult(if g5.ok then Parsed else Rejected, r4.(saleTime := g5.value))
    case e => ParseResult(Threw(e), r3)
  }

  /** The ISBN and title may not hold the separator, the quantity is an int,
      and the time is a non-empty single line. */
  predicate TextSafe(r: SaleRecord) {
    '|' !in r.isbn && '|' !in r.bookTitle && IsInt32(r.quantity)
    && r.saleTime != [] && '\n' !in r.saleTime
  }

  /** With no line break in its ISBN, title or time, a record's text is one
      non-empty line of a file. */
  lemma ToStringIsLine(r: SaleRecord)
    requires '\n' !in r.isbn && '\n' !in r.bookTitle && '\n' !in r.saleTime
    ensures ToString(r) != [] && '\n' !in ToString(r)
  {
    NumbersHaveNoSeparators(r.quantity, r.totalPrice);
  }

  /** Reading back the text of a record, into any record, restores all five
      fields; the time may contain `|`. */
  lemma {:induction false} RoundTrip(into: SaleRecord, r: SaleRecord)
    requires TextSafe(r)
    ensures FromString(into, ToString(r)) == ParseResult(Parsed, r)
  {
    var tail := CentsToString(r.totalPrice) + "|" + r.saleTime;
    ToStringSplit(r);
    ReadHead(into, r, tail);
    TotalAndTime(into.(isbn := r.isbn, bookTitle := r.bookTitle, quantity := r.quantity),
      r.totalPrice, r.saleTime, IntToString(r.quantity));
  }

  /** The printed record as its first three fields and the rest. */
  lemma ToStringSplit(r: SaleRecord)
    ensures ToString(r) == r.isbn + "|" + r.bookTitle + "|" + IntToString(r.quantity) + "|"
      + (CentsToString(r.totalPrice) + "|" + r.saleTime)
  {
    var head := r.isbn + "|" + r.bookTitle + "|" + IntToString(r.quantity) + "|";
    var ts := CentsToString(r.totalPrice);
    assert ToString(r) == head + ts + "|" + r.saleTime;
    assert head + ts + "|" == head + (ts + "|");
    assert head + (ts + "|") + r.saleTime == head + (ts + "|" + r.saleTime);
  }

  /** The ISBN, title and quantity of a printed record are read back, and the
      rest of the line is left for the total and the time. */
  lemma ReadHead(into: SaleRecord, r: SaleRecord, tail: string)
    requires '|' !in r.isbn && '|' !in r.bookTitle && IsInt32(r.quantity)
    ensures FromString(into, r.isbn + "|" + r.bookTitle + "|" + IntToString(r.quantity) + "|" + tail)
         == ReadTotalAndTime(into.(isbn := r.isbn, bookTitle := r.bookTitle, quantity := r.quantity),
              Open(tail), IntToString(r.quantity))
  {
    var qs := IntToString(r.quantity);
    NumbersHaveNoSeparators(r.quantity, 0);
    var r3 := qs + "|" + tail;
    var r2 := r.bookTitle + "|" + r3;
    assert r.isbn + "|" + r.bookTitle + "|" + qs + "|" + tail == r.isbn + ['|'] + r2;
    GetLineField(r.isbn, '|', r2, into.isbn);
    assert r2 == r.bookTitle + ['|'] + r3;
    GetLineField(r.bookTitle, '|', r3, into.bookTitle);
    assert r3 == qs + ['|'] + tail;
    GetLineField(qs, '|', tail, "");
    StoiRoundTrip(r.quantity);
  }

  /** A printed total followed by a non-empty time is read back as both. */
  lemma TotalAndTime(r3: SaleRecord, c: int, time: string, temp: string)
    requires time != [] && '\n' !in time
    ensures ReadTotalAndTime(r3, Open(CentsToString(c) + "|" + time), temp)
         == ParseResult(Parsed, r3.(totalPrice := c, saleTime := time))
  {
    var ts := CentsToString(c);
    NumbersHaveNoSeparators(0, c);
    assert ts + "|" + time == ts + ['|'] + time;
    GetLineField(ts, '|', time, temp);
    CentsRoundTrip(c);
    GetLineLast(time, '\n', r3.saleTime);
  }

  /** A line that ends right after the total's separator is refused, and the
      time is erased: the stream was still good but held nothing more. */
  lemma EmptyTimeRejected(into: SaleRecord, r: SaleRecord)
    requires TextSafe(r)
    ensures FromString(into, ToString(r.(saleTime := "")))
         == ParseResult(Rejected, r.(saleTime := ""))
  {
    var ts := CentsToString(r.totalPrice);
    ToStringSplit(r.(saleTime := ""));
    ReadHead(into, r, ts + "|" + "");
    var r3 := into.(isbn := r.isbn, bookTitle := r.bookTitle, quantity := r.quantity);
    NumbersHaveNoSeparators(0, r.totalPrice);
    assert ts + "|" + "" == ts + ['|'] + "";
    GetLineField(ts, '|', "", IntToString(r.quantity));
    CentsRoundTrip(r.totalPrice);
  }
}
