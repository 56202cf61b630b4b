# Bookstore inventory, v2.0 and v3.0, in Dafny

This project models the core of a small C++ bookstore management system in
two revisions.

- **v2.0**:
  - A `BookManager` keeps the books in a vector, looks them up by ISBN, and
    finds them by exact title, author or publisher.
  - It saves and loads the store as `|`-delimited lines of text, one per book.
  - A `SalesManager` sells books by decreasing their stock and appending a
    `SaleRecord`. It saves and loads those records in the same kind of text
    file.
  - A `StatisticsManager` computes price and stock statistics, groups the
    books by author and publisher, and sorts them by price and stock.
- **v3.0**:
  - A `BookManager` does substring search and descending sorts.
  - It saves and loads a binary file: a magic number, a version, a count,
    then each book as length-prefixed strings, a 4-byte stock and an 8-byte
    price.
  - There are two variants of the sales system. `SalesSystem.cpp` has the
    intended stock check; `SaleSys.cpp` has the check inverted.
  - A statistics system (`StatisSys`) computes totals, averages and maxima.

How the model is built:

- **Values.** A book and a sale record are values (`datatype`), because the
  C++ classes are copied by value into the vectors. Their setters are
  functional updates.
- **Stores.** The managers, whose vectors are updated in place, are
  `class`es with a `seq` field. Their methods carry `modifies` clauses and
  state their whole new state.
- **Loops.** Where the source loops (index search, totals, minima and maxima,
  saving and loading), the model has a `while` loop with invariants. These
  loops are proved against specification functions: `IndexOf`, `Search`,
  `TotalStock`, `EncodeAll`, `LoadLines`.
- **Money.** Prices and totals are integer cents. Averages are `real`.
- **Text files.** Decoding follows the C++ library closely:
  - `std::getline` leaves its target unchanged on a stream that is not good;
  - it erases the target and fails at end of input;
  - `std::stoi` either gives an `int` or throws `invalid_argument` or
    `out_of_range`;
  - `ss >> price` reads a decimal.
- **Binary codec.** It is modelled byte by byte in little-endian order:
  - string lengths are 8-byte `size_t`, stocks are 4-byte `int`;
  - a zero-length field leaves the target's old value in place;
  - a string read back stops at the first NUL byte, as the C-string
    assignment does.

Modules, by file:

- `common.dfy`: integer bounds, `find`, the first index of a character.
- `books.dfy`: the `Book` value, its constructors, copy and setters (both
  versions).
- `inventory.dfy`: the specification functions for search, uniqueness and
  totals.
- `sorting.dfy`: the descending `std::sort`, as an insertion sort on values.
- `decimal.dfy`: integer and two-decimal printing, `stoi` and decimal
  parsing.
- `text_stream.dfy`: string streams, `getline`, splitting a file into lines.
- `book_text.dfy`: the v2.0 `Book::toString`, `Book::fromString`,
  `operator<` and `operator==`.
- `sale_record.dfy`: the v2.0 `SaleRecord`.
- `book_binary.dfy`: the v3.0 `operator<<` and `operator>>` of `Book`, and
  the file image.
- `store_v2.dfy`, `store_v3.dfy`: the two `BookManager`s.
- `sales_v2.dfy`: the v2.0 `SalesManager`.
- `sales_system.dfy`: the v3.0 `SalesSystem.cpp`.
- `sale_sys.dfy`: the v3.0 `SaleSys.cpp`.
- `statistics_manager.dfy`: the v2.0 `StatisticsManager`.
- `statis_sys.dfy`: the v3.0 `StatisSys` (also `StatisticsSystem.cpp`; see
  below).

## Model

| member | source | states |
|---|---|---|
| Books.DefaultBook | v3.0/src/Book.cpp:5-6 | the default book has empty strings, zero stock and zero price |
| Books.NewBook | v3.0/src/Book.cpp:9-14 | the six-argument constructor stores each argument in its own field |
| Books.Copy | v3.0/src/Book.cpp:17-20 | the copy constructor copies all six fields |
| Books.CopyIsIdentity | v3.0/src/Book.cpp:23-33 | copying or assigning a book gives an equal book, and copying again changes nothing |
| Books.SetterLaws | v3.0/src/Book.cpp:65-87 | each setter changes its own field and no other; setting the current value is a no-op; a second set overrides the first |
| Inventory.IndexOf | v3.0/src/BookManager.cpp:9-16 | the result is the first position holding the ISBN, or -1 exactly when no book has it |
| Inventory.HasIsbnIndexOf | v3.0/src/BookManager.cpp:18-20 | the ISBN exists exactly when the index search does not give -1 |
| Inventory.UniqueIndexOf | v3.0/src/BookManager.cpp:9-16 | in a store with unique ISBNs, each book is found at its own position |
| Inventory.RemoveAt | v3.0/src/BookManager.cpp:130-138 | erasing position k keeps the books before k and shifts the books after it down by one |
| Inventory.AppendKeepsUnique | v3.0/src/BookManager.cpp:23-31 | adding a book whose ISBN is absent keeps ISBNs unique |
| Inventory.ReplaceKeepsUnique | v3.0/src/BookManager.cpp:114-127 | replacing a slot by a book with the same ISBN or an absent one keeps ISBNs unique |
| Inventory.RemoveKeepsUnique | v3.0/src/BookManager.cpp:130-138 | erasing a book keeps ISBNs unique, and its ISBN is then absent |
| Inventory.SearchMembers | v3.0/src/BookManager.cpp:51-69 | a book is in the result exactly when it is in the store and its field matches the query |
| Inventory.SearchAppend | v3.0/src/BookManager.cpp:51-69 | searching a concatenation gives the results of the two parts, in order |
| Inventory.SearchEmptySubstring | v3.0/src/BookManager.cpp:51-69 | an empty query occurs in every field, so it returns the whole store in order |
| Inventory.ExactWithinSubstring | v2.0/src/BookManager.cpp:81-89 | every exact (v2.0) match is also a substring (v3.0) match |
| Inventory.TotalsAppend | v3.0/src/StatisSys.cpp:12-29 | the total stock, the sum of the prices and the total value split over a concatenation |
| Inventory.TotalsPrefix | v3.0/src/StatisSys.cpp:12-29 | each loop step adds exactly the next book's stock, price or value to the running sum |
| Inventory.TotalStockReplace | v3.0/src/SalesSystem.cpp:32 | replacing one book changes the total stock by the difference of the two stocks |
| Inventory.TotalStockBounds | v3.0/src/StatisSys.cpp:12-19 | with non-negative stocks, every book's stock is at most the total stock |
| Inventory.NonNegativeTotal | v3.0/src/StatisSys.cpp:12-19 | with non-negative stocks, the total stock is non-negative |
| Sorting.Insert | v3.0/src/BookManager.cpp:156-157 | inserting into a non-increasing sequence keeps it non-increasing and adds exactly that book |
| Sorting.SortDescending | v3.0/src/BookManager.cpp:150-160 | the result is non-increasing in the key and is a permutation of the input |
| Sorting.HeadIsMaximal | v3.0/src/StatisSys.cpp:64-70 | the first element of a descending permutation is in the input and has the largest key |
| Decimal.NatToStringValue | v2.0/src/Book.cpp:49-54 | the decimal digits of a number read back as that number |
| Decimal.Stoi | v2.0/src/Book.cpp:66 | stoi yields only values an int can hold |
| Decimal.StoiRoundTrip | v2.0/src/Book.cpp:66 | stoi of a printed int gives that int back |
| Decimal.CentsRoundTrip | v2.0/src/Book.cpp:49-67 | a price printed with two decimals is parsed back as the same number of cents |
| Decimal.NumbersHaveNoSeparators | v2.0/src/Book.cpp:49-54 | a printed number contains neither the field separator nor a line break |
| TextStream.GetLine | v2.0/src/Book.cpp:61-65 | getline fails on a stream that is not good and leaves the target alone; at end of input it fails with the target erased; a success holds no delimiter and consumes input |
| TextStream.GetLineField | v2.0/src/Book.cpp:61-65 | a field followed by its delimiter is read whole and the rest is left |
| TextStream.ExtractCentsPrinted | v2.0/src/Book.cpp:67 | `ss >> price` on a printed price succeeds with that price |
| TextStream.Lines | v2.0/src/BookManager.cpp:165-173 | reading a file line by line gives lines without line breaks |
| TextStream.LinesUnlines | v2.0/src/BookManager.cpp:157-195 | writing lines each followed by a newline and reading them back gives the same lines |
| BookText.FromString | v2.0/src/Book.cpp:57-70 | an empty line is refused with the title erased; only a conversion error can be thrown |
| BookText.RoundTrip | v2.0/src/Book.cpp:49-70 | parsing a book's text, into any book, gives back all six fields |
| BookText.ToStringIsLine | v2.0/src/Book.cpp:49-54 | a book without line breaks in its strings prints as one non-empty line |
| BookText.NoSeparatorLine | v2.0/src/Book.cpp:61-62 | a line without a separator is refused after the whole line has been stored as the title |
| BookText.TitleThenNothing | v2.0/src/Book.cpp:61-62 | a title and one separator are refused with the publisher erased |
| BookText.NonNumericStockThrows | v2.0/src/Book.cpp:65-66 | a stock field starting with a letter makes stoi throw invalid_argument after four fields were stored |
| BookText.StoiRejectsLetter | v2.0/src/Book.cpp:66 | stoi of text that starts with a letter throws invalid_argument |
| BookText.LexTrichotomy | v2.0/src/Book.cpp:73-75 | string `<` is irreflexive, asymmetric and total |
| BookText.ComparisonsUseIsbnOnly | v2.0/src/Book.cpp:73-79 | `<` and `==` on books look only at the ISBNs; books with equal ISBNs are equal under `==` and not less than each other |
| SaleRecords.DefaultSaleRecord | v2.0/src/SaleRecord.cpp:16-18 | the default record is empty with zero quantity and total, stamped with the current time |
| SaleRecords.NewSaleRecord | v2.0/src/SaleRecord.cpp:21-26 | the total is the quantity times the unit price; a positive sale of a priced book totals at least the price |
| SaleRecords.Copy | v2.0/src/SaleRecord.cpp:29-43 | copy and assignment copy all five fields |
| SaleRecords.Stod | v2.0/src/SaleRecord.cpp:77 | stod gives a number or throws invalid_argument |
| SaleRecords.FromString | v2.0/src/SaleRecord.cpp:68-81 | only a conversion error can be thrown; a parsed record's ISBN and title hold no separator |
| SaleRecords.ToStringIsLine | v2.0/src/SaleRecord.cpp:60-65 | a record without line breaks prints as one non-empty line |
| SaleRecords.RoundTrip | v2.0/src/SaleRecord.cpp:60-81 | parsing a record's text, into any record, gives back all five fields, even when the time holds a separator |
| SaleRecords.EmptyTimeRejected | v2.0/src/SaleRecord.cpp:78 | a line that ends after the total's separator is refused, with the time erased |
| BookBinary.Int32RoundTrip | v3.0/src/Book.cpp:121 | a 4-byte stock image reads back as the same int |
| BookBinary.PriceRoundTrip | v3.0/src/Book.cpp:122 | an 8-byte price image reads back as the same price |
| BookBinary.SizeRoundTrip | v3.0/src/Book.cpp:101-102 | an 8-byte length image reads back as the same length |
| BookBinary.CStringOfStrBytes | v3.0/src/Book.cpp:133-135 | assigning a NUL-terminated buffer keeps the string up to its first NUL |
| BookBinary.Encode | v3.0/src/Book.cpp:99-125 | a book's image is four 8-byte lengths, the four strings, 4 bytes of stock and 8 of price |
| BookBinary.FieldRoundTrip | v3.0/src/Book.cpp:127-137 | reading a written field consumes exactly its bytes; an empty field keeps the old value |
| BookBinary.DecodeEncode | v3.0/src/Book.cpp:99-177 | reading a written book into any book restores stock and price, and each non-empty string up to its first NUL |
| BookBinary.DecodeEncodeDefault | v3.0/src/Book.cpp:99-177 | reading a written book without NULs into a default book gives back the book |
| BookBinary.ReadBackClean | v3.0/src/Book.cpp:131-137 | a field without NULs read into an empty string is the field itself |
| BookBinary.StaleTitle | v3.0/src/Book.cpp:140-148 | an empty title read into a book that has a title leaves the old title in place |
| BookBinary.EncodeAllAppend | v3.0/src/BookManager.cpp:201-203 | writing one more book appends its image to the file body |
| BookBinary.DecodeManyEncodeAll | v3.0/src/BookManager.cpp:247-251 | reading as many books as were written gives them back, in order, and leaves the rest |
| BookBinary.DecodeFile | v3.0/src/BookManager.cpp:216-261 | the intended loader accepts only data that starts with the magic and has a full header |
| BookBinary.DecodeFileImage | v3.0/src/BookManager.cpp:181-261 | with the intended magic test, the file saveToFile writes loads back as the same books |
| BookBinary.DecodeFileRejectsBadMagic | v3.0/src/BookManager.cpp:224-229 | data with any other first four bytes is refused |
| BookBinary.LoadAsWrittenAlwaysFails | v3.0/src/BookManager.cpp:224-229 | the magic test as written never passes, so loadFromFile refuses every file |
| BookBinary.SavedFileRefused | v3.0/src/BookManager.cpp:181-229 | a one-book store's own file decodes under the intended test and is refused as written |
| StoreV3.BookManager.FindBookIndex | v3.0/src/BookManager.cpp:9-16 | the linear search returns the first index holding the ISBN, or -1 exactly when it is absent |
| StoreV3.BookManager.IsISBNExists | v3.0/src/BookManager.cpp:18-20 | true exactly when some book has the ISBN |
| StoreV3.BookManager.AddBook | v3.0/src/BookManager.cpp:23-31 | succeeds exactly when the ISBN is new; then the book is appended, otherwise nothing changes; ISBNs stay unique |
| StoreV3.BookManager.FindByISBN | v3.0/src/BookManager.cpp:34-48 | finds a book exactly when the ISBN exists, and it is the first book with it |
| StoreV3.BookManager.FindByTitle | v3.0/src/BookManager.cpp:51-69 | the books whose title contains the query, in store order, and only those |
| StoreV3.BookManager.FindByAuthor | v3.0/src/BookManager.cpp:72-90 | the books whose author contains the query, in store order, and only those |
| StoreV3.BookManager.FindByPublisher | v3.0/src/BookManager.cpp:93-111 | the books whose publisher contains the query, in store order, and only those |
| StoreV3.BookManager.UpdateBook | v3.0/src/BookManager.cpp:114-127 | succeeds exactly when the ISBN exists and the new ISBN is the same or unused; then that slot is replaced; ISBNs stay unique |
| StoreV3.BookManager.DeleteBook | v3.0/src/BookManager.cpp:130-138 | succeeds exactly when the ISBN exists; then that book is erased and the ISBN is gone |
| StoreV3.BookManager.SortByPrice | v3.0/src/BookManager.cpp:150-160 | a permutation of the store in non-increasing price |
| StoreV3.BookManager.SortByStock | v3.0/src/BookManager.cpp:163-173 | a permutation of the store in non-increasing stock |
| StoreV3.BookManager.BookCount | v3.0/src/BookManager.cpp:176-178 | zero exactly when the store is empty |
| StoreV3.BookManager.SaveToFile | v3.0/src/BookManager.cpp:181-213 | an open file receives the header and every book's image, and that image decodes back to the store under the intended magic test |
| StoreV3.BookManager.LoadFromFile | v3.0/src/BookManager.cpp:216-261 | as written, every load fails and leaves the store untouched |
| StoreV3.BookManager.Clear | v3.0/src/BookManager.cpp:264-266 | the store is empty |
| StoreV2.LoadLine | v2.0/src/BookManager.cpp:166-173 | a loaded line either is skipped or appends the book parsed from it |
| StoreV2.LoadLines | v2.0/src/BookManager.cpp:157-178 | loading never reports an open failure and yields at most one book per line |
| StoreV2.LoadLineOfBook | v2.0/src/BookManager.cpp:166-173 | the line of a printable book loads as that book |
| StoreV2.LoadRendered | v2.0/src/BookManager.cpp:157-195 | loading the printed lines of printable books gives the same books |
| StoreV2.RenderedAreLines | v2.0/src/BookManager.cpp:181-195 | each printed book is one line |
| StoreV2.SaveLoadRoundTrip | v2.0/src/BookManager.cpp:157-195 | the saved text file of printable books loads back as the same books |
| StoreV2.LoadKeepsDuplicates | v2.0/src/BookManager.cpp:157-178 | loading does not check ISBNs, so a file with a book twice gives a store with a duplicate |
| StoreV2.StopsAtThrow | v2.0/src/BookManager.cpp:157-178 | once a line throws, the lines after it are not read |
| StoreV2.BookManager.FindBookIndexByIsbn | v2.0/src/BookManager.cpp:18-25 | the first index holding the ISBN, or -1 exactly when it is absent |
| StoreV2.BookManager.IsIsbnExists | v2.0/src/BookManager.cpp:13-15 | true exactly when some book has the ISBN |
| StoreV2.BookManager.AddBook | v2.0/src/BookManager.cpp:28-37 | succeeds exactly when the ISBN is new; then the book is appended, otherwise nothing changes; ISBNs stay unique |
| StoreV2.BookManager.DeleteBook | v2.0/src/BookManager.cpp:40-50 | succeeds exactly when the ISBN exists; then that book is erased and the ISBN is gone |
| StoreV2.BookManager.UpdateBook | v2.0/src/BookManager.cpp:53-69 | succeeds exactly when the ISBN exists and the new ISBN is the same or unused; then that slot is replaced |
| StoreV2.BookManager.FindBookByIsbn | v2.0/src/BookManager.cpp:72-78 | finds a book exactly when the ISBN exists, and it is the first book with it |
| StoreV2.BookManager.FindBooksByTitle | v2.0/src/BookManager.cpp:81-89 | the books whose title equals the query, in store order, and only those |
| StoreV2.BookManager.FindBooksByAuthor | v2.0/src/BookManager.cpp:92-100 | the books whose author equals the query, in store order, and only those |
| StoreV2.BookManager.FindBooksByPublisher | v2.0/src/BookManager.cpp:103-111 | the books whose publisher equals the query, in store order, and only those |
| StoreV2.BookManager.UpdateStock | v2.0/src/BookManager.cpp:114-127 | succeeds exactly when the ISBN exists and the new stock is not negative; then only that stock moves by the quantity |
| StoreV2.BookManager.GetStock | v2.0/src/BookManager.cpp:130-136 | the book's stock, or -1 for an absent ISBN |
| StoreV2.BookManager.Clear | v2.0/src/BookManager.cpp:139-141 | the store is empty |
| StoreV2.BookManager.LoadFromFile | v2.0/src/BookManager.cpp:157-178 | an unopened file is reported and changes nothing; otherwise the store and status are those of loading the file's lines |
| StoreV2.BookManager.SaveToFile | v2.0/src/BookManager.cpp:181-195 | an open file receives one line per book, and that text loads back as the store |
| SalesV2.RecordsFor | v2.0/src/SalesManager.cpp:55-63 | the records of one ISBN, and only those |
| SalesV2.TotalSalesAppend | v2.0/src/SalesManager.cpp:66-72 | the sales total splits over a concatenation |
| SalesV2.TotalSalesBounds | v2.0/src/SalesManager.cpp:66-72 | with non-negative totals, every sale is at most the sales total |
| SalesV2.NonNegativeSales | v2.0/src/SalesManager.cpp:66-72 | with non-negative totals, the sales total is non-negative |
| SalesV2.LoadLine | v2.0/src/SalesManager.cpp:105-112 | a loaded line either is skipped or appends the record parsed from it |
| SalesV2.LoadLines | v2.0/src/SalesManager.cpp:96-117 | loading never reports an open failure and yields at most one record per line |
| SalesV2.LoadLineOfRecord | v2.0/src/SalesManager.cpp:105-112 | the line of a printable record loads as that record |
| SalesV2.LoadRendered | v2.0/src/SalesManager.cpp:96-134 | loading the printed lines of printable records gives the same records |
| SalesV2.RenderedAreLines | v2.0/src/SalesManager.cpp:120-134 | each printed record is one line |
| SalesV2.SaveLoadRoundTrip | v2.0/src/SalesManager.cpp:96-134 | the saved sales file loads back as the same records |
| SalesV2.StopsAtThrow | v2.0/src/SalesManager.cpp:96-117 | once a line throws, the lines after it are not read |
| SalesV2.SalesManager.PurchaseBook | v2.0/src/SalesManager.cpp:12-52 | succeeds exactly when the quantity is positive, the ISBN exists and the stock suffices; then only that stock drops by the quantity and one record, priced at quantity times price, is appended; otherwise nothing changes |
| SalesV2.SalesManager.GetSaleRecordsByIsbn | v2.0/src/SalesManager.cpp:55-63 | the records of that ISBN in order |
| SalesV2.SalesManager.GetTotalSales | v2.0/src/SalesManager.cpp:66-72 | the sum of all record totals, 0 when there are none |
| SalesV2.SalesManager.SaleRecordCount | v2.0/include/SalesManager.h:31 | zero exactly when there are no records |
| SalesV2.SalesManager.Clear | v2.0/src/SalesManager.cpp:91-93 | no records remain |
| SalesV2.SalesManager.LoadFromFile | v2.0/src/SalesManager.cpp:96-117 | an unopened file is reported and changes nothing; otherwise the records are those of loading the file's lines |
| SalesV2.SalesManager.SaveToFile | v2.0/src/SalesManager.cpp:120-134 | an open file receives one line per record, and that text loads back as the records |
| SalesV2.SaleAddsItsTotal | v2.0/src/SalesManager.cpp:40-72 | a new record raises the sales total by its own total and shows up among its ISBN's records |
| SalesSystem.Consume | v3.0/src/SalesSystem.cpp:12-14 | no copies cost nothing and one copy costs the price |
| SalesSystem.ConsumeAdditive | v3.0/src/SalesSystem.cpp:12-14 | the cost of two quantities together is the sum of their costs |
| SalesSystem.Purchase | v3.0/src/SalesSystem.cpp:17-34 | succeeds exactly when the quantity is positive, the ISBN exists and the stock suffices; only that book changes; a refusal changes nothing |
| SalesSystem.PurchaseMatchesCheck | v3.0/src/SalesSystem.cpp:17-48 | a purchase goes through exactly when checkStock says yes, and then lowers that book's stock and the total stock by the quantity |
| SalesSystem.PurchaseKeepsStockNonNegative | v3.0/src/SalesSystem.cpp:17-34 | purchases never make a stock negative |
| SalesSystem.SaleSys.GetBookPrice | v3.0/src/SalesSystem.cpp:51-57 | the book's price, or 0 for an absent ISBN |
| SalesSystem.SaleSys.GetTotalPrice | v3.0/src/SalesSystem.cpp:60-67 | 0 for a non-positive quantity or absent ISBN, otherwise the cost of the quantity at the book's price |
| SalesSystem.SaleSys.PurchaseBook | v3.0/src/SalesSystem.cpp:17-34 | the result is checkStock's answer, and the store becomes the purchase's result |
| SaleSys.Purchase | v3.0/src/SaleSys.cpp:7-15 | as written, succeeds exactly when the ISBN exists and isSuft is false |
| SaleSys.NonPositiveQuantityAccepted | v3.0/src/SaleSys.cpp:7-15 | as written, a zero or negative quantity is accepted and raises the stock |
| SaleSys.OverdraftAccepted | v3.0/src/SaleSys.cpp:11 | as written, a quantity above the stock is accepted and leaves the stock negative |
| SaleSys.OppositeOfIntended | v3.0/src/SaleSys.cpp:7-15 | for a present ISBN the as-written and intended purchases always disagree; both refuse an absent one |
| SaleSys.OneInStockTwoBought | v3.0/src/SaleSys.cpp:11 | one copy in stock and two bought: accepted as written with stock -1, refused as intended |
| SaleSys.SaleSys.TotalConsume | v3.0/src/SaleSys.cpp:18-23 | 0 for an absent ISBN or non-positive quantity, otherwise price times quantity |
| SaleSys.SaleSys.PurchaseBook | v3.0/src/SaleSys.cpp:7-15 | the result and the new store are those of the as-written purchase; ISBNs stay unique |
| SaleSys.TotalConsumeAgrees | v3.0/src/SaleSys.cpp:18-23 | totalConsume charges what SalesSystem.cpp's getTotalPrice charges |
| StatisticsManager.GroupsAreSearches | v2.0/src/StatisticsManager.cpp:94-99 | the group keys are exactly the values that occur, and each group is the exact search for its key, in store order |
| StatisticsManager.StatisticsManager.GetPriceStatistics | v2.0/src/StatisticsManager.cpp:141-165 | all zero for an empty store; otherwise the minimum and maximum bound every price and are attained, the average is the sum over the count, and the total value is the sum of price times stock |
| StatisticsManager.StatisticsManager.GetStockStatistics | v2.0/src/StatisticsManager.cpp:168-190 | all zero for an empty store; otherwise the count, attained minimum and maximum, average and total stock |
| StatisticsManager.StatisticsManager.GroupBy | v2.0/src/StatisticsManager.cpp:94-99 | the map from each occurring field value to its books in store order |
| StatisticsManager.StatisticsManager.GroupByAuthor | v2.0/src/StatisticsManager.cpp:87-111 | the keys are exactly the authors that occur, each mapped to that author's books in store order |
| StatisticsManager.StatisticsManager.GroupByPublisher | v2.0/src/StatisticsManager.cpp:114-138 | the keys are exactly the publishers that occur, each mapped to that publisher's books in store order |
| StatisticsManager.StatisticsManager.SortedByPrice | v2.0/src/StatisticsManager.cpp:43-62 | a permutation of the store in non-increasing price |
| StatisticsManager.StatisticsManager.SortedByStock | v2.0/src/StatisticsManager.cpp:65-84 | a permutation of the store in non-increasing stock |
| StatisSys.StatisSys.GetTotalBooks | v3.0/src/StatisSys.cpp:7-9 | the number of books in the store |
| StatisSys.StatisSys.GetTotalStock | v3.0/src/StatisSys.cpp:12-19 | the sum of all stocks |
| StatisSys.StatisSys.GetTotalValue | v3.0/src/StatisSys.cpp:22-29 | the sum of price times stock over all books |
| StatisSys.StatisSys.GetAveragePrice | v3.0/src/StatisSys.cpp:50-61 | 0 for an empty store, otherwise the sum of prices over the count |
| StatisSys.StatisSys.GetBooksByAuthor | v3.0/src/StatisSys.cpp:32-34 | the books whose author contains the query, and only those |
| StatisSys.StatisSys.GetBooksByPublisher | v3.0/src/StatisSys.cpp:36-38 | the books whose publisher contains the query, and only those |
| StatisSys.StatisSys.GetBooksSortedByPrice | v3.0/src/StatisSys.cpp:41-43 | a permutation of the store in non-increasing price |
| StatisSys.StatisSys.GetBooksSortedByStock | v3.0/src/StatisSys.cpp:45-47 | a permutation of the store in non-increasing stock |
| StatisSys.StatisSys.GetMostExpensiveBook | v3.0/src/StatisSys.cpp:64-70 | none exactly for an empty store; otherwise a book of the store with no book priced higher |
| StatisSys.StatisSys.GetHighestStockBook | v3.0/src/StatisSys.cpp:72-78 | none exactly for an empty store; otherwise a book of the store with no book stocked higher |

## Left out

- Graphical and console front ends, `FileManager`, the `main` programs and
  the test programs are not part of this model. Neither are the `display`
  and `print*` functions: they only write to the console.
- File handles become an `isOpen` flag plus the file's contents, as a string
  or as bytes. The model does not cover writing failures part way through.
- The wall clock that stamps a sale record becomes a parameter `now`.
- Exceptions are not modelled as control flow:
  - a `stoi` or `stod` that throws is the outcome `Threw`;
  - a load that stops on such a throw is `Aborted`, and the books or records
    read so far stay in the store.
- Prices are integer cents, so the model does not cover `double` rounding.
  In the binary file, the 8 bytes of the price are its two's-complement
  image in cents rather than IEEE-754 bits; only the fact that the image
  reads back matters here.
- Averages are exact `real` quotients.
- Sums, products and stock changes use unbounded integers: signed overflow
  in C++ is undefined. The codecs do spell out the widths:
  - `stoi` is range-checked against a 32-bit `int`;
  - the binary stock is reduced modulo 2^32;
  - the binary lengths are 8-byte `size_t`.
- BookBinary.StrBytes keeps only the low 8 bits of a character, as a
  `std::string` holds bytes. The round trips require characters below 256.
- BookBinary.DecodeFile refuses a file that ends early. The C++ loop would
  go on reading from a failed stream and push default or partly read books.
  This is the intended loader, used only for the findings.
- StoreV3.BookManager.LoadFromFile: as written every load fails at the
  magic test, so the model never reaches the clear and read loop at
  `v3.0/src/BookManager.cpp:243-251`. That loop is modelled by
  BookBinary.ReadAfterMagic.
- Pointers are not modelled:
  - `std::vector<Book*>` results and `shared_ptr` copies become value copies;
  - a `Book*` returned by a find or a maximum becomes an `Option<Book>`;
  - `getAllBooks` and writing through a returned pointer are not modelled,
    because they give callers aliases into the store.
- `std::sort` becomes an insertion sort. Its contracts claim only a
  non-increasing order and a permutation. The order among equal keys is
  unspecified in C++ and is not modelled.
- StatisticsManager.StatisticsManager.GroupBy: the `std::map` is a Dafny
  `map`, which has no order. The ascending key order in which the reports
  print groups is not modelled.
- The v3.0 `getTotalBooks` calls `getBookAmount`, which `BookManager.h`
  declares but `BookManager.cpp` never defines. It is modelled as the
  defined `getBookCount`.
- `v3.0/src/StatisticsSystem.cpp` is the same code as `StatisSys.cpp`, line
  for line, apart from its class name. Both are modelled once as module
  `StatisSys`.
- The `salesManager` field of the v2.0 `StatisticsManager` is stored but no
  statistic uses it. It is kept in the class but plays no part in any
  contract.
- The check that the GUI applies to non-positive quantities before calling
  the stores is front-end code and is not modelled. The stores' own checks
  are modelled.

## Findings

| source | as written | input that shows it | evidently intended | confidence | as-written member | corrected member |
|---|---|---|---|---|---|---|
| v3.0/src/BookManager.cpp:226 | `std::string(magic, 4) != "BMS\0"` compares a four-character string with the C string `"BMS"` (the literal decays to a pointer and stops at its first NUL), so the test never passes and every load fails | a store with one book, saved by `saveToFile` and loaded again (BookBinary.SavedFileRefused) | the first four bytes compared with the four bytes `B`, `M`, `S`, NUL, so that a saved file loads back | not executed | BookBinary.LoadAsWrittenAlwaysFails | BookBinary.DecodeFileImage |
| v3.0/src/SaleSys.cpp:11 | the purchase is refused when `isSuft` holds, that is, when the quantity is positive and in stock, and goes through otherwise | one copy in stock and two bought: accepted, and the stock becomes -1 (SaleSys.OneInStockTwoBought) | refuse when `isSuft` fails, as `SalesSystem.cpp` does | not executed | SaleSys.OverdraftAccepted | SalesSystem.PurchaseMatchesCheck |
