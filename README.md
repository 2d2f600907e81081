# Verified model of the site's record logic

This project is a Dafny model of the record logic behind a static author
website, with proofs about it. The site lists books and publications from CSV files. The scripts
fetch a CSV file and turn it into rows of header-keyed records. Then they sort,
filter, group and shorten those records for display. The model covers these parts:

- the hand-written CSV reader `parseCSV` of `assets/csv.js`. This is a
  two-state character scanner (inside or outside double quotes), followed by
  the conversion of rows into header-keyed objects. Like the source, it is
  imperative: a `while` loop over the text and a `for` loop over the headers.
- the slash-date reader `parseCsvDate` and the `formatDateFr` guard, which
  appear identically in `js/main.js` and `js/book.js`.
- the book list logic of `js/main.js`: the newest-first sort, the five
  featured books, the year options and the year filter. It also covers `truncate`.
- the detail-page lookup of `js/book.js`: the `ID`/`Id` match and the field
  fallbacks.
- the publication list of `js/publications.js`: `parseIntOrNull`, the row
  projection, the year sort, and the year-and-text filter. It also covers the grouping into a
  `Map` by year (a `forEach` loop, modelled as a method with a `for` loop) and
  the ordering of the group keys with 'Sans date' last.
- `trunc` of `assets/app.js`.

The JavaScript built-ins the code relies on are modelled in `JsText` and
`Lists`. The `JsText` built-ins are `trim`, `toLowerCase`, `includes`, `split`,
`parseInt(x, 10)` and `String(n)`. The `Lists` built-ins are `filter`, the stable `sort` with
a numeric comparator, and `[...new Set(xs)].sort((a, b) => b - a)`. Sorting is a stable
insertion sort, because section 22.1.3.27 of ECMAScript 2019 requires
`Array.prototype.sort` to be stable.

Modules: `Wrappers`, `JsText`, `Lists`, `Csv`, `CsvDates`, `Books`,
`BookDetail`, `Publications`, `Truncation`.

`parseCsvDate` reads only slash dates, and years get no century pivot:

- There is no ISO `YYYY-M-D` branch.
- A two-digit year has no 70/30 pivot. Every year below 100 gets 2000 added, so
  `3/5/75` is 5 March 2075 (`CsvDates.SeventyFiveIsTwentySeventyFive`).
- `2024-3-5` is an Invalid Date (`CsvDates.IsoDateIsInvalid`).

## Model

| member | source | states |
|---|---|---|
| Csv.Step | assets/csv.js:5-17 | one turn of the scanning loop consumes two characters exactly for a doubled quote inside quotes, else one; a single quote toggles the quote state; only a newline outside quotes finishes a row; outside quotes a comma moves the field into the row and starts an empty one, and an ordinary character is appended to the field |
| Csv.Run | assets/csv.js:4-21 | scanning the rest of the text keeps the finished rows and adds at least the final flushed row |
| Csv.Tokenize | assets/csv.js:2-21 | every text, the empty one included, gives at least one row |
| Csv.ScanRows | assets/csv.js:2-21 | the scanning loop and its final flush produce exactly the rows of the scanner specification `Tokenize` |
| Csv.TokenizeRowCount | assets/csv.js:15-21 | the number of raw rows is the number of newlines outside quotes plus one |
| Csv.RunRowCount | assets/csv.js:4-21 | from any scanner state, the rows produced are the finished rows, plus one per newline met outside quotes, plus one |
| Csv.UnquotedNewlinesWithoutQuotes | assets/csv.js:15 | in text without quote characters, every newline ends a row |
| Csv.RunIgnoresCarriageReturns | assets/csv.js:14 | outside quotes a carriage return is skipped, so removing it from quote-free text changes no row |
| Csv.TokenizeIgnoresCarriageReturns | assets/csv.js:14 | a quote-free file reads the same with CRLF and LF line endings |
| Csv.RunQuoteFree | assets/csv.js:7-12 | scanning text without `""` adds no field holding `"` |
| Csv.TokenizeQuoteFree | assets/csv.js:7-12 | text without `""` yields no field holding `"`: a bare quote never reaches a field |
| Csv.RunQuotes | assets/csv.js:5-21 | for any text, the quote characters in the fields are those already in the scanner's state plus one per doubled quote consumed inside quotes |
| Csv.TokenizeQuotes | assets/csv.js:2-21 | the fields of a document hold exactly as many `"` as there are doubled quotes read inside quotes: every other quote is dropped |
| Csv.DoubledQuotesBound | assets/csv.js:8 | each doubled quote uses two quote characters of the text, so the fields hold at most half of the text's quotes |
| Csv.RunEscaped | assets/csv.js:7-10 | inside quotes, a doubled quote gives one `"` and every other character (comma, newline, carriage return included) is kept, until a single quote closes the field |
| Csv.QuotedFieldRoundTrip | assets/csv.js:7-12 | a field wrapped in quotes with its inner quotes doubled reads back as the original text |
| Csv.RunEncodedRow | assets/csv.js:13 | a comma-separated row of quoted fields reads back as its fields, whatever follows it except a quote |
| Csv.RunEncodedRows | assets/csv.js:13-15 | rows of quoted fields separated by LF or by CRLF line breaks read back as the rows |
| Csv.TokenizeEncodedRows | assets/csv.js:4-21 | rows written with every field quoted, as in section 2 of RFC 4180, and separated by CRLF (rule 1) or by LF, tokenize back to the same rows |
| Csv.RunPlainField | assets/csv.js:16 | outside quotes, a field without quotes, commas or line breaks is appended character by character to the field being read, whatever follows it |
| Csv.RunPlainComma | assets/csv.js:13-16 | such a field and the comma after it add exactly that field to the row |
| Csv.RunPlainRow | assets/csv.js:13-16 | a comma-separated row of such fields puts every field but the last into the row and leaves the last one open |
| Csv.RunPlainRows | assets/csv.js:4-21 | newline-separated rows of such fields add exactly those rows to the finished ones |
| Csv.TokenizePlainRows | assets/csv.js:2-21 | rows written with commas and newlines and no quoting, with no quote, comma, carriage return or newline in a field, tokenize back to the same rows |
| Csv.TokenizeTitleYear | assets/csv.js:2-21 | `Title,Year\nFoo,2020` reads as the rows `Title`, `Year` and `Foo`, `2020` |
| Csv.Headers | assets/csv.js:24 | one header name per header cell, each the cell trimmed |
| Csv.Kept | assets/csv.js:25 | a data row is kept exactly when it is non-empty and some cell is not whitespace only |
| Csv.Cell | assets/csv.js:28 | the cell of column `j`, or `''` for a column past the row's end |
| Csv.LastIndex | assets/csv.js:27-29 | the position of the last column carrying a header name |
| Csv.RecordOf | assets/csv.js:26-30 | the object of a data row has exactly the header names as keys; each gets the untrimmed cell of its last column, or `''` past the row's end; cells past the headers are dropped |
| Csv.ToRecord | assets/csv.js:26-30 | the `for` loop over the headers builds exactly `RecordOf` |
| Csv.ToRecords | assets/csv.js:23-31 | no rows give no records; at most one record per data row; every record has exactly the trimmed header keys |
| Csv.Parse | assets/csv.js:1-32 | `parseCSV` returns the records of the scanned rows |
| Csv.ParseEmpty | assets/csv.js:19-25 | empty text gives no records |
| Csv.RecordCount | assets/csv.js:19-25 | at most one record per newline outside quotes |
| Csv.DataRowsKept | assets/csv.js:25 | a data row is dropped exactly when it is empty or all its cells are whitespace only; the others are kept with their multiplicity and in order |
| Csv.PlainDocumentRecords | assets/csv.js:1-32 | a document written without quoting gives one record per data row that passes the blank-row filter, in order, each that row's record under the trimmed headers |
| Csv.EncodedDocumentRecords | assets/csv.js:1-32 | a fully quoted document, with LF or CRLF line breaks, gives one record per data row that passes the blank-row filter, in order, each that row's record under the trimmed headers; with no blank row, one record per data row |
| JsText.TrimStart | assets/csv.js:24 | removes exactly the leading whitespace |
| JsText.TrimEnd | assets/csv.js:24 | removes exactly the trailing whitespace |
| JsText.Trim | assets/csv.js:24 | the slice of the text after its leading whitespace, with only whitespace cut from the back, and no whitespace at either end |
| JsText.TrimEmptyIff | assets/csv.js:25 | a cell trims to `''` exactly when it is whitespace only |
| JsText.LowerChar | js/publications.js:71 | a Latin-1 capital moves 0x20 up and every other character is unchanged; whitespace stays whitespace; the result is never a capital |
| JsText.LowerIdempotent | js/publications.js:71 | lower-casing twice is lower-casing once |
| JsText.Lower | js/publications.js:71 | lower-casing keeps the length and maps every character on its own |
| JsText.LowerWhitespace | js/publications.js:71 | lower-casing neither creates nor removes whitespace |
| JsText.Contains | js/publications.js:79 | `includes` holds exactly when the needle occurs at some position |
| JsText.Split | js/main.js:7 | `split('/')` gives at least one part and no part holds the separator |
| JsText.JoinSplit | js/main.js:7 | joining the parts with the separator gives back the text |
| JsText.SplitJoin | js/main.js:7 | splitting parts without the separator, once joined, gives back the parts |
| JsText.SplitNoSep | js/main.js:7 | a separator-free prefix joins the first part |
| JsText.ParseInt | js/publications.js:4 | after the leading whitespace and an optional sign, NaN exactly when no digit follows; otherwise the magnitude is the value of the leading digits, and the result is negative only after a minus sign |
| JsText.IntToString | js/publications.js:74 | a non-empty string, with a minus sign exactly for negative numbers and digits everywhere else |
| JsText.DigitPrefix | js/publications.js:4 | the longest run of leading digits |
| JsText.NatToString | js/publications.js:74 | the decimal form of a natural number is a non-empty string of digits |
| JsText.NatToStringNoLeadingZero | js/publications.js:74 | the numeral starts with `0` only for zero, so it has no leading zero |
| JsText.DecimalValueOfNatToString | js/publications.js:74 | reading the decimal form of a number gives the number |
| JsText.DigitPrefixOfDigits | js/publications.js:4 | `parseInt` reads all the digits and stops at the first non-digit |
| JsText.TrimStartNoLeadingWhitespace | js/publications.js:4 | text starting with a non-whitespace character is not changed by the leading trim of `parseInt` |
| JsText.ParseIntOfNumeral | js/publications.js:4 | `parseInt` of a numeral followed by a non-digit is that number |
| JsText.ParseIntOfNegative | js/publications.js:4 | `parseInt` of a printed negative number followed by a non-digit is that number |
| JsText.ParseIntMinus | js/publications.js:4 | after a minus sign `parseInt` reads the digits that follow, negated, and gives NaN without digits |
| JsText.ParseIntOfIntToString | js/publications.js:4 | `parseInt(String(n) + rest)` is `n` when `rest` does not start with a digit |
| JsText.ParseIntIntToString | js/publications.js:4 | `parseInt(String(n))` is `n` for every integer `n` |
| JsText.IntToStringInjective | js/publications.js:74 | different numbers print differently |
| JsText.ParseIntNoDigits | js/publications.js:4-5 | text without digits parses to NaN |
| JsText.ParseIntUndefined | js/publications.js:4-5 | `parseInt(undefined)` reads the text "undefined" and is NaN |
| Lists.Filter | js/main.js:143-145 | `filter` keeps only elements that satisfy the predicate and never lengthens the list |
| Lists.FilterMultiset | js/publications.js:73-82 | an element survives a filter as often as it occurs when it satisfies the predicate, else never |
| Lists.FilterIsSubsequence | js/publications.js:73-82 | the survivors of a filter keep their order |
| Lists.FilterAppend | js/publications.js:96 | filtering a list extended by one element extends the result by that element exactly when it satisfies the predicate |
| Lists.FilterAll | js/publications.js:73-82 | a filter whose predicate always holds keeps everything |
| Lists.FilterNone | js/publications.js:95 | a filter whose predicate never holds keeps nothing |
| Lists.Insert | js/publications.js:43 | inserting into a non-increasing list keeps it non-increasing and adds exactly that element |
| Lists.SortDesc | js/publications.js:43 | a sort with a descending numeric comparator returns a permutation of its input that is non-increasing by key |
| Lists.InsertKeyClass | js/publications.js:43 | insertion places the element before every element with its own key, and leaves the order of that key class otherwise unchanged |
| Lists.SortDescStable | js/publications.js:43 | the sort keeps the relative order of elements with equal keys |
| Lists.InsertDistinct | js/publications.js:141 | inserting into a strictly decreasing list keeps it strictly decreasing and adds exactly that value |
| Lists.DistinctDesc | js/publications.js:141 | `[...new Set(xs)].sort((a, b) => b - a)` is strictly decreasing and holds exactly the values of `xs` |
| Lists.TruthyYears | js/publications.js:141 | `filter(Boolean)` keeps exactly the present non-zero years |
| Lists.YearList | js/publications.js:141 | the year list holds each present non-zero year exactly once, strictly descending |
| CsvDates.Part | js/main.js:8-10 | `parts[i]` for an existing part; a missing part is text that `parseInt` reads as NaN |
| CsvDates.ExpandYear | js/main.js:11 | a year of 100 or more is unchanged; a year from 0 to 99 lands in 2000-2099 with the same last two digits; a negative year also gets 2000 added |
| CsvDates.ParseCsvDate | js/main.js:5-13 | the result is null exactly for an absent or empty date text |
| CsvDates.ParseCsvDateParts | js/main.js:7-12 | for non-empty text the result is an Invalid Date exactly when the month, day or year part (a missing part included) is not a number; otherwise it is the Date built from the year (2000 added below 100), the month minus one and the day |
| CsvDates.DayNotANumberIsInvalid | js/main.js:9-12 | `3/x/2020` is an Invalid Date, because its day is NaN |
| CsvDates.NoSlashInIntToString | js/main.js:7 | a printed number holds no slash |
| CsvDates.ParseNumericDate | js/main.js:7-12 | `M/D/Y` is read month first, the month is passed 0-based, and every year below 100 gets 2000 added with no pivot |
| CsvDates.NoSlashIsInvalid | js/main.js:7-12 | a non-empty text without a slash lacks a day and a year and gives an Invalid Date |
| CsvDates.SeventyFiveIsTwentySeventyFive | js/main.js:11 | `3/5/75` is built as 5 March 2075 |
| CsvDates.IsoDateIsInvalid | js/book.js:1-9 | `2024-3-5` gives an Invalid Date |
| CsvDates.FullYear | js/main.js:127 | a year exactly for a valid date, and it is the year the date was built with |
| CsvDates.FormatDateFr | js/book.js:11-13 | nothing is formatted exactly when the parsed date is null or invalid; otherwise the parsed date is formatted |
| Books.TimeValue | js/main.js:51 | a Date contributes the host's time value of its constructor arguments; null, and here an Invalid Date, contribute 0 |
| Books.SortBooks | js/main.js:50-52 | the sorted books are a rearrangement of the rows; when no date is invalid they are newest first, with no date counting as time 0 |
| Books.SortBooksStable | js/main.js:50-52 | when no date is invalid, books with equal time values keep their file order |
| Books.UndatedAfterRecent | js/main.js:50-52 | when no date is invalid, a book without a date never comes before a book dated after 1 January 1970 |
| Books.Featured | js/main.js:67 | `slice(0, 5)` is the first min(5, length) books, in order |
| Books.FeaturedAreNewest | js/main.js:67 | the featured books are the first min(5, length) books of the sorted list, in order; when no date is invalid, no other book is newer |
| Books.YearOptions | js/main.js:125-129 | the year options are strictly descending and hold exactly the non-zero years of dates that parse |
| Books.FilterByYear | js/main.js:138-147 | "all" gives every book; a year gives only books whose parsed date has that year |
| Books.FilterByYearExact | js/main.js:143-145 | a chosen year keeps exactly the books of that year, as often as they occur and in their order |
| BookDetail.BookId | js/book.js:37 | `ID` when present and non-empty, else `Id`, else `''` |
| BookDetail.FindBook | js/book.js:37 | the index of the first book whose identifier equals the id, or none when no book matches |
| BookDetail.DetailOf | js/book.js:43-47 | each shown field is its column or `''`; the cover is 'Cover Image', else 'CoverImage', else `''` |
| BookDetail.LoadBookDetail | js/book.js:21-47 | a missing or empty id gives no lookup; otherwise the page shows the first matching book, or "not found" exactly when no book matches |
| Publications.ParseIntOrNull | js/publications.js:3-6 | `null` for a missing column; otherwise `parseInt` of the text, with NaN as `null` |
| Publications.ParseIntOrNullOfYear | js/publications.js:3-6 | a printed year followed by a non-digit reads back as that year |
| Publications.Project | js/publications.js:34-40 | id, title, outlet and reference are their columns or `''`; the year is `parseIntOrNull` of the Year column, and a missing Year gives no year |
| Publications.ProjectAll | js/publications.js:34-40 | one publication per row, in row order |
| Publications.YearOrZero | js/publications.js:43 | the year, or 0 without one, is 0 exactly for a missing or zero year, and otherwise the year |
| Publications.SortPublications | js/publications.js:43 | a rearrangement of the publications that is non-increasing by year, with no year counting as 0 |
| Publications.SortPublicationsStable | js/publications.js:43 | publications of the same year keep their file order |
| Publications.UndatedLast | js/publications.js:43 | an undated publication never comes before one with a positive year |
| Publications.NormalizeQuery | js/publications.js:71 | the search text is the lower-cased box text with leading whitespace and only whitespace at the back cut off; it is empty exactly when the box holds only whitespace, and otherwise neither starts nor ends with whitespace |
| Publications.Matches | js/publications.js:74-81 | an item passes only when "all" is selected or its printed year is the selected value, and only when the query is empty or occurs in its lower-cased title, outlet and reference; and it passes whenever both checks hold |
| Publications.YearString | js/publications.js:74 | `String(item.year)` is "null" for no year, and `parseInt` reads it back as the year |
| Publications.FilteredItems | js/publications.js:67-82 | every kept item passes the year check and the text check |
| Publications.FilteredItemsExact | js/publications.js:73-82 | an item is kept exactly when it passes both checks, as often as it occurs, and the kept items stay in order |
| Publications.YearCheckExact | js/publications.js:74 | the printed-year comparison selects exactly the items of that year, and never an undated one |
| Publications.NoFilterKeepsAll | js/publications.js:70-82 | with "all" selected and a blank search box every item is kept |
| Publications.KeyOf | js/publications.js:94 | the key is 'Sans date' exactly when the year is missing or 0; otherwise it is the year |
| Publications.FirstIndexSpec | js/publications.js:93-96 | the first position of a key is where an item with that key first occurs, and no earlier item has it |
| Publications.GroupStep | js/publications.js:94-96 | one turn of the loop keeps every group the order-preserving non-empty sub-list of the items with its key |
| Publications.GroupByYear | js/publications.js:91-97 | the group keys are those of the items, each once, ordered by the position of their first item (`FirstIndex`); each group is non-empty and is exactly the items with its key, in order |
| Publications.GroupsPartition | js/publications.js:93-97 | each item is in the group of its own key as often as it is in the list, and in no other group |
| Publications.SortedGroupKeys | js/publications.js:99-103 | the sorted keys are the group keys, each once, with the years strictly descending and 'Sans date' last |
| Publications.YearOptions | js/publications.js:141 | the year options are strictly descending and hold exactly the non-zero years of the publications |
| Truncation.SubstringEnd | js/main.js:27 | the end index of `substring(0, n)` lies within the text and is `n` whenever `n` does |
| Truncation.SliceEnd | assets/app.js:10 | the end index of `slice(0, n)` lies within the text; a negative `n` counts from the end |
| Truncation.Truncate | js/main.js:25-28 | falsy text gives `''`; text of length at most `n` is unchanged; longer text gives a prefix of length max(n, 0) followed by `…` |
| Truncation.Trunc | assets/app.js:10 | falsy text gives `''`; text of length at most `n` (default 160) is unchanged; longer text gives its first `n` characters and `…`, `n + 1` in all |
| Truncation.TruncateIdempotent | js/main.js:25-28 | shortening an already shortened text changes nothing |
| Truncation.TruncAgreesWithTruncate | assets/app.js:10 | for a non-negative limit `trunc` and `truncate` agree |
| Truncation.TruncDefault | assets/app.js:10 | with no limit, `trunc` is `truncate(…, 160)` |
| Truncation.NegativeLimitDiffers | assets/app.js:10 | for a negative limit they differ: `slice` counts from the end, `substring` clamps to 0 |

## Left out

- Network and async loading are left out. This covers `fetch`, `response.ok`, `loadBooks`, `loadPublications` and the `try`/`catch` logging, because they are I/O. The models take the text or rows as inputs.
- `Papa.parse` is left out because it is a third-party library whose source is not part of this model. Its rows are an abstract input: `Csv.Record` values keyed by column name.
- Module-level globals (`allBooks`, `pubItems`) are passed as explicit sequences and returned, not stored.
- The DOM is left out: templates, Swiper, the IntersectionObserver reveal, event wiring, the select's `value`, the page title and the parallax scroll arithmetic. The select's value and the search box text are parameters.
- `js/nav.js`, `assets/book.js` and the rest of `assets/app.js` are not part of this model. They are DOM toggling, or host `Date` parsing plus a `find` by slug.
- `new Date(y, m - 1, d)` is kept as its constructor arguments (`CsvDates.Civil`). The host's overflow normalisation (month 13, day 0) is left out, and so is `toLocaleDateString`.
- CsvDates.ParseNumericDate: after `2000 + y`, a year from 0 to 99 (that is, `y` from -2000 to -1901) is read by the host as 1900 plus the year. The model keeps the year as built.
- CsvDates.FormatDateFr: a time value beyond ±8.64e15 ms is an Invalid Date in the host, so `formatDateFr('1/1/300000')` is `''`, while the model formats it. The model has no time range.
- CsvDates.FullYear, Books.YearOptions, Books.SortBooks: the same host rule makes such a `Civil` date an Invalid Date. So in the host `getFullYear()` gives NaN and the year is dropped from the options. The sort comparator gives NaN for it. The model reads these dates as valid: it gives their year and uses `time` for them. `Books.NoInvalidDates` does not exclude them.
- Books.SortBooks: the time value of a Date is a parameter `time`, because the model has no host calendar arithmetic.
- Books.SortBooks: with an Invalid Date in the list the order is unspecified. Its time is NaN, so the comparator returns NaN, which the engine reads as +0 ("equal") against every book, and the comparator is then inconsistent. The model returns one order an engine may produce, with the Invalid Date at time 0. So the newest-first clause of `Books.SortBooks`, `Books.SortBooksStable`, `Books.UndatedAfterRecent` and the last clause of `Books.FeaturedAreNewest` are promised only when no date is invalid (`Books.NoInvalidDates`). The permutation clause holds always.
- CsvDates.FullYear: `getFullYear()` is the year passed to the constructor, without the host's normalisation of out-of-range months and days.
- Books.FilterByYear: the selected value is modelled as "all" or one year. The loose `==` against an arbitrary option string is left out.
- The in-place `sort` of `allBooks` and `pubItems` is modelled on sequences (`Lists.SortDesc`). Aliasing of the sorted array is left out.
- JsText.LowerChar: the mapping of `toLowerCase` is restricted to the Latin-1 capitals (`A`-`Z` and `\u00C0`-`\u00DE` except `\u00D7`); every other character is unchanged.
- JsText.Lower: `toLowerCase` maps only the Latin-1 capitals (`A`-`Z` and `\u00C0`-`\u00DE` except `\u00D7`). The rest of Unicode case mapping is left out.
- Strings are sequences of Unicode scalar values. JavaScript counts UTF-16 code units, so the lengths in `truncate` and `trunc` differ for characters outside the Basic Multilingual Plane.
- JsText.ParseInt: integers are unbounded, so the precision loss of `parseInt` beyond 2^53 is not modelled, and neither is `String(n)` in exponent form for very large numbers.
- Truncation.Trunc: the bound of `n + 1` characters is stated for non-negative `n` only. For a negative `n`, `slice` counts from the end (`Truncation.NegativeLimitDiffers`). Every call site passes 160.
- Csv.RecordOf: a header named `__proto__` does not create an own property in JavaScript, because the assignment at assets/csv.js:28 calls the prototype setter. The model makes it an ordinary key.
- The `rows.length === 0` check at assets/csv.js:23 can never return early, because the final flush always pushes a row. `Csv.Parse` keeps the check as written, and `Csv.TokenizeRowCount` shows that it is dead.
