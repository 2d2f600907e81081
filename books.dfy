/** The book list logic of `js/main.js`: the newest-first sort of the rows,
    the five featured books, the year options and the year filter. The rows
    are the header-keyed records of the CSV file, passed in and returned
    rather than held in a module-level variable. */
module Books {
  import opened Wrappers
  import opened Lists
  import opened CsvDates
  import Csv

  type Book = Csv.Record

  /** `book[k]`: `None` when the row has no such column (`undefined`). */
  function Get(b: Book, k: string): Option<string> {
    if k in b then Some(b[k]) else None
  }

  function PublicationDate(b: Book): CsvDate {
    ParseCsvDate(Get(b, "Publication Date"))
  }

  /** The number a Date contributes to `parseCsvDate(b) - parseCsvDate(a)`:
      `null` counts as 0, a Date as its time value, which the host computes
      from the constructor arguments (`time`). An Invalid Date makes the
      difference NaN; it is given 0 here, which is one of the orders an engine
      may produce (see `NoInvalidDates`). */
  function TimeValue(time: (int, int, int) -> int, d: CsvDate): (t: int)
    ensures d.Civil? ==> t == time(d.year, d.monthIndex, d.day)
    ensures !d.Civil? ==> t == 0
  {
    match d
    case NoDate => 0
    case InvalidDate => 0
    case Civil(y, m, day) => time(y, m, day)
  }

  /** The sort key of a book. */
  function BookTime(time: (int, int, int) -> int): Book -> int {
    b => TimeValue(time, PublicationDate(b))
  }

  /** No book's date is an Invalid Date. Only then is the comparator
      `parseCsvDate(b) - parseCsvDate(a)` a consistent comparator (it never
      returns NaN), so only then does ECMAScript fix the result of the sort. */
  predicate NoInvalidDates(books: seq<Book>) {
    forall i :: 0 <= i < |books| ==> !PublicationDate(books[i]).InvalidDate?
  }

  /** `allBooks.sort((a, b) => parseCsvDate(b[…]) - parseCsvDate(a[…]))`:
      a rearrangement of the rows, and, when no date is invalid, newest first. */
  function SortBooks(books: seq<Book>, time: (int, int, int) -> int): (r: seq<Book>)
    ensures multiset(r) == multiset(books)
    ensures NoInvalidDates(books) ==>
              forall i, j :: 0 <= i < j < |r| ==> BookTime(time)(r[i]) >= BookTime(time)(r[j])
  {
    SortDesc(books, BookTime(time))
  }

  /** Books with the same time value keep their order in the file. */
  lemma SortBooksStable(books: seq<Book>, time: (int, int, int) -> int, t: int)
    requires NoInvalidDates(books)
    ensures Filter(SortBooks(books, time), HasKey(BookTime(time), t))
         == Filter(books, HasKey(BookTime(time), t))
  {
    SortDescStable(books, BookTime(time), t);
  }

  /** A book without a date (`null`, time 0) comes after every book whose
      Date lies after 1 January 1970. */
  lemma UndatedAfterRecent(books: seq<Book>, time: (int, int, int) -> int, i: int, j: int)
    requires NoInvalidDates(books)
    requires 0 <= i < j < |SortBooks(books, time)|
    requires BookTime(time)(SortBooks(books, time)[j]) > 0
    ensures PublicationDate(SortBooks(books, time)[i]).Civil?
  {
    var r := SortBooks(books, time);
    var key := BookTime(time);
    assert key(r[i]) >= key(r[j]);
    assert r[i] in multiset(books);
    var k :| 0 <= k < |books| && books[k] == r[i];
    assert key(r[i]) == TimeValue(time, PublicationDate(r[i]));
  }

  /** `allBooks.slice(0, 5)`. */
  function Featured(sorted: seq<Book>): (f: seq<Book>)
    ensures |f| == (if |sorted| < 5 then |sorted| else 5)
    ensures f == sorted[..|f|]
  {
    if |sorted| <= 5 then sorted else sorted[..5]
  }

  /** The featured books are the first five of the sorted list (or all of it),
      and, when no date is invalid, none of the others is newer than any of them. */
  lemma FeaturedAreNewest(books: seq<Book>, time: (int, int, int) -> int)
    ensures var r := SortBooks(books, time);
            var f := Featured(r);
            |f| == (if |books| < 5 then |books| else 5) && f == r[..|f|] &&
            (NoInvalidDates(books) ==>
               forall i, j :: 0 <= i < |f| <= j < |r| ==> BookTime(time)(f[i]) >= BookTime(time)(r[j]))
  {
    var r := SortBooks(books, time);
    assert |r| == |multiset(r)| == |multiset(books)| == |books|;
  }

  /** The year of every book, `undefined`/NaN as `None`. */
  function BookYears(books: seq<Book>): (ys: seq<Option<int>>)
    ensures |ys| == |books|
    ensures forall i :: 0 <= i < |books| ==> ys[i] == FullYear(PublicationDate(books[i]))
  {
    seq(|books|, i requires 0 <= i < |books| => FullYear(PublicationDate(books[i])))
  }

  /** The options of the year filter: each year of a parsed date once, newest
      first, without the missing ones (and without year 0, which is falsy). */
  function YearOptions(books: seq<Book>): (r: seq<int>)
    ensures StrictlyDesc(r)
    ensures forall y :: y in r <==> y != 0 && exists i :: 0 <= i < |books| && FullYear(PublicationDate(books[i])) == Some(y)
  {
    YearList(BookYears(books))
  }

  /** The value of the year select: "all" or one of the listed years. */
  datatype YearChoice = AllYears | OneYear(year: int)

  function InYear(y: int): Book -> bool {
    b => FullYear(PublicationDate(b)) == Some(y)
  }

  /** The change handler of the year select: every book for "all", else the
      books whose parsed date has the chosen year, in their current order. */
  function FilterByYear(books: seq<Book>, choice: YearChoice): (r: seq<Book>)
    ensures choice == AllYears ==> r == books
    ensures choice.OneYear? ==> forall i :: 0 <= i < |r| ==> FullYear(PublicationDate(r[i])) == Some(choice.year)
  {
    match choice
    case AllYears => books
    case OneYear(y) => Filter(books, InYear(y))
  }

  /** Filtering by a year drops exactly the books of other years (or without a
      date) and keeps the rest, in order. */
  lemma FilterByYearExact(books: seq<Book>, y: int, b: Book)
    ensures multiset(FilterByYear(books, OneYear(y)))[b]
         == if FullYear(PublicationDate(b)) == Some(y) then multiset(books)[b] else 0
    ensures IsSubsequence(FilterByYear(books, OneYear(y)), books)
  {
    FilterMultiset(books, InYear(y), b);
    FilterIsSubsequence(books, InYear(y));
  }
}
