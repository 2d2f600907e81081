/** `parseCsvDate` and `formatDateFr`, identical in `js/main.js` and `js/book.js`:
    a month-first `M/D/Y` reader whose years below 100 get 2000 added. */
module CsvDates {
  import opened Wrappers
  import opened JsText

  /** What `parseCsvDate` returns: `null`, an Invalid Date (some part read as
      NaN), or a Date built as `new Date(year, monthIndex, day)`. */
  datatype CsvDate = NoDate | InvalidDate | Civil(year: int, monthIndex: int, day: int)

  /** `parts[i]` handed to `parseInt`, which turns a missing part (`undefined`)
      into the text "undefined". */
  function Part(parts: seq<string>, i: nat): (p: string)
    ensures i < |parts| ==> p == parts[i]
    ensures i >= |parts| ==> ParseInt(p) == None
  {
    if i < |parts| then parts[i]
    else
      ParseIntUndefined();
      "undefined"
  }

  /** `if (y < 100) y = 2000 + y`. */
  function ExpandYear(y: int): (r: int)
    ensures y >= 100 ==> r == y
    ensures 0 <= y < 100 ==> 2000 <= r < 2100 && r % 100 == y
    ensures y < 0 ==> r == 2000 + y
  {
    if y < 100 then 2000 + y else y
  }

  /** `parseCsvDate(dateStr)`; `None` is an absent column (`undefined`). */
  function ParseCsvDate(dateStr: Option<string>): (r: CsvDate)
    ensures r == NoDate <==> dateStr == None || dateStr == Some("")
  {
    if dateStr.None? || dateStr.value == "" then NoDate
    else
      var parts := Split(dateStr.value, '/');
      var m := ParseInt(Part(parts, 0));
      var d := ParseInt(Part(parts, 1));
      var y := ParseInt(Part(parts, 2));
      if m.None? || d.None? || y.None? then InvalidDate
      else Civil(ExpandYear(y.value), m.value - 1, d.value)
  }

  lemma NoSlashInIntToString(n: int)
    ensures '/' !in IntToString(n)
  {
    var s := IntToString(n);
    if n < 0 {
      assert forall i :: 1 <= i < |s| ==> s[i] == NatToString(Magnitude(n))[i - 1];
    }
  }

  /** A month-first numeric date reads month, day and year in that order; the
      month is passed 0-based, and every year below 100 (negative ones too)
      gets 2000 added, with no pivot. Text after the year's digits that holds
      no further slash (a time of day, say) is ignored. */
  lemma ParseNumericDate(m: int, d: int, y: int, rest: string)
    requires '/' !in rest && (rest == [] || !IsDigit(rest[0]))
    ensures ParseCsvDate(Some(IntToString(m) + "/" + IntToString(d) + "/" + IntToString(y) + rest))
         == Civil(if y < 100 then 2000 + y else y, m - 1, d)
  {
    var a, b, c := IntToString(m), IntToString(d), IntToString(y) + rest;
    NoSlashInIntToString(m);
    NoSlashInIntToString(d);
    NoSlashInIntToString(y);
    SplitThree(a, b, IntToString(y), rest);
    ParseIntIntToString(m);
    ParseIntIntToString(d);
    ParseIntOfIntToString(y, rest);
    ParseThreeParts(a + "/" + b + "/" + IntToString(y) + rest, a, b, c, m, d, y);
  }

  lemma ParseThreeParts(s: string, a: string, b: string, c: string, m: int, d: int, y: int)
    requires s != "" && Split(s, '/') == [a, b, c]
    requires ParseInt(a) == Some(m) && ParseInt(b) == Some(d) && ParseInt(c) == Some(y)
    ensures ParseCsvDate(Some(s)) == Civil(ExpandYear(y), m - 1, d)
  {
  }

  lemma JoinThree(a: string, b: string, c: string)
    ensures Join([a, b, c], '/') == a + "/" + (b + "/" + c)
  {
    assert [a, b, c][1..] == [b, c] && [b, c][1..] == [c];
    assert Join([c], '/') == c;
    assert Join([b, c], '/') == b + "/" + c;
  }

  lemma SplitThree(a: string, b: string, y: string, rest: string)
    requires '/' !in a && '/' !in b && '/' !in y + rest
    ensures Split(a + "/" + b + "/" + y + rest, '/') == [a, b, y + rest]
  {
    var parts := [a, b, y + rest];
    SplitJoin(parts, '/');
    JoinThree(a, b, y + rest);
    assert a + "/" + (b + "/" + (y + rest)) == a + "/" + b + "/" + y + rest;
  }

  /** For non-empty text: the result is an Invalid Date exactly when the month,
      the day or the year part (a missing part included) is not a number, and
      otherwise the Date built from the three numbers. */
  lemma ParseCsvDateParts(s: string)
    requires s != ""
    ensures var parts := Split(s, '/');
            var m, d, y := ParseInt(Part(parts, 0)), ParseInt(Part(parts, 1)), ParseInt(Part(parts, 2));
            (ParseCsvDate(Some(s)) == InvalidDate <==> m.None? || d.None? || y.None?) &&
            (m.Some? && d.Some? && y.Some? ==>
               ParseCsvDate(Some(s)) == Civil(ExpandYear(y.value), m.value - 1, d.value))
  {
  }

  /** A day that is not a number makes the Date invalid (`new Date(2020, 2, NaN)`). */
  lemma DayNotANumberIsInvalid()
    ensures ParseCsvDate(Some("3/x/2020")) == InvalidDate
  {
    SplitThree("3", "x", "2020", []);
    assert "3" + "/" + "x" + "/" + "2020" + [] == "3/x/2020";
    ParseIntNoDigits("x");
  }

  /** A non-empty date without any slash, such as the ISO form `2024-3-5`, has
      no day or year part and gives an Invalid Date. */
  lemma NoSlashIsInvalid(s: string)
    requires s != [] && '/' !in s
    ensures ParseCsvDate(Some(s)) == InvalidDate
  {
    SplitNoSep(s, '/', []);
    assert s + [] == s;
    assert Split([], '/') == [""];
    ParseIntNoDigits("undefined");
  }

  /** `3/5/75` is 5 March 2075: no pivot at 70. */
  lemma SeventyFiveIsTwentySeventyFive()
    ensures ParseCsvDate(Some("3/5/75")) == Civil(2075, 2, 5)
  {
    SmallNumerals();
    ParseNumericDate(3, 5, 75, []);
    ThreeFiveSeventyFive();
  }

  lemma SmallNumerals()
    ensures IntToString(3) == "3" && IntToString(5) == "5" && IntToString(75) == "75"
  {
    assert NatToString(75) == NatToString(7) + [DigitChar(5)];
  }

  lemma ThreeFiveSeventyFive()
    ensures "3" + "/" + "5" + "/" + "75" + [] == "3/5/75"
  {
  }

  /** The ISO form `2024-3-5` is not recognised. */
  lemma IsoDateIsInvalid()
    ensures ParseCsvDate(Some("2024-3-5")) == InvalidDate
  {
    NoSlashIsInvalid("2024-3-5");
  }

  /** What `formatDateFr` hands to `toLocaleDateString('fr-FR', …)`: nothing
      (it returns `''`) for a null or Invalid Date, else the date itself. */
  function FormatDateFr(dateStr: Option<string>): (r: Option<CsvDate>)
    ensures r.None? <==> dateStr == None || dateStr == Some("") || ParseCsvDate(dateStr) == InvalidDate
    ensures r.Some? ==> r.value.Civil? && r.value == ParseCsvDate(dateStr)
  {
    var d := ParseCsvDate(dateStr);
    if d.Civil? then Some(d) else None
  }

  /** `parseCsvDate(s)?.getFullYear()`: `undefined` for null, NaN for an
      Invalid Date (both `None`), else the year the Date was built with. */
  function FullYear(d: CsvDate): (r: Option<int>)
    ensures r.Some? <==> d.Civil?
    ensures r.Some? ==> r.value == d.year
  {
    if d.Civil? then Some(d.year) else None
  }
}
