/** The publication list of `js/publications.js`: rows projected to
    publications, sorted newest first, filtered by year and text, grouped by
    year for display, and the year options of the select. */
module Publications {
  import opened Wrappers
  import opened JsText
  import opened Lists
  import Csv

  datatype Publication = Publication(id: string, title: string, outlet: string,
                                     year: Option<int>, reference: string)

  /** `parseIntOrNull(x)`: `null` exactly where `parseInt(x, 10)` is NaN; a
      missing column (`undefined`) is read as the text "undefined". */
  function ParseIntOrNull(x: Option<string>): (r: Option<int>)
    ensures x == None ==> r == None
    ensures x.Some? ==> r == ParseInt(x.value)
  {
    ParseIntUndefined();
    ParseInt(if x.Some? then x.value else "undefined")
  }

  /** A year printed by `String` comes back from `parseIntOrNull`. */
  lemma ParseIntOrNullOfYear(y: int, rest: string)
    requires rest == [] || !IsDigit(rest[0])
    ensures ParseIntOrNull(Some(IntToString(y) + rest)) == Some(y)
  {
    ParseIntOfIntToString(y, rest);
  }

  /** `row[k] || ''`. */
  function Field(row: Csv.Record, k: string): string {
    if k in row then row[k] else ""
  }

  /** The object built for one CSV row. */
  function Project(row: Csv.Record): (p: Publication)
    ensures p.id == (if "ID" in row then row["ID"] else "")
    ensures p.title == (if "Title" in row then row["Title"] else "")
    ensures p.outlet == (if "Outlet" in row then row["Outlet"] else "")
    ensures p.reference == (if "Reference" in row then row["Reference"] else "")
    ensures "Year" !in row ==> p.year == None
    ensures "Year" in row ==> p.year == ParseIntOrNull(Some(row["Year"]))
  {
    Publication(Field(row, "ID"), Field(row, "Title"), Field(row, "Outlet"),
                ParseIntOrNull(if "Year" in row then Some(row["Year"]) else None),
                Field(row, "Reference"))
  }

  /** `results.data.map(row => ({…}))`: one publication per row, in order. */
  function ProjectAll(rows: seq<Csv.Record>): (items: seq<Publication>)
    ensures |items| == |rows|
    ensures forall i :: 0 <= i < |rows| ==> items[i] == Project(rows[i])
  {
    seq(|rows|, i requires 0 <= i < |rows| => Project(rows[i]))
  }

  /** `item.year || 0`. */
  function YearOrZero(p: Publication): (y: int)
    ensures y == 0 <==> p.year.None? || p.year == Some(0)
    ensures p.year.Some? ==> y == p.year.value
  {
    if p.year.Some? then p.year.value else 0
  }

  /** `pubItems.sort((a, b) => (b.year || 0) - (a.year || 0))`. */
  function SortPublications(items: seq<Publication>): (r: seq<Publication>)
    ensures multiset(r) == multiset(items)
    ensures forall i, j :: 0 <= i < j < |r| ==> YearOrZero(r[i]) >= YearOrZero(r[j])
  {
    SortDesc(items, YearOrZero)
  }

  /** Publications of the same year keep their order in the file. */
  lemma SortPublicationsStable(items: seq<Publication>, y: int)
    ensures Filter(SortPublications(items), HasKey(YearOrZero, y)) == Filter(items, HasKey(YearOrZero, y))
  {
    SortDescStable(items, YearOrZero, y);
  }

  /** An undated publication (no year, or year 0) never comes before one with a
      positive year. */
  lemma UndatedLast(items: seq<Publication>, i: int, j: int)
    requires 0 <= i < j < |SortPublications(items)|
    requires SortPublications(items)[j].year.Some? && SortPublications(items)[j].year.value > 0
    ensures SortPublications(items)[i].year.Some? && SortPublications(items)[i].year.value > 0
  {
    var r := SortPublications(items);
    assert YearOrZero(r[i]) >= YearOrZero(r[j]);
  }

  /** `String(item.year)`. */
  function YearString(y: Option<int>): (s: string)
    ensures y.None? ==> s == "null"
    ensures ParseInt(s) == y
  {
    if y.Some? then
      ParseIntIntToString(y.value);
      IntToString(y.value)
    else
      ParseIntNoDigits("null");
      "null"
  }

  /** The search text as `getFilteredItems` reads it: lower-cased, then trimmed. */
  function NormalizeQuery(raw: string): (q: string)
    ensures q == "" <==> AllWhitespace(raw)
    ensures q == [] || (!IsWhitespace(q[0]) && !IsWhitespace(q[|q| - 1]))
    ensures exists k :: TrimmedAt(Lower(raw), q, k)
  {
    LowerWhitespace(raw);
    TrimEmptyIff(Lower(raw));
    Trim(Lower(raw))
  }

  /** The two checks of `getFilteredItems` for one publication. */
  function Matches(p: Publication, yearVal: string, query: string): (b: bool)
    ensures b ==> yearVal == "all" || YearString(p.year) == yearVal
    ensures b ==> query == "" || Contains(Lower(p.title + " " + p.outlet + " " + p.reference), query)
    ensures yearVal == "all" && query == "" ==> b
    ensures ((yearVal == "all" || YearString(p.year) == yearVal) &&
             (query == "" || Contains(Lower(p.title + " " + p.outlet + " " + p.reference), query))) ==> b
  {
    (yearVal == "all" || YearString(p.year) == yearVal) &&
    (query == "" || Contains(Lower(p.title + " " + p.outlet + " " + p.reference), query))
  }

  function MatchesQuery(yearVal: string, query: string): Publication -> bool {
    p => Matches(p, yearVal, query)
  }

  /** `getFilteredItems()` with the select's value and the search box's text. */
  function FilteredItems(items: seq<Publication>, yearVal: string, rawQuery: string): (r: seq<Publication>)
    ensures |r| <= |items|
    ensures forall i :: 0 <= i < |r| ==> Matches(r[i], yearVal, NormalizeQuery(rawQuery))
  {
    Filter(items, MatchesQuery(yearVal, NormalizeQuery(rawQuery)))
  }

  /** An item is kept exactly when it passes both checks, and the kept items stay in order. */
  lemma FilteredItemsExact(items: seq<Publication>, yearVal: string, rawQuery: string, p: Publication)
    ensures multiset(FilteredItems(items, yearVal, rawQuery))[p]
         == if Matches(p, yearVal, NormalizeQuery(rawQuery)) then multiset(items)[p] else 0
    ensures IsSubsequence(FilteredItems(items, yearVal, rawQuery), items)
  {
    FilterMultiset(items, MatchesQuery(yearVal, NormalizeQuery(rawQuery)), p);
    FilterIsSubsequence(items, MatchesQuery(yearVal, NormalizeQuery(rawQuery)));
  }

  /** The year check compares printed years, which picks out exactly that
      year: never an undated item, never another year. */
  lemma YearCheckExact(p: Publication, y: int)
    ensures (YearString(p.year) == IntToString(y)) <==> p.year == Some(y)
  {
    if YearString(p.year) == IntToString(y) {
      if p.year.Some? {
        IntToStringInjective(p.year.value, y);
      } else {
        ParseIntNoDigits("null");
        ParseIntOfIntToString(y, []);
        assert false;
      }
    }
  }

  /** With "all" selected and a blank search box nothing is filtered out. */
  lemma NoFilterKeepsAll(items: seq<Publication>, rawQuery: string)
    requires AllWhitespace(rawQuery)
    ensures FilteredItems(items, "all", rawQuery) == items
  {
    LowerWhitespace(rawQuery);
    TrimEmptyIff(Lower(rawQuery));
    FilterAll(items, MatchesQuery("all", NormalizeQuery(rawQuery)));
  }

  // ----- Grouping by year -----

  /** A key of the groups map: a year, or 'Sans date'. */
  datatype GroupKey = Dated(year: int) | SansDate

  /** `it.year || 'Sans date'`: no year or year 0 is undated. */
  function KeyOf(p: Publication): (k: GroupKey)
    ensures k == SansDate <==> p.year.None? || p.year == Some(0)
    ensures k.Dated? ==> p.year == Some(k.year)
  {
    if p.year.Some? && p.year.value != 0 then Dated(p.year.value) else SansDate
  }

  function InGroup(k: GroupKey): Publication -> bool {
    p => KeyOf(p) == k
  }

  predicate Distinct<T(==)>(xs: seq<T>) {
    forall i, j :: 0 <= i < j < |xs| ==> xs[i] != xs[j]
  }

  /** `groups` holds, for every key of `xs`, the order-preserving non-empty
      sub-list of `xs` with that key, and no other key. */
  ghost predicate GroupedBy(groups: map<GroupKey, seq<Publication>>, xs: seq<Publication>) {
    (forall m :: 0 <= m < |xs| ==> KeyOf(xs[m]) in groups) &&
    (forall k :: k in groups ==> groups[k] != [] && groups[k] == Filter(xs, InGroup(k)))
  }

  /** One turn of the loop: appending `x` to its own group (opening it if
      needed) keeps the groups right for the longer list. */
  lemma GroupStep(groups: map<GroupKey, seq<Publication>>, xs: seq<Publication>, x: Publication,
                  next: map<GroupKey, seq<Publication>>)
    requires GroupedBy(groups, xs)
    requires next == groups[KeyOf(x) := (if KeyOf(x) in groups then groups[KeyOf(x)] else []) + [x]]
    ensures GroupedBy(next, xs + [x])
  {
    var key := KeyOf(x);
    forall m | 0 <= m < |xs + [x]| ensures KeyOf((xs + [x])[m]) in next {
      if m < |xs| {
        assert (xs + [x])[m] == xs[m];
      }
    }
    forall k | k in next ensures next[k] != [] && next[k] == Filter(xs + [x], InGroup(k)) {
      FilterAppend(xs, x, InGroup(k));
      if k == key && key !in groups {
        forall m | 0 <= m < |xs| ensures !InGroup(key)(xs[m]) {
        }
        FilterNone(xs, InGroup(key));
      }
    }
  }

  /** Where key `k` first occurs in `xs` (`|xs|` when it does not). */
  function FirstIndex(xs: seq<Publication>, k: GroupKey): (r: nat)
    ensures r <= |xs|
  {
    if xs == [] then 0
    else if KeyOf(xs[0]) == k then 0
    else FirstIndex(xs[1..], k) + 1
  }

  /** `FirstIndex` is the first occurrence: the key is there, and nowhere before. */
  lemma {:induction false} FirstIndexSpec(xs: seq<Publication>, k: GroupKey)
    ensures FirstIndex(xs, k) < |xs| ==> KeyOf(xs[FirstIndex(xs, k)]) == k
    ensures forall m :: 0 <= m < FirstIndex(xs, k) ==> KeyOf(xs[m]) != k
  {
    if xs != [] && KeyOf(xs[0]) != k {
      FirstIndexSpec(xs[1..], k);
      assert forall m :: 1 <= m < FirstIndex(xs, k) ==> xs[m] == xs[1..][m - 1];
    }
  }

  /** The first occurrence of a key is where it occurs with no earlier occurrence. */
  lemma FirstIndexAt(xs: seq<Publication>, k: GroupKey, i: int)
    requires 0 <= i < |xs| && KeyOf(xs[i]) == k
    requires forall m :: 0 <= m < i ==> KeyOf(xs[m]) != k
    ensures FirstIndex(xs, k) == i
  {
    FirstIndexSpec(xs, k);
  }

  /** The keys of `order` occur in `items` before position `i`, and in the
      order of their first occurrences. */
  ghost predicate FirstOrder(items: seq<Publication>, order: seq<GroupKey>, i: nat) {
    (forall a :: 0 <= a < |order| ==> FirstIndex(items, order[a]) < i) &&
    (forall a, b :: 0 <= a < b < |order| ==> FirstIndex(items, order[a]) < FirstIndex(items, order[b]))
  }

  /** A key not yet grouped first occurs at the item being visited. */
  lemma NewKeyFirst(items: seq<Publication>, i: nat, groups: map<GroupKey, seq<Publication>>)
    requires i < |items| && GroupedBy(groups, items[..i]) && KeyOf(items[i]) !in groups
    ensures FirstIndex(items, KeyOf(items[i])) == i
  {
    forall m | 0 <= m < i ensures KeyOf(items[m]) != KeyOf(items[i]) {
      assert items[..i][m] == items[m];
    }
    FirstIndexAt(items, KeyOf(items[i]), i);
  }

  /** Appending a key that first occurs at `i` keeps the keys ordered by first
      occurrence, all of them before `i + 1`. */
  lemma OrderStep(items: seq<Publication>, order: seq<GroupKey>, key: GroupKey, i: nat)
    requires FirstOrder(items, order, i) && FirstIndex(items, key) == i
    ensures FirstOrder(items, order + [key], i + 1)
  {
    var o := order + [key];
    assert forall a :: 0 <= a < |order| ==> o[a] == order[a];
    assert o[|order|] == key;
  }

  lemma OrderKeep(items: seq<Publication>, order: seq<GroupKey>, i: nat)
    requires FirstOrder(items, order, i)
    ensures FirstOrder(items, order, i + 1)
  {
  }

  /** What the loop keeps after visiting `items[..i]`: `order` lists the keys
      of `groups` once each, in the order of their first occurrence, and the
      groups are those of `items[..i]`. */
  ghost predicate Grouping(items: seq<Publication>, i: nat, groups: map<GroupKey, seq<Publication>>, order: seq<GroupKey>)
    requires i <= |items|
  {
    Distinct(order) && (forall k :: k in groups <==> k in order) &&
    FirstOrder(items, order, i) && GroupedBy(groups, items[..i])
  }

  /** One turn of the loop keeps `Grouping`. */
  lemma GroupingStep(items: seq<Publication>, i: nat, groups: map<GroupKey, seq<Publication>>, order: seq<GroupKey>,
                     groups': map<GroupKey, seq<Publication>>, order': seq<GroupKey>)
    requires i < |items| && Grouping(items, i, groups, order)
    requires groups' == groups[KeyOf(items[i]) := (if KeyOf(items[i]) in groups then groups[KeyOf(items[i])] else []) + [items[i]]]
    requires order' == if KeyOf(items[i]) in groups then order else order + [KeyOf(items[i])]
    ensures Grouping(items, i + 1, groups', order')
  {
    var it := items[i];
    var key := KeyOf(it);
    if key in groups {
      OrderKeep(items, order, i);
    } else {
      NewKeyFirst(items, i, groups);
      OrderStep(items, order, key, i);
      assert forall a :: 0 <= a < |order| ==> order'[a] == order[a];
      assert order'[|order|] == key;
    }
    assert items[..i + 1] == items[..i] + [it];
    GroupStep(groups, items[..i], it, groups');
  }

  /** The `forEach` loop of `renderPublications` filling the `Map` of groups;
      `order` is the Map's key order (first appearance). Every group is the
      order-preserving sub-list of the items with its key, and none is empty. */
  method GroupByYear(items: seq<Publication>) returns (groups: map<GroupKey, seq<Publication>>, order: seq<GroupKey>)
    ensures Distinct(order)
    ensures forall k :: k in groups <==> k in order
    ensures forall a, b :: 0 <= a < b < |order| ==> FirstIndex(items, order[a]) < FirstIndex(items, order[b])
    ensures forall i :: 0 <= i < |items| ==> KeyOf(items[i]) in groups
    ensures forall k :: k in groups ==> groups[k] != [] && groups[k] == Filter(items, InGroup(k))
  {
    groups := map[];
    order := [];
    for i := 0 to |items|
      invariant Grouping(items, i, groups, order)
    {
      var it := items[i];
      var key := KeyOf(it);
      ghost var before, keys := groups, order;
      if key !in groups {
        assert [] + [it] == [it];
        groups := groups[key := [it]];
        order := order + [key];
      } else {
        groups := groups[key := groups[key] + [it]];
      }
      GroupingStep(items, i, before, keys, groups, order);
    }
    assert items[..|items|] == items;
  }

  /** Each publication appears in the group of its own key as often as in the
      list, and in no other group. */
  lemma GroupsPartition(items: seq<Publication>, groups: map<GroupKey, seq<Publication>>, p: Publication, k: GroupKey)
    requires forall k :: k in groups ==> groups[k] == Filter(items, InGroup(k))
    requires k in groups
    ensures multiset(groups[k])[p] == if KeyOf(p) == k then multiset(items)[p] else 0
  {
    FilterMultiset(items, InGroup(k), p);
  }

  function DatedYears(keys: seq<GroupKey>): (ys: seq<Option<int>>)
    ensures |ys| == |keys|
  {
    seq(|keys|, i requires 0 <= i < |keys| => if keys[i].Dated? then Some(keys[i].year) else None)
  }

  /** The years of `keys` that are dated and not 0, each once, newest first. */
  lemma YearsOfKeys(keys: seq<GroupKey>)
    requires forall i :: 0 <= i < |keys| && keys[i].Dated? ==> keys[i].year != 0
    ensures forall y :: y in YearList(DatedYears(keys)) <==> Dated(y) in keys
  {
    var ds := DatedYears(keys);
    forall y ensures y in YearList(ds) <==> Dated(y) in keys {
      if Dated(y) in keys {
        var i :| 0 <= i < |keys| && keys[i] == Dated(y);
        assert ds[i] == Some(y);
      }
      if y != 0 && Some(y) in ds {
        var i :| 0 <= i < |keys| && ds[i] == Some(y);
        assert keys[i] == Dated(y);
      }
    }
  }

  /** The dated keys of the years `ys`, in the same order. */
  function DatedKeys(ys: seq<int>): (d: seq<GroupKey>)
    ensures |d| == |ys| && forall i :: 0 <= i < |ys| ==> d[i] == Dated(ys[i])
    ensures forall k :: k in d <==> k.Dated? && k.year in ys
  {
    if ys == [] then [] else [Dated(ys[0])] + DatedKeys(ys[1..])
  }

  lemma KeysMembership(ys: seq<int>, keys: seq<GroupKey>, tail: seq<GroupKey>)
    requires forall y :: y in ys <==> Dated(y) in keys
    requires tail == if SansDate in keys then [SansDate] else []
    ensures forall k :: k in DatedKeys(ys) + tail <==> k in keys
  {
    var d := DatedKeys(ys);
    KeysMembers(d, tail, d + tail);
    forall k ensures k in d + tail <==> k in keys {
      if k.Dated? {
        assert k == Dated(k.year) && k !in tail;
        assert k in d <==> k.year in ys;
      } else {
        assert k == SansDate && k !in d;
      }
    }
  }

  lemma KeysOrder(ys: seq<int>, tail: seq<GroupKey>)
    requires StrictlyDesc(ys)
    requires tail == [] || tail == [SansDate]
    ensures Distinct(DatedKeys(ys) + tail)
    ensures forall i, j :: 0 <= i < j < |DatedKeys(ys) + tail| && (DatedKeys(ys) + tail)[j].Dated? ==>
              (DatedKeys(ys) + tail)[i].Dated? && (DatedKeys(ys) + tail)[i].year > (DatedKeys(ys) + tail)[j].year
  {
    var r := DatedKeys(ys) + tail;
    KeysAt(ys, tail, r);
    forall i, j | 0 <= i < j < |r| ensures r[i] != r[j] {
      KeysPair(ys, tail, r, i, j);
    }
    forall i, j | 0 <= i < j < |r| && r[j].Dated? ensures r[i].Dated? && r[i].year > r[j].year {
      KeysPair(ys, tail, r, i, j);
    }
  }

  lemma KeysMembers(d: seq<GroupKey>, tail: seq<GroupKey>, r: seq<GroupKey>)
    requires r == d + tail
    ensures forall k :: k in r <==> k in d || k in tail
  {
  }

  lemma KeysAt(ys: seq<int>, tail: seq<GroupKey>, r: seq<GroupKey>)
    requires tail == [] || tail == [SansDate]
    requires r == DatedKeys(ys) + tail
    ensures |r| == |ys| + |tail|
    ensures forall i :: 0 <= i < |ys| ==> r[i] == Dated(ys[i])
    ensures forall i :: |ys| <= i < |r| ==> r[i] == SansDate
  {
  }

  lemma KeysPair(ys: seq<int>, tail: seq<GroupKey>, r: seq<GroupKey>, i: int, j: int)
    requires StrictlyDesc(ys)
    requires |r| == |ys| + |tail| && |tail| <= 1
    requires forall i :: 0 <= i < |ys| ==> r[i] == Dated(ys[i])
    requires forall i :: |ys| <= i < |r| ==> r[i] == SansDate
    requires 0 <= i < j < |r|
    ensures r[i] != r[j]
    ensures r[j].Dated? ==> r[i].Dated? && r[i].year > r[j].year
  {
    assert r[i] == Dated(ys[i]);
  }

  /** `Array.from(groups.keys()).sort(…)` with the comparator that puts
      'Sans date' last and years in decreasing order: the years newest first,
      then 'Sans date' if present. */
  function SortedGroupKeys(keys: seq<GroupKey>): (r: seq<GroupKey>)
    requires forall i :: 0 <= i < |keys| && keys[i].Dated? ==> keys[i].year != 0
    ensures forall k :: k in r <==> k in keys
    ensures Distinct(r)
    ensures forall i, j :: 0 <= i < j < |r| && r[j].Dated? ==> r[i].Dated? && r[i].year > r[j].year
  {
    var ys := YearList(DatedYears(keys));
    YearsOfKeys(keys);
    var tail := if SansDate in keys then [SansDate] else [];
    KeysMembership(ys, keys, tail);
    KeysOrder(ys, tail);
    DatedKeys(ys) + tail
  }

  /** `populateYearFilter`: every non-zero year of the publications once, newest first. */
  function YearOptions(items: seq<Publication>): (r: seq<int>)
    ensures StrictlyDesc(r)
    ensures forall y :: y in r <==> y != 0 && exists i :: 0 <= i < |items| && items[i].year == Some(y)
  {
    var ys := seq(|items|, i requires 0 <= i < |items| => items[i].year);
    assert forall y :: Some(y) in ys <==> exists i :: 0 <= i < |items| && items[i].year == Some(y) by {
      forall y ensures Some(y) in ys <==> exists i :: 0 <= i < |items| && items[i].year == Some(y) {
        if exists i :: 0 <= i < |items| && items[i].year == Some(y) {
          var i :| 0 <= i < |items| && items[i].year == Some(y);
          assert ys[i] == Some(y);
        }
      }
    }
    YearList(ys)
  }
}
