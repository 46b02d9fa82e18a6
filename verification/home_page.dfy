/**
 * The pure helpers of the public dividend page: the per-year amount lookup and
 * the historical (pre-2021) list over the `"YEAR:AMOUNT"` entries of a record's
 * `yearWiseData`, the search-and-sector filter over the fetched records, and
 * the list of distinct sectors for the sector selector.
 */
module HomePage {
  import opened Wrappers
  import opened Text
  import opened Records

  /** `${year}:`, the prefix `getDividendForYear` looks for. */
  function YearKey(year: int): string
  {
    IntToString(year) + ":"
  }

  /** `data.find(d => d.startsWith(key))`, as the index of the entry found. */
  function FindFirst(data: seq<string>, key: string): (r: Option<nat>)
    ensures r.None? ==> forall i :: 0 <= i < |data| ==> !StartsWith(data[i], key)
    ensures r.Some? ==> r.value < |data| && StartsWith(data[r.value], key)
    ensures r.Some? ==> forall i :: 0 <= i < r.value ==> !StartsWith(data[i], key)
  {
    if data == [] then None
    else if StartsWith(data[0], key) then Some(0)
    else
      match FindFirst(data[1..], key)
      case None => None
      case Some(i) => Some(i + 1)
  }

  /** `amount` is what follows `key` in `entry` up to the next colon or the end. */
  predicate AmountAfter(entry: string, key: string, amount: string)
  {
    && StartsWith(entry, key + amount)
    && ':' !in amount
    && (|key + amount| == |entry| || entry[|key + amount|] == ':')
  }

  /** `entry` is the first entry of `data` that starts with `key`. */
  predicate FirstMatch(data: seq<string>, i: int, key: string)
  {
    && 0 <= i < |data|
    && StartsWith(data[i], key)
    && forall j :: 0 <= j < i ==> !StartsWith(data[j], key)
  }

  /**
   * `getDividendForYear(yearWiseData, year)`: the text between the first and the
   * second colon of the first entry starting with `${year}:`, or "-" when no
   * entry does.
   */
  function GetDividendForYear(yearWiseData: seq<string>, year: int): (r: string)
    ensures (forall i :: 0 <= i < |yearWiseData| ==> !StartsWith(yearWiseData[i], YearKey(year))) ==> r == "-"
    ensures forall i :: FirstMatch(yearWiseData, i, YearKey(year)) ==> AmountAfter(yearWiseData[i], YearKey(year), r)
  {
    var key := YearKey(year);
    match FindFirst(yearWiseData, key)
    case None => "-"
    case Some(i) =>
      var entry := yearWiseData[i];
      var rest := entry[|key|..];
      assert entry == IntToString(year) + [':'] + rest;
      SplitAfterHead(IntToString(year), ':', rest);
      var amount := Split(entry, ':')[1];
      assert amount == Split(rest, ':')[0];
      assert entry[..|key + amount|] == key + rest[..|amount|];
      assert forall j :: FirstMatch(yearWiseData, j, key) ==> j == i;
      amount
  }

  /**
   * The `${year}:` prefixes are exact: no text starts with the prefixes of two
   * different years (so year 202 does not match "2023:1.00").
   */
  lemma YearKeysExclusive(entry: string, a: int, b: int)
    requires StartsWith(entry, YearKey(a)) && StartsWith(entry, YearKey(b))
    ensures a == b
  {
    NoColonInIntToString(a);
    NoColonInIntToString(b);
    ColonTerminatedPrefixes(entry, IntToString(a), IntToString(b));
    IntToStringInjective(a, b);
  }

  /** Printed integers hold no colon. */
  lemma NoColonInIntToString(i: int)
    ensures ':' !in IntToString(i)
  {
    var s := IntToString(i);
    forall k | 0 <= k < |s| ensures s[k] != ':' {
      assert k == 0 || IsDigit(s[k]);
    }
  }

  /** If `p + ":"` and a longer `q + ":"` both start `entry`, then `q` has a colon where `p` ends. */
  lemma ColonInLonger(entry: string, p: string, q: string)
    requires |p| < |q|
    requires StartsWith(entry, p + ":") && StartsWith(entry, q + ":")
    ensures q[|p|] == ':'
  {
    assert entry[|p|] == (p + ":")[|p|];
    assert entry[|p|] == (q + ":")[|p|];
  }

  /** Two colon-free texts that each, followed by a colon, start `entry` are the same text. */
  lemma ColonTerminatedPrefixes(entry: string, p: string, q: string)
    requires ':' !in p && ':' !in q
    requires StartsWith(entry, p + ":") && StartsWith(entry, q + ":")
    ensures p == q
  {
    if |p| < |q| {
      ColonInLonger(entry, p, q);
      assert false;
    } else if |q| < |p| {
      ColonInLonger(entry, q, p);
      assert false;
    }
    assert p == (p + ":")[..|p|] == entry[..|p|] == (q + ":")[..|q|] == q;
  }

  /** The concrete case: the amount for 202 in a record that only has 2023 is "-". */
  lemma Year202NotIn2023()
    ensures GetDividendForYear(["2023:1.00"], 202) == "-"
  {
    assert IntToString(2023) == "2023";
    assert StartsWith("2023:1.00", YearKey(2023));
    if StartsWith("2023:1.00", YearKey(202)) {
      YearKeysExclusive("2023:1.00", 202, 2023);
    }
  }

  /** `data.filter(p)`: the elements that satisfy `p`, in their order. */
  function Filter<T(==, !new)>(s: seq<T>, p: T -> bool): (r: seq<T>)
    ensures forall x :: x in r <==> x in s && p(x)
    ensures multiset(r) <= multiset(s)
    ensures forall x :: multiset(r)[x] == if p(x) then multiset(s)[x] else 0
    ensures (forall i :: 0 <= i < |s| ==> p(s[i])) ==> r == s
  {
    if s == [] then []
    else
      var rest := Filter(s[1..], p);
      assert s == [s[0]] + s[1..];
      if p(s[0]) then [s[0]] + rest else rest
  }

  /** Filtering keeps the relative order: it distributes over concatenation. */
  lemma {:induction false} FilterConcat<T(!new)>(a: seq<T>, b: seq<T>, p: T -> bool)
    ensures Filter(a + b, p) == Filter(a, p) + Filter(b, p)
  {
    if a == [] {
      assert a + b == b;
    } else {
      assert (a + b)[0] == a[0];
      assert (a + b)[1..] == a[1..] + b;
      FilterConcat(a[1..], b, p);
    }
  }

  /** `d.split(':')[0]`: the year text of an entry. */
  function YearText(entry: string): (r: string)
    ensures ':' !in r && StartsWith(entry, r)
    ensures |r| == |entry| || entry[|r|] == ':'
  {
    Split(entry, ':')[0]
  }

  /**
   * `parseInt(d.split(':')[0]) < 2021`; an unparsable year (`NaN`) is not
   * historical. An entry written `${y}:...` is historical exactly when `y < 2021`.
   */
  function IsHistorical(entry: string): (r: bool)
    ensures forall y :: StartsWith(entry, YearKey(y)) ==> (r <==> y < 2021)
  {
    YearOfKeyedEntry(entry);
    var year := ParseInt(YearText(entry));
    year.Some? && year.value < 2021
  }

  /** The year text of an entry written `${y}:...` reads back as `y`. */
  lemma YearOfKeyedEntry(entry: string)
    ensures forall y :: StartsWith(entry, YearKey(y)) ==> ParseInt(YearText(entry)) == Some(y)
  {
    forall y | StartsWith(entry, YearKey(y)) ensures ParseInt(YearText(entry)) == Some(y) {
      YearTextOfKey(entry, y);
      ParseIntOfIntToString(y);
    }
  }

  lemma YearTextOfKey(entry: string, y: int)
    requires StartsWith(entry, YearKey(y))
    ensures YearText(entry) == IntToString(y)
  {
    var r, p := YearText(entry), IntToString(y);
    NoColonInIntToString(y);
    assert entry[|p|] == YearKey(y)[|p|] == ':';
    assert |r| == |p|;
    assert r == entry[..|r|] == YearKey(y)[..|p|] == p;
  }

  /** Descending by year text: no entry's year text sorts strictly before a later one's. */
  predicate SortedByYearDesc(s: seq<string>)
  {
    forall i, j :: 0 <= i < j < |s| ==> !LexLess(YearText(s[i]), YearText(s[j]))
  }

  /** Putting `h` before a sorted list keeps it sorted when no year text in it sorts after `h`'s. */
  lemma PrependSorted(h: string, t: seq<string>)
    requires SortedByYearDesc(t)
    requires forall j :: 0 <= j < |t| ==> !LexLess(YearText(h), YearText(t[j]))
    ensures SortedByYearDesc([h] + t)
  {
    var s := [h] + t;
    forall i, j | 0 <= i < j < |s| ensures !LexLess(YearText(s[i]), YearText(s[j])) {
      if i > 0 { assert s[i] == t[i - 1] && s[j] == t[j - 1]; }
      else { assert s[j] == t[j - 1]; }
    }
  }

  /**
   * Inserts `x` into a list sorted by descending year text, before the first
   * entry whose year text does not sort after its own (so after every entry
   * with a later year text, and before every entry with the same one).
   */
  function InsertByYear(x: string, s: seq<string>): (r: seq<string>)
    requires SortedByYearDesc(s)
    ensures SortedByYearDesc(r)
    ensures multiset(r) == multiset(s) + multiset{x}
  {
    if s == [] || !LexLess(YearText(x), YearText(s[0])) then
      InsertFirst(x, s);
      [x] + s
    else
      var rest := InsertByYear(x, s[1..]);
      InsertLater(x, s, rest);
      [s[0]] + rest
  }

  lemma InsertFirst(x: string, s: seq<string>)
    requires SortedByYearDesc(s)
    requires s == [] || !LexLess(YearText(x), YearText(s[0]))
    ensures SortedByYearDesc([x] + s)
  {
    forall j | 0 <= j < |s| ensures !LexLess(YearText(x), YearText(s[j])) {
      if j > 0 { LexNotLessTransitive(YearText(x), YearText(s[0]), YearText(s[j])); }
    }
    PrependSorted(x, s);
  }

  lemma InsertLater(x: string, s: seq<string>, rest: seq<string>)
    requires SortedByYearDesc(s) && s != [] && LexLess(YearText(x), YearText(s[0]))
    requires SortedByYearDesc(rest) && multiset(rest) == multiset(s[1..]) + multiset{x}
    ensures SortedByYearDesc([s[0]] + rest)
    ensures multiset([s[0]] + rest) == multiset(s) + multiset{x}
  {
    assert s == [s[0]] + s[1..];
    forall j | 0 <= j < |rest| ensures !LexLess(YearText(s[0]), YearText(rest[j])) {
      assert rest[j] in multiset(rest);
      if rest[j] == x {
        LexIrreflexive(YearText(x));
        if LexLess(YearText(s[0]), YearText(x)) { LexTransitive(YearText(x), YearText(s[0]), YearText(x)); }
      } else {
        assert rest[j] in multiset(s[1..]);
        var k :| 1 <= k < |s| && s[k] == rest[j];
      }
    }
    PrependSorted(s[0], rest);
  }

  /** The `sort` of `getHistoricalData`: descending by year text, stable. */
  function SortByYearDesc(s: seq<string>): (r: seq<string>)
    ensures SortedByYearDesc(r)
    ensures multiset(r) == multiset(s)
  {
    if s == [] then []
    else
      assert s == [s[0]] + s[1..];
      InsertByYear(s[0], SortByYearDesc(s[1..]))
  }

  /**
   * `getHistoricalData(yearWiseData)`: the entries whose year parses to a number
   * below 2021, each exactly as often as in the input, in descending order of
   * year text.
   */
  function GetHistoricalData(yearWiseData: seq<string>): (r: seq<string>)
    ensures SortedByYearDesc(r)
    ensures multiset(r) == multiset(Filter(yearWiseData, IsHistorical))
    ensures forall e :: e in r <==> e in yearWiseData && IsHistorical(e)
  {
    var r := SortByYearDesc(Filter(yearWiseData, IsHistorical));
    assert forall e :: e in r <==> e in multiset(r);
    r
  }

  /** The entries of `s` whose year text is `year`, in order. */
  function WithYear(s: seq<string>, year: string): seq<string>
  {
    if s == [] then []
    else if YearText(s[0]) == year then [s[0]] + WithYear(s[1..], year)
    else WithYear(s[1..], year)
  }

  lemma {:induction false} InsertByYearStable(x: string, s: seq<string>, year: string)
    requires SortedByYearDesc(s)
    ensures WithYear(InsertByYear(x, s), year)
         == if YearText(x) == year then [x] + WithYear(s, year) else WithYear(s, year)
  {
    if s != [] && LexLess(YearText(x), YearText(s[0])) {
      InsertByYearStable(x, s[1..], year);
      LexIrreflexive(YearText(x));
    }
  }

  lemma {:induction false} SortByYearDescStable(s: seq<string>, year: string)
    ensures WithYear(SortByYearDesc(s), year) == WithYear(s, year)
  {
    if s != [] {
      SortByYearDescStable(s[1..], year);
      InsertByYearStable(s[0], SortByYearDesc(s[1..]), year);
    }
  }

  /**
   * The sort is stable: entries with the same year text come out in the order
   * they had in `yearWiseData`.
   */
  lemma HistoricalDataStable(yearWiseData: seq<string>, year: string)
    ensures WithYear(GetHistoricalData(yearWiseData), year) == WithYear(Filter(yearWiseData, IsHistorical), year)
  {
    SortByYearDescStable(Filter(yearWiseData, IsHistorical), year);
  }

  /**
   * The `filteredDividends` test: the search text occurs, ignoring case, in the
   * company name or the ticker, and the selected sector is "all" or the record's.
   */
  function Matches(d: Dividend, search: string, selectedSector: string): (r: bool)
    ensures search == "" && selectedSector == "all" ==> r
    ensures selectedSector != "all" && d.sector != selectedSector ==> !r
  {
    assert search == "" ==> OccursAt(ToLower(d.companyName), ToLower(search), 0);
    && (Contains(ToLower(d.companyName), ToLower(search)) || Contains(ToLower(d.ticker), ToLower(search)))
    && (selectedSector == "all" || d.sector == selectedSector)
  }

  /** The search is case-insensitive: lower-casing the search text first changes nothing. */
  lemma SearchIgnoresCase(d: Dividend, search: string, selectedSector: string)
    ensures Matches(d, ToLower(search), selectedSector) == Matches(d, search, selectedSector)
  {
    ToLowerIdempotent(search);
  }

  /**
   * `filteredDividends`: nothing while the records are not loaded; otherwise the
   * records that match, in their order. An empty search with sector "all"
   * keeps every record.
   */
  function FilteredDividends(dividends: Option<seq<Dividend>>, search: string, selectedSector: string)
    : (r: Option<seq<Dividend>>)
    ensures r.Some? <==> dividends.Some?
    ensures r.Some? ==> forall d :: d in r.value <==> d in dividends.value && Matches(d, search, selectedSector)
    ensures r.Some? && search == "" && selectedSector == "all" ==> r.value == dividends.value
  {
    if dividends.None? then None
    else
      var ds := dividends.value;
      Some(Filter(ds, d => Matches(d, search, selectedSector)))
  }

  /** The index of the first occurrence of `x` in `s`. */
  function FirstIndex(s: seq<string>, x: string): (i: nat)
    requires x in s
    ensures i < |s| && s[i] == x && forall j :: 0 <= j < i ==> s[j] != x
  {
    if s[0] == x then 0 else 1 + FirstIndex(s[1..], x)
  }

  /**
   * `Array.from(new Set(s))`: each distinct element of `s` once, in the order of
   * its first appearance.
   */
  function Distinct(s: seq<string>): (r: seq<string>)
    ensures forall x :: x in r <==> x in s
    ensures forall i, j :: 0 <= i < j < |r| ==> r[i] != r[j]
    ensures forall i, j :: 0 <= i < j < |r| ==> FirstIndex(s, r[i]) < FirstIndex(s, r[j])
  {
    if s == [] then []
    else
      var init := s[..|s| - 1];
      var last := s[|s| - 1];
      var r := Distinct(init);
      assert s == init + [last];
      FirstIndexSnoc(init, last);
      if last in r then r else r + [last]
  }

  /** Appending an element moves no first occurrence, and the new element, if new, is first found last. */
  lemma FirstIndexSnoc(init: seq<string>, last: string)
    ensures forall x :: x in init ==> FirstIndex(init + [last], x) == FirstIndex(init, x)
    ensures last !in init ==> FirstIndex(init + [last], last) == |init|
  {
    var s := init + [last];
    forall x | x in init ensures FirstIndex(s, x) == FirstIndex(init, x) {
      var k, k' := FirstIndex(s, x), FirstIndex(init, x);
      assert s[k'] == x;
    }
  }

  /** The sector of each record, in order (`dividends.map(d => d.sector)`). */
  function SectorList(ds: seq<Dividend>): (r: seq<string>)
    ensures |r| == |ds| && forall i :: 0 <= i < |ds| ==> r[i] == ds[i].sector
    ensures forall x :: x in r <==> exists d :: d in ds && d.sector == x
  {
    var sectors := seq(|ds|, i requires 0 <= i < |ds| => ds[i].sector);
    assert forall x :: x in sectors <==> exists d :: d in ds && d.sector == x by {
      forall x | x in sectors ensures exists d :: d in ds && d.sector == x {
        var i :| 0 <= i < |sectors| && sectors[i] == x;
        assert ds[i] in ds;
      }
      forall x | (exists d :: d in ds && d.sector == x) ensures x in sectors {
        var d :| d in ds && d.sector == x;
        var i :| 0 <= i < |ds| && ds[i] == d;
        assert sectors[i] == x;
      }
    }
    sectors
  }

  /**
   * `sectors`: no sector while the records are not loaded; otherwise every
   * sector of the records exactly once, in the order of first appearance.
   */
  function Sectors(dividends: Option<seq<Dividend>>): (r: seq<string>)
    ensures dividends.None? ==> r == []
    ensures dividends.Some? ==> forall x :: x in r <==> x in SectorList(dividends.value)
    ensures dividends.Some? ==> forall x :: x in r <==> exists d :: d in dividends.value && d.sector == x
    ensures forall i, j :: 0 <= i < j < |r| ==> r[i] != r[j]
    ensures dividends.Some? ==> forall i, j :: 0 <= i < j < |r| ==>
              FirstIndex(SectorList(dividends.value), r[i]) < FirstIndex(SectorList(dividends.value), r[j])
  {
    if dividends.None? then []
    else
      var ds := dividends.value;
      Distinct(SectorList(ds))
  }
}
