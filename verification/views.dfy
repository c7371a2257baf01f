/**
 The dashboard's derived views of the loaded records: the filtered table,
 its sorted order, the summary statistics, and the series behind the three
 charts; and the sort toggle of the column headers. Before a file is loaded
 there are no records, which is the empty sequence here.
 */
module Views {
  import opened Wrappers
  import opened Strings
  import opened Seqs
  import opened Dataset
  import opened Grouping

  /* ---------------------------------------------------------------------- */
  /* filteredData                                                           */
  /* ---------------------------------------------------------------------- */

  /** The four filter inputs; an empty one filters nothing. */
  datatype Filters = Filters(company: string, status: string, startDate: string, endDate: string)

  const NoFilters := Filters("", "", "", "")

  /**
   The record passes every non-empty filter. A missing Date compares false
   against either bound (`undefined < s` and `undefined > s` are both false),
   so it passes both date filters.
   */
  predicate Keep(f: Filters, m: Record) {
    && (f.company == "" || CompanyOf(m) == Some(f.company))
    && (f.status == "" || StatusOf(m) == Some(f.status))
    && (f.startDate == "" || DateOf(m).None? || !StrLt(DateOf(m).value, f.startDate))
    && (f.endDate == "" || DateOf(m).None? || !StrLt(f.endDate, DateOf(m).value))
  }

  function Keeps(f: Filters): Record -> bool {
    m => Keep(f, m)
  }

  /** `filteredData`. */
  function FilteredView(data: seq<Record>, f: Filters): (r: seq<Record>)
    ensures |r| <= |data|
    ensures forall m <- r :: Keep(f, m)
  {
    Filter(Keeps(f), data)
  }

  /**
   The view is the records that pass, each as often as in the data, in the
   order of the data; with no filter set it is the data itself.
   */
  lemma FilteredViewSpec(data: seq<Record>, f: Filters)
    ensures IsSubsequence(FilteredView(data, f), data)
    ensures forall m <- data :: Keep(f, m) ==> multiset(FilteredView(data, f))[m] == multiset(data)[m]
    ensures forall m <- data :: m in FilteredView(data, f) <==> Keep(f, m)
    ensures f == NoFilters ==> FilteredView(data, f) == data
  {
    FilterIsSubsequence(Keeps(f), data);
    FilterMultiset(Keeps(f), data);
    if f == NoFilters {
      FilterKeepsAll(Keeps(f), data);
    }
  }

  /** Setting one more filter never adds a record. */
  lemma FilterNarrows(data: seq<Record>, f: Filters, g: Filters)
    requires forall m: Record :: Keep(g, m) ==> Keep(f, m)
    ensures multiset(FilteredView(data, g)) <= multiset(FilteredView(data, f))
  {
    var kf, kg := FilteredView(data, f), FilteredView(data, g);
    FilterMultiset(Keeps(f), data);
    FilterMultiset(Keeps(g), data);
    forall m ensures multiset(kg)[m] <= multiset(kf)[m] {
      if m in kg {
        assert m in multiset(data);
        assert Keep(f, m);
      }
    }
  }

  /* ---------------------------------------------------------------------- */
  /* handleSort, sortedData                                                 */
  /* ---------------------------------------------------------------------- */

  datatype Direction = Asc | Desc

  /** The column the table is sorted by (none at first) and the direction. */
  datatype SortConfig = SortConfig(key: Option<string>, direction: Direction)

  /** The table's state before any click: no column, ascending. */
  const InitialSort := SortConfig(None, Asc)

  /** `handleSort(key)`: a click on the sorted column flips ascending to descending; any other click sorts ascending. */
  function ToggleSort(prev: SortConfig, key: string): (next: SortConfig)
    ensures next.key == Some(key)
  {
    SortConfig(Some(key), if prev.key == Some(key) && prev.direction == Asc then Desc else Asc)
  }

  /**
   Descending comes only from a second click on a column sorted ascending;
   clicking the same column again and again alternates the direction.
   */
  lemma ToggleSortSpec(prev: SortConfig, key: string)
    ensures ToggleSort(prev, key).direction == Desc <==> prev == SortConfig(Some(key), Asc)
    ensures ToggleSort(ToggleSort(prev, key), key).direction != ToggleSort(prev, key).direction
    ensures ToggleSort(ToggleSort(ToggleSort(prev, key), key), key) == ToggleSort(prev, key)
  {
  }

  /** The cell a record is sorted by; every parsed record has every column or none. */
  function SortKey(m: Record, key: string): string {
    Field(m, key).GetOr("")
  }

  /** The comparator, as the strict order it induces for the direction. */
  function Before(key: string, dir: Direction): (Record, Record) -> bool {
    (a, b) => if dir == Asc then StrLt(SortKey(a, key), SortKey(b, key)) else StrLt(SortKey(b, key), SortKey(a, key))
  }

  /** `sortedData`: the filtered records, sorted when a column is chosen. */
  function SortedView(rows: seq<Record>, cfg: SortConfig): seq<Record> {
    if cfg.key.None? || cfg.key.value == "" then rows
    else SortBy(rows, Before(cfg.key.value, cfg.direction))
  }

  lemma BeforeStrictOrder(key: string, dir: Direction)
    ensures StrictOrder(Before(key, dir))
  {
    var lt := Before(key, dir);
    forall a: Record ensures !lt(a, a) {
      StrLtIrreflexive(SortKey(a, key));
    }
    forall a: Record, b: Record, c: Record | lt(a, b) && lt(b, c) ensures lt(a, c) {
      if dir == Asc {
        StrLtTransitive(SortKey(a, key), SortKey(b, key), SortKey(c, key));
      } else {
        StrLtTransitive(SortKey(c, key), SortKey(b, key), SortKey(a, key));
      }
    }
  }

  /**
   With no column chosen the rows are shown as they are. Otherwise they are
   rearranged, never changed, into non-decreasing (ascending) or
   non-increasing (descending) order of the column.
   */
  lemma SortedViewSpec(rows: seq<Record>, cfg: SortConfig)
    ensures cfg.key.None? || cfg.key == Some("") ==> SortedView(rows, cfg) == rows
    ensures SortedView(rows, InitialSort) == rows
    ensures multiset(SortedView(rows, cfg)) == multiset(rows)
    ensures cfg.key.Some? && cfg.key.value != "" ==>
      var r, k := SortedView(rows, cfg), cfg.key.value;
      forall i, j :: 0 <= i < j < |r| ==>
        if cfg.direction == Asc then StrLe(SortKey(r[i], k), SortKey(r[j], k))
        else StrLe(SortKey(r[j], k), SortKey(r[i], k))
  {
    if cfg.key.Some? && cfg.key.value != "" {
      var k, dir := cfg.key.value, cfg.direction;
      var r := SortedView(rows, cfg);
      BeforeStrictOrder(k, dir);
      SortBySorted(rows, Before(k, dir));
      forall i, j | 0 <= i < j < |r|
        ensures if dir == Asc then StrLe(SortKey(r[i], k), SortKey(r[j], k))
                else StrLe(SortKey(r[j], k), SortKey(r[i], k))
      {
        assert !Before(k, dir)(r[j], r[i]);
        if dir == Asc {
          NotLtIsLe(SortKey(r[i], k), SortKey(r[j], k));
        } else {
          NotLtIsLe(SortKey(r[j], k), SortKey(r[i], k));
        }
      }
    }
  }

  /** Rows with equal cells in the sort column keep their relative order. */
  lemma SortedViewStable(rows: seq<Record>, cfg: SortConfig, v: string)
    requires cfg.key.Some?
    ensures var k := cfg.key.value;
      Filter(HasSortKey(k, v), SortedView(rows, cfg)) == Filter(HasSortKey(k, v), rows)
  {
    var k := cfg.key.value;
    if k != "" {
      var p := HasSortKey(k, v);
      BeforeStrictOrder(k, cfg.direction);
      forall a, b | p(a) && p(b) ensures !Before(k, cfg.direction)(a, b) {
        StrLtIrreflexive(v);
      }
      SortByKeepsClassOrder(rows, Before(k, cfg.direction), p);
    }
  }

  function HasSortKey(key: string, v: string): Record -> bool {
    m => SortKey(m, key) == v
  }

  /* ---------------------------------------------------------------------- */
  /* stats                                                                  */
  /* ---------------------------------------------------------------------- */

  /** The summary cards: the number of rows and the percentage `100 * successes / rows`. */
  datatype Stats = Stats(total: nat, successNum: nat, successDen: nat)

  /** `stats`: nothing for an empty view. */
  function StatsOf(rows: seq<Record>): (s: Option<Stats>)
    ensures s.None? <==> rows == []
    ensures s.Some? ==> s.value.total == s.value.successDen == |rows| && s.value.successNum <= 100 * |rows|
  {
    if |rows| == 0 then None
    else Some(Stats(|rows|, 100 * |Having(rows, "MissionStatus", "Success")|, |rows|))
  }

  /** The rate counts the rows whose status is Success. */
  lemma StatsSuccessCount(rows: seq<Record>)
    requires rows != []
    ensures StatsOf(rows).value.successNum == 100 * multiset(Column(rows, "MissionStatus"))[Some("Success")]
  {
    HavingCount(rows, "MissionStatus", "Success");
  }

  /* ---------------------------------------------------------------------- */
  /* missionsByYear (line chart)                                            */
  /* ---------------------------------------------------------------------- */

  /** A Date that is present and not empty. */
  predicate HasDate(m: Record) {
    DateOf(m).Some? && DateOf(m).value != ""
  }

  /** The year prefix of each record with a Date, in order. */
  function YearKeys(rows: seq<Record>): seq<string> {
    if rows == [] then []
    else
      var d := DateOf(rows[0]).GetOr("");
      (if HasDate(rows[0]) then [YearPrefix(d)] else []) + YearKeys(rows[1..])
  }

  predicate NameLt(a: Entry, b: Entry) {
    StrLt(a.name, b.name)
  }

  /** The line chart's points: one per year, sorted by year. */
  function YearSeries(rows: seq<Record>): seq<Entry> {
    if |rows| == 0 then [] else SortBy(Group(YearKeys(rows)), NameLt)
  }

  /**
   One point per distinct year prefix among the dated rows, counting the rows
   with that prefix, in strictly increasing order of the year text.
   */
  lemma YearSeriesSpec(rows: seq<Record>)
    ensures var r, keys := YearSeries(rows), YearKeys(rows);
      && |r| == |Elements(keys)|
      && (forall i :: 0 <= i < |r| ==> r[i].name in keys && r[i].count == multiset(keys)[r[i].name])
      && (forall x :: x in keys ==> HasName(r, x))
      && (forall i, j :: 0 <= i < j < |r| ==> StrLt(r[i].name, r[j].name))
  {
    var keys := YearKeys(rows);
    if rows != [] {
      var g, r := Group(keys), YearSeries(rows);
      PermutedTally(keys, r);
      assert StrictOrder(NameLt) by {
        forall a: Entry ensures !NameLt(a, a) {
          StrLtIrreflexive(a.name);
        }
        forall a: Entry, b: Entry, c: Entry | NameLt(a, b) && NameLt(b, c) ensures NameLt(a, c) {
          StrLtTransitive(a.name, b.name, c.name);
        }
      }
      SortBySorted(g, NameLt);
      forall i, j | 0 <= i < j < |r| ensures StrLt(r[i].name, r[j].name) {
        StrLtTotal(r[i].name, r[j].name);
      }
    } else {
      assert Elements(keys) == {};
    }
  }

  /** Only dated rows are plotted: the points add up to the number of rows with a Date. */
  lemma {:induction false} YearKeysCount(rows: seq<Record>)
    ensures |YearKeys(rows)| == |Filter(HasDate, rows)|
  {
    if rows != [] {
      YearKeysCount(rows[1..]);
    }
  }

  /* ---------------------------------------------------------------------- */
  /* topCompanies (bar chart), statusData (pie chart)                       */
  /* ---------------------------------------------------------------------- */

  /** The bar chart's order: a larger count first, ties kept in tally order. */
  predicate CountGt(a: Entry, b: Entry) {
    a.count > b.count
  }

  /** `topCompanies`: the ten companies with the most rows. */
  function CompanyBars(rows: seq<Record>): seq<Entry> {
    if |rows| == 0 then [] else Take(CompanyOrder(rows), 10)
  }

  /** The bars in tally order before cutting to ten. */
  function CompanyOrder(rows: seq<Record>): seq<Entry> {
    SortBy(Group(CompanyKeys(rows)), CountGt)
  }

  /** At most ten bars, one per company, each with the company's row count. */
  lemma CompanyBarsContents(rows: seq<Record>)
    ensures var r, keys := CompanyBars(rows), CompanyKeys(rows);
      && |r| == (if |Elements(keys)| < 10 then |Elements(keys)| else 10)
      && DistinctNames(r)
      && (forall i :: 0 <= i < |r| ==> r[i].name in keys && r[i].count == multiset(keys)[r[i].name])
  {
    var keys := CompanyKeys(rows);
    if rows != [] {
      var sorted := CompanyOrder(rows);
      var r := CompanyBars(rows);
      PermutedTally(keys, sorted);
      assert r == Take(sorted, 10);
      forall i, j | 0 <= i < j < |r| ensures r[i].name != r[j].name {
        assert r[i] == sorted[i] && r[j] == sorted[j];
      }
    } else {
      assert Elements(keys) == {};
    }
  }

  /**
   The bars are in non-increasing order of count, and a company left out has
   no more rows than any company shown.
   */
  lemma CompanyBarsOrder(rows: seq<Record>)
    ensures var r, keys := CompanyBars(rows), CompanyKeys(rows);
      && (forall i, j :: 0 <= i < j < |r| ==> r[i].count >= r[j].count)
      && (forall i, x :: 0 <= i < |r| && x in keys && !HasName(r, x) ==> multiset(keys)[x] <= r[i].count)
  {
    var keys := CompanyKeys(rows);
    if rows != [] {
      var sorted := CompanyOrder(rows);
      var r := CompanyBars(rows);
      assert r == Take(sorted, 10);
      CompanyOrderRanks(rows);
      forall i, x | 0 <= i < |r| && x in keys && !HasName(r, x) ensures multiset(keys)[x] <= r[i].count {
        var j :| 0 <= j < |sorted| && sorted[j].name == x && sorted[j].count == multiset(keys)[x];
        assert j >= |r|;
        assert r[i] == sorted[i];
      }
    }
  }

  /** The full tally order: counts never increase, and every company has its bar somewhere. */
  lemma CompanyOrderRanks(rows: seq<Record>)
    ensures var sorted, keys := CompanyOrder(rows), CompanyKeys(rows);
      && (forall i, j :: 0 <= i < j < |sorted| ==> sorted[i].count >= sorted[j].count)
      && (forall x :: x in keys ==>
            exists j :: 0 <= j < |sorted| && sorted[j].name == x && sorted[j].count == multiset(keys)[x])
  {
    var keys := CompanyKeys(rows);
    var sorted := CompanyOrder(rows);
    PermutedTally(keys, sorted);
    assert StrictOrder(CountGt);
    SortBySorted(Group(keys), CountGt);
    forall x | x in keys
      ensures exists j :: 0 <= j < |sorted| && sorted[j].name == x && sorted[j].count == multiset(keys)[x]
    {
      var j :| 0 <= j < |sorted| && sorted[j].name == x;
    }
  }

  /** Companies with equally many rows appear in the order the tally lists them. */
  lemma CompanyBarsStable(rows: seq<Record>, c: nat)
    ensures Filter(CountIs(c), CompanyOrder(rows)) == Filter(CountIs(c), Group(CompanyKeys(rows)))
  {
    var p := CountIs(c);
    assert StrictOrder(CountGt);
    SortByKeepsClassOrder(Group(CompanyKeys(rows)), CountGt, p);
  }

  function CountIs(c: nat): Entry -> bool {
    (e: Entry) => e.count == c
  }

  /** `statusData`: the tally of the rows' statuses, whatever they are. */
  function StatusSlices(rows: seq<Record>): seq<Entry> {
    Group(StatusKeys(rows))
  }

  /** One slice per distinct status, sized by its row count, the sizes adding up to the rows. */
  lemma StatusSlicesSpec(rows: seq<Record>)
    ensures var r, keys := StatusSlices(rows), StatusKeys(rows);
      && |r| == |Elements(keys)|
      && (forall i :: 0 <= i < |r| ==> r[i].name in keys && r[i].count == multiset(keys)[r[i].name])
      && (forall x :: x in keys ==> HasName(r, x))
      && Total(r) == |rows|
  {
    var keys := StatusKeys(rows);
    PermutedTally(keys, Group(keys));
    GroupTotal(keys);
  }
}
