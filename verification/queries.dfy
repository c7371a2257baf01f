/**
 The eight query functions of src/App.js over the loaded records. Each first
 checks its arguments and answers a neutral value (0, an empty list, an empty
 string, an all-zero tally) when they do not qualify. Rates and averages are
 kept as an exact numerator over a denominator; the two-decimal rounding of
 the source is not modelled.
 */
module Queries {
  import opened Wrappers
  import opened Strings
  import opened Seqs
  import opened Dataset
  import opened Grouping

  /** A quotient `num / den`, with `den >= 1` wherever one is returned. */
  datatype Ratio = Ratio(num: nat, den: nat)

  /** The `0.0` the guards return. */
  const Zero := Ratio(0, 1)

  /* ---------------------------------------------------------------------- */
  /* getMissionCountByCompany, getSuccessRate                               */
  /* ---------------------------------------------------------------------- */

  /** The name is usable: `companyName.trim()` is not empty. */
  predicate Usable(name: string) {
    Trim(name) != ""
  }

  /** `getMissionCountByCompany(companyName)`. */
  function MissionCount(data: seq<Record>, company: string): (n: nat)
    ensures n <= |data|
  {
    if |data| == 0 then 0
    else if !Usable(company) then 0
    else |Having(data, "Company", company)|
  }

  /**
   The count is zero for no data or a blank name, and otherwise the number of
   records whose Company is exactly the name.
   */
  lemma MissionCountSpec(data: seq<Record>, company: string)
    ensures IsBlank(company) ==> MissionCount(data, company) == 0
    ensures !IsBlank(company) ==>
      MissionCount(data, company) == multiset(Column(data, "Company"))[Some(company)]
  {
    TrimBlank(company);
    HavingCount(data, "Company", company);
  }

  /** `getSuccessRate(companyName)` as a percentage `100 * successes / missions`. */
  function SuccessRate(data: seq<Record>, company: string): (r: Ratio)
    ensures r.den >= 1
    ensures r.num <= 100 * r.den
    ensures MissionCount(data, company) == 0 ==> r == Zero
    ensures MissionCount(data, company) > 0 ==> r.den == MissionCount(data, company)
  {
    if |data| == 0 || !Usable(company) then Zero
    else
      var missions := Having(data, "Company", company);
      if |missions| == 0 then Zero
      else Ratio(100 * |Having(missions, "MissionStatus", "Success")|, |missions|)
  }

  /** A record of the company that succeeded. */
  predicate SucceededFor(m: Record, company: string) {
    CompanyOf(m) == Some(company) && StatusOf(m) == Some("Success")
  }

  function Succeeded(company: string): Record -> bool {
    m => SucceededFor(m, company)
  }

  /**
   Whenever the company has missions, the numerator is 100 times the number of
   records that belong to the company and succeeded.
   */
  lemma SuccessRateSuccesses(data: seq<Record>, company: string)
    requires MissionCount(data, company) > 0
    ensures SuccessRate(data, company).num == 100 * |Filter(Succeeded(company), data)|
  {
    FilterOfFilter(Matches("Company", company), Matches("MissionStatus", "Success"), Succeeded(company), data);
  }

  /** The rate is zero exactly when none of the company's missions succeeded. */
  lemma SuccessRateZero(data: seq<Record>, company: string)
    requires MissionCount(data, company) > 0
    ensures SuccessRate(data, company).num == 0 <==> forall m <- data :: !SucceededFor(m, company)
  {
    var missions := Having(data, "Company", company);
    var win := Matches("MissionStatus", "Success");
    FilterMultiset(Matches("Company", company), data);
    if forall m <- data :: !SucceededFor(m, company) {
      forall i | 0 <= i < |missions| ensures !win(missions[i]) {
        var m := missions[i];
        assert m in multiset(missions);
        assert m in data;
        assert CompanyOf(m) == Some(company) && !SucceededFor(m, company);
      }
      FilterNone(win, missions);
    } else {
      var m :| m in data && SucceededFor(m, company);
      assert m in missions;
      FilterMultiset(win, missions);
      assert m in Filter(win, missions);
    }
  }

  /** The rate is 100% exactly when every one of the company's missions succeeded. */
  lemma SuccessRateFull(data: seq<Record>, company: string)
    requires MissionCount(data, company) > 0
    ensures SuccessRate(data, company).num == 100 * SuccessRate(data, company).den <==>
      forall m <- data :: CompanyOf(m) == Some(company) ==> StatusOf(m) == Some("Success")
  {
    var missions := Having(data, "Company", company);
    var win := Matches("MissionStatus", "Success");
    FilterMultiset(Matches("Company", company), data);
    if forall m <- data :: CompanyOf(m) == Some(company) ==> StatusOf(m) == Some("Success") {
      forall m <- missions ensures win(m) {
        assert m in multiset(missions);
        assert m in data;
        assert CompanyOf(m) == Some(company);
      }
      FilterKeepsAll(win, missions);
    } else {
      var m :| m in data && CompanyOf(m) == Some(company) && StatusOf(m) != Some("Success");
      assert m in missions;
      FilterDropsOne(win, missions, m);
    }
  }

  /* ---------------------------------------------------------------------- */
  /* getMissionsByDateRange                                                 */
  /* ---------------------------------------------------------------------- */

  /** `/^\d{4}-\d{2}-\d{2}$/`: four digits, dash, two digits, dash, two digits, nothing else. */
  predicate IsDateShape(s: string) {
    && |s| == 10
    && IsDigit(s[0]) && IsDigit(s[1]) && IsDigit(s[2]) && IsDigit(s[3])
    && s[4] == '-' && IsDigit(s[5]) && IsDigit(s[6])
    && s[7] == '-' && IsDigit(s[8]) && IsDigit(s[9])
  }

  /** The Date lies between the bounds, both included; a missing Date never does. */
  predicate InDateRange(m: Record, start: string, end: string) {
    match DateOf(m)
    case None => false
    case Some(d) => !StrLt(d, start) && !StrLt(end, d)
  }

  function InRange(start: string, end: string): Record -> bool {
    m => InDateRange(m, start, end)
  }

  function DateKey(m: Record): string {
    DateOf(m).GetOr("")
  }

  /** One record's Date sorts before the other's: the strict order the Date comparator induces. */
  predicate DateBefore(a: Record, b: Record) {
    StrLt(DateKey(a), DateKey(b))
  }

  /**
   Both bounds have the date shape and the start is not after the end; a bound
   of that shape is never blank, so such bounds pass every guard.
   */
  predicate DateBoundsOk(start: string, end: string) {
    IsDateShape(start) && IsDateShape(end) && !StrLt(end, start)
  }

  /** The records `getMissionsByDateRange` keeps, in the order it returns them. */
  function DateRangeRecords(data: seq<Record>, start: string, end: string): seq<Record> {
    if |data| == 0 then []
    else if !Usable(start) || !Usable(end) then []
    else if !IsDateShape(start) || !IsDateShape(end) then []
    else if StrLt(end, start) then []
    else SortBy(Filter(InRange(start, end), data), DateBefore)
  }

  /** `getMissionsByDateRange(startDate, endDate)`: the Mission of each kept record. */
  function MissionsByDateRange(data: seq<Record>, start: string, end: string): (ms: seq<Option<string>>)
    ensures |ms| == |DateRangeRecords(data, start, end)|
    ensures forall i :: 0 <= i < |ms| ==> ms[i] == MissionOf(DateRangeRecords(data, start, end)[i])
  {
    Map(MissionOf, DateRangeRecords(data, start, end))
  }

  lemma DateBeforeStrictOrder()
    ensures StrictOrder(DateBefore)
  {
    forall a: Record ensures !DateBefore(a, a) {
      StrLtIrreflexive(DateKey(a));
    }
    forall a: Record, b: Record, c: Record | DateBefore(a, b) && DateBefore(b, c) ensures DateBefore(a, c) {
      StrLtTransitive(DateKey(a), DateKey(b), DateKey(c));
    }
  }

  /** A bound of the date shape is never blank. */
  lemma DateShapeUsable(s: string)
    requires IsDateShape(s)
    ensures Usable(s)
  {
    DigitNotSpace(s[0]);
    assert !IsBlank(s);
    TrimBlank(s);
  }

  /** Past the guards, the kept records are the in-range ones sorted by Date. */
  lemma DateRangeKept(data: seq<Record>, start: string, end: string)
    requires data != [] && DateBoundsOk(start, end)
    ensures DateRangeRecords(data, start, end) == SortBy(Filter(InRange(start, end), data), DateBefore)
  {
    DateShapeUsable(start);
    DateShapeUsable(end);
  }

  /** No data, badly shaped bounds or a start after the end give nothing. */
  lemma MissionsByDateRangeGuards(data: seq<Record>, start: string, end: string)
    ensures data == [] || !DateBoundsOk(start, end) ==> MissionsByDateRange(data, start, end) == []
  {
  }

  /**
   With usable bounds, the result holds the Mission of every record dated
   between the bounds, each as often as such records carry it, and nothing
   else.
   */
  lemma MissionsByDateRangeSpec(data: seq<Record>, start: string, end: string)
    requires DateBoundsOk(start, end)
    ensures |MissionsByDateRange(data, start, end)| == |Filter(InRange(start, end), data)|
    ensures multiset(MissionsByDateRange(data, start, end))
         == multiset(Map(MissionOf, Filter(InRange(start, end), data)))
  {
    if data != [] {
      DateRangeKept(data, start, end);
      var kept := Filter(InRange(start, end), data);
      MapPerm(MissionOf, SortBy(kept, DateBefore), kept);
    }
  }

  /**
   With usable bounds, the kept records are exactly the records dated between
   the bounds, each as often as in the data, ordered by non-decreasing Date.
   */
  lemma DateRangeSpec(data: seq<Record>, start: string, end: string)
    requires data != [] && DateBoundsOk(start, end)
    ensures var r := DateRangeRecords(data, start, end);
      && (forall m <- r :: InDateRange(m, start, end))
      && (forall m <- data :: InDateRange(m, start, end) ==> multiset(r)[m] == multiset(data)[m])
      && multiset(r) <= multiset(data)
      && (forall i, j :: 0 <= i < j < |r| ==> StrLe(DateKey(r[i]), DateKey(r[j])))
  {
    DateRangeKept(data, start, end);
    SortedInRange(data, start, end);
  }

  /** Sorting the in-range records by Date keeps exactly them and orders them by Date. */
  lemma SortedInRange(data: seq<Record>, start: string, end: string)
    ensures var r := SortBy(Filter(InRange(start, end), data), DateBefore);
      && (forall m <- r :: InDateRange(m, start, end))
      && (forall m <- data :: InDateRange(m, start, end) ==> multiset(r)[m] == multiset(data)[m])
      && multiset(r) <= multiset(data)
      && (forall i, j :: 0 <= i < j < |r| ==> StrLe(DateKey(r[i]), DateKey(r[j])))
  {
    var kept := Filter(InRange(start, end), data);
    KeptInRange(data, start, end, kept);
    SortedByDate(kept);
  }

  /** The sorted in-range records are the in-range records, each as often as in the data. */
  lemma KeptInRange(data: seq<Record>, start: string, end: string, kept: seq<Record>)
    requires kept == Filter(InRange(start, end), data)
    ensures var r := SortBy(kept, DateBefore);
      && (forall m <- r :: InDateRange(m, start, end))
      && (forall m <- data :: InDateRange(m, start, end) ==> multiset(r)[m] == multiset(data)[m])
      && multiset(r) <= multiset(data)
  {
    var r := SortBy(kept, DateBefore);
    assert multiset(r) == multiset(kept);
    FilterMultiset(InRange(start, end), data);
    forall m <- r ensures InDateRange(m, start, end) {
      assert m in multiset(kept);
      assert m in kept;
      assert InRange(start, end)(m);
    }
  }

  /** Sorting by Date leaves the Dates in non-decreasing order. */
  lemma SortedByDate(kept: seq<Record>)
    ensures var r := SortBy(kept, DateBefore);
      forall i, j :: 0 <= i < j < |r| ==> StrLe(DateKey(r[i]), DateKey(r[j]))
  {
    var r := SortBy(kept, DateBefore);
    DateBeforeStrictOrder();
    SortBySorted(kept, DateBefore);
    forall i, j | 0 <= i < j < |r| ensures StrLe(DateKey(r[i]), DateKey(r[j])) {
      NotLtIsLe(DateKey(r[i]), DateKey(r[j]));
    }
  }



  /** Records with the same Date keep their order in the file. */
  lemma DateRangeStable(data: seq<Record>, start: string, end: string, d: string)
    requires data != [] && DateBoundsOk(start, end)
    ensures Filter(Matches("Date", d), DateRangeRecords(data, start, end))
         == Filter(Matches("Date", d), Filter(InRange(start, end), data))
  {
    DateRangeKept(data, start, end);
    DateBeforeStrictOrder();
    var p := Matches("Date", d);
    forall a, b | p(a) && p(b) ensures !DateBefore(a, b) {
      StrLtIrreflexive(d);
    }
    SortByKeepsClassOrder(Filter(InRange(start, end), data), DateBefore, p);
  }

  /* ---------------------------------------------------------------------- */
  /* getTopCompaniesByMissionCount, getMostUsedRocket                       */
  /* ---------------------------------------------------------------------- */

  /** `getTopCompaniesByMissionCount(n)`. */
  function TopCompanies(data: seq<Record>, n: int): seq<Entry> {
    if |data| == 0 then []
    else if n < 0 then []
    else Take(Ranked(CompanyKeys(data)), n)
  }

  /**
   The first `min(n, distinct companies)` of the ranking: each entry is a
   company with its record count, in strictly decreasing rank, and every
   company left out ranks below every company kept.
   */
  lemma TopCompaniesSpec(data: seq<Record>, n: int)
    ensures n < 0 ==> TopCompanies(data, n) == []
    ensures n >= 0 ==>
      var keys, r := CompanyKeys(data), TopCompanies(data, n);
      && |r| == (if n < |Elements(keys)| then n else |Elements(keys)|)
      && (forall i :: 0 <= i < |r| ==> r[i].name in keys && r[i].count == multiset(keys)[r[i].name])
      && (forall i, j :: 0 <= i < j < |r| ==> RankLt(r[i], r[j]))
      && (forall i, x :: 0 <= i < |r| && x in keys && !HasName(r, x) ==> RankLt(r[i], Entry(x, multiset(keys)[x])))
  {
    if n >= 0 && data == [] {
      assert Elements(CompanyKeys(data)) == {};
    } else if n >= 0 {
      var keys := CompanyKeys(data);
      var ranked := Ranked(keys);
      var r := TopCompanies(data, n);
      RankedSpec(keys);
      forall i, x | 0 <= i < |r| && x in keys && !HasName(r, x) ensures RankLt(r[i], Entry(x, multiset(keys)[x])) {
        var j :| 0 <= j < |ranked| && ranked[j].name == x;
        assert j >= |r|;
        assert ranked[j] == Entry(x, multiset(keys)[x]);
        assert r[i] == ranked[i];
      }
    }
  }

  /** A shorter top list is a prefix of a longer one. */
  lemma TopCompaniesPrefix(data: seq<Record>, n: int, m: int)
    requires n <= m
    ensures TopCompanies(data, n) == TopCompanies(data, m)[..|TopCompanies(data, n)|]
  {
  }

  /** A Rocket that is present and not empty. */
  predicate HasRocket(m: Record) {
    RocketOf(m).Some? && RocketOf(m).value != ""
  }

  /** The Rocket of each record that has one, in order. */
  function RocketKeys(data: seq<Record>): seq<string> {
    if data == [] then []
    else (if HasRocket(data[0]) then [RocketOf(data[0]).value] else []) + RocketKeys(data[1..])
  }

  /** `getMostUsedRocket()`: the first name of the ranking, or '' when nothing was counted. */
  function MostUsedRocket(data: seq<Record>): string {
    if |data| == 0 then ""
    else
      var ranked := Ranked(RocketKeys(data));
      if |ranked| == 0 then "" else ranked[0].name
  }

  /** A rocket's count among the rockets is its number of records. */
  lemma {:induction false} RocketKeysCount(data: seq<Record>, x: string)
    requires x != ""
    ensures multiset(RocketKeys(data))[x] == multiset(Column(data, "Rocket"))[Some(x)]
  {
    if data != [] {
      RocketKeysCount(data[1..], x);
      var m := data[0];
      var ks, cs := RocketKeys(data[1..]), Column(data[1..], "Rocket");
      assert Column(data, "Rocket") == [RocketOf(m)] + cs;
      RocketHeadCount(m, ks, cs, x);
    }
  }

  /** One record's share of the count, for the rocket list and the Rocket column alike. */
  lemma RocketHeadCount(m: Record, ks: seq<string>, cs: seq<Option<string>>, x: string)
    requires x != "" && multiset(ks)[x] == multiset(cs)[Some(x)]
    ensures multiset((if HasRocket(m) then [RocketOf(m).value] else []) + ks)[x]
         == multiset([RocketOf(m)] + cs)[Some(x)]
  {
    var k0 := if HasRocket(m) then [RocketOf(m).value] else [];
    assert multiset(k0 + ks)[x] == multiset(k0)[x] + multiset(ks)[x];
    assert multiset([RocketOf(m)] + cs)[Some(x)] == multiset([RocketOf(m)])[Some(x)] + multiset(cs)[Some(x)];
  }

  lemma {:induction false} RocketKeysMembers(data: seq<Record>, x: string)
    ensures x in RocketKeys(data) <==> exists m <- data :: HasRocket(m) && RocketOf(m) == Some(x)
  {
    if data != [] {
      RocketKeysMembers(data[1..], x);
      if exists m <- data :: HasRocket(m) && RocketOf(m) == Some(x) {
        var m :| m in data && HasRocket(m) && RocketOf(m) == Some(x);
        if m != data[0] {
          assert m in data[1..];
        }
      }
    }
  }

  /** The number of records flying rocket `x`. */
  function RocketCount(data: seq<Record>, x: string): nat {
    multiset(Column(data, "Rocket"))[Some(x)]
  }

  /** No rocket is counted exactly when no record has a non-empty Rocket. */
  lemma {:induction false} RocketKeysEmpty(data: seq<Record>)
    ensures RocketKeys(data) == [] <==> forall m <- data :: !HasRocket(m)
  {
    if data != [] {
      RocketKeysEmpty(data[1..]);
      assert forall m <- data :: m == data[0] || m in data[1..];
    }
  }

  /** The answer is '' exactly when no record has a non-empty Rocket. */
  lemma MostUsedRocketEmpty(data: seq<Record>)
    ensures MostUsedRocket(data) == "" <==> forall m <- data :: !HasRocket(m)
  {
    var keys := RocketKeys(data);
    RankedSpec(keys);
    RocketKeysEmpty(data);
    if keys == [] {
      assert Elements(keys) == {};
    } else {
      assert keys[0] in Elements(keys);
      assert |Ranked(keys)| > 0;
      var r := Ranked(keys)[0].name;
      RocketKeysMembers(data, r);
    }
  }

  /**
   A non-empty answer is a rocket some record flies; no rocket flies more
   often, and any rocket flying as often has a larger name.
   */
  lemma MostUsedRocketMax(data: seq<Record>)
    ensures var r := MostUsedRocket(data);
      r != "" ==>
        && (exists m <- data :: RocketOf(m) == Some(r))
        && forall m <- data :: HasRocket(m) && RocketOf(m) != Some(r) ==>
             RocketCount(data, RocketOf(m).value) < RocketCount(data, r)
             || (RocketCount(data, RocketOf(m).value) == RocketCount(data, r) && StrLt(r, RocketOf(m).value))
  {
    var keys := RocketKeys(data);
    var ranked := Ranked(keys);
    var r := MostUsedRocket(data);
    if r != "" {
      RankedSpec(keys);
      assert r == ranked[0].name && r in keys;
      RocketKeysMembers(data, r);
      RocketKeysCount(data, r);
      forall m | m in data && HasRocket(m) && RocketOf(m) != Some(r)
        ensures RocketCount(data, RocketOf(m).value) < RocketCount(data, r)
             || (RocketCount(data, RocketOf(m).value) == RocketCount(data, r) && StrLt(r, RocketOf(m).value))
      {
        var x := RocketOf(m).value;
        RocketKeysMembers(data, x);
        RocketKeysCount(data, x);
        assert HasName(ranked, x);
        var j :| 0 <= j < |ranked| && ranked[j].name == x;
        assert j != 0;
        assert RankLt(ranked[0], ranked[j]);
      }
    }
  }

  /* ---------------------------------------------------------------------- */
  /* getMissionStatusCount                                                  */
  /* ---------------------------------------------------------------------- */

  /** The four statuses the tally counts, in its key order. */
  const Statuses: seq<string> := ["Success", "Failure", "Partial Failure", "Prelaunch Failure"]

  /** The tally before any record is counted. */
  const ZeroTally: map<string, nat> :=
    map["Success" := 0, "Failure" := 0, "Partial Failure" := 0, "Prelaunch Failure" := 0]

  /** Adds one to a status's count for each record whose status is one of the four. */
  function CountStatuses(data: seq<Record>): (t: map<string, nat>)
    ensures t.Keys == ZeroTally.Keys
  {
    if data == [] then ZeroTally
    else
      var t := CountStatuses(data[..|data| - 1]);
      var k := PropertyKey(StatusOf(data[|data| - 1]));
      if k in t then t[k := t[k] + 1] else t
  }

  /** `getMissionStatusCount()`. */
  function StatusTally(data: seq<Record>): (t: map<string, nat>)
    ensures t.Keys == ZeroTally.Keys
  {
    if |data| == 0 then ZeroTally else CountStatuses(data)
  }

  /** The tally's keys are the four statuses. */
  lemma ZeroTallyKeys()
    ensures ZeroTally.Keys == Elements(Statuses)
    ensures "undefined" !in ZeroTally
  {
    assert Statuses[0] in Elements(Statuses);
    assert Statuses[1] in Elements(Statuses);
    assert Statuses[2] in Elements(Statuses);
    assert Statuses[3] in Elements(Statuses);
  }

  /** A status is counted as often as records carry it; other statuses are not counted. */
  lemma {:induction false} StatusTallyCounts(data: seq<Record>, s: string)
    ensures s in StatusTally(data) <==> s in Statuses
    ensures s in Statuses ==> StatusTally(data)[s] == multiset(Column(data, "MissionStatus"))[Some(s)]
  {
    ZeroTallyKeys();
    assert s in Statuses <==> s in Elements(Statuses);
    if data != [] {
      var init := data[..|data| - 1];
      var last := data[|data| - 1];
      StatusTallyCounts(init, s);
      assert Column(data, "MissionStatus") == Column(init, "MissionStatus") + [StatusOf(last)];
      assert init == [] ==> CountStatuses(init) == ZeroTally;
    }
  }

  /** The sum of the four counts. */
  function TallySum(t: map<string, nat>): nat
    requires t.Keys == ZeroTally.Keys
  {
    t["Success"] + t["Failure"] + t["Partial Failure"] + t["Prelaunch Failure"]
  }

  lemma TallySumBump(t: map<string, nat>, k: string)
    requires t.Keys == ZeroTally.Keys && k in t
    ensures TallySum(t[k := t[k] + 1]) == TallySum(t) + 1
  {
  }

  /** The counts add up to the number of records with one of the four statuses. */
  lemma {:induction false} StatusTallyTotal(data: seq<Record>)
    ensures TallySum(StatusTally(data)) == |Filter(KnownStatus, data)|
  {
    if data != [] {
      var init := data[..|data| - 1];
      var last := data[|data| - 1];
      StatusTallyTotal(init);
      SplitLast(data);
      FilterAppend(KnownStatus, init, [last]);
      ConsFilter(KnownStatus, last, []);
      assert [last] + [] == [last];
      StatusTallyStep(data);
    }
  }

  /** Counting one more record adds one to the sum exactly when its status is one of the four. */
  lemma StatusTallyStep(data: seq<Record>)
    requires data != []
    ensures TallySum(StatusTally(data))
         == TallySum(StatusTally(data[..|data| - 1])) + (if KnownStatus(data[|data| - 1]) then 1 else 0)
  {
    var init := data[..|data| - 1];
    var last := data[|data| - 1];
    var t0 := StatusTally(init);
    var k := PropertyKey(StatusOf(last));
    assert StatusTally(data) == if k in t0 then t0[k := t0[k] + 1] else t0 by {
      assert CountStatuses(init) == t0 by {
        if init == [] {
          assert CountStatuses(init) == ZeroTally;
        }
      }
    }
    assert KnownStatus(last) <==> k in t0 by {
      ZeroTallyKeys();
    }
    if k in t0 {
      TallySumBump(t0, k);
    }
  }

  /** A record whose status the tally counts. */
  predicate KnownStatus(m: Record) {
    StatusOf(m).Some? && StatusOf(m).value in Statuses
  }

  /* ---------------------------------------------------------------------- */
  /* getMissionsByYear, getAverageMissionsPerYear                           */
  /* ---------------------------------------------------------------------- */

  /** The years both year queries accept. */
  predicate InYearRange(y: int) {
    1900 <= y <= 2100
  }

  function DateYearPrefix(m: Record): string {
    YearPrefix(DateKey(m))
  }

  /** The record's Date starts with the given year spelling. */
  function DatedIn(ys: string): Record -> bool {
    m => StartsWith(DateKey(m), ys)
  }

  /**
   `getMissionsByYear(year)`. A record without a Date makes `m.Date.startsWith`
   throw, and the error handler answers 0.
   */
  function MissionsByYear(data: seq<Record>, year: int): (n: nat)
    ensures n <= |data|
  {
    if |data| == 0 then 0
    else if !InYearRange(year) then 0
    else if !AllHave(data, "Date") then 0
    else |Filter(DatedIn(YearString(year)), data)|
  }

  /** The count is the number of records whose Date begins with the four digits of the year. */
  lemma MissionsByYearSpec(data: seq<Record>, year: int)
    ensures !InYearRange(year) || !AllHave(data, "Date") ==> MissionsByYear(data, year) == 0
    ensures InYearRange(year) && AllHave(data, "Date") ==>
      MissionsByYear(data, year) == multiset(Map(DateYearPrefix, data))[YearString(year)]
  {
    if data != [] && InYearRange(year) && AllHave(data, "Date") {
      var ys := YearString(year);
      forall m <- data ensures DatedIn(ys)(m) <==> DateYearPrefix(m) == ys {
        var d := DateKey(m);
        assert StartsWith(d, ys) ==> YearPrefix(d) == d[..4];
      }
      FilterCountMap(DatedIn(ys), DateYearPrefix, data, ys);
    }
  }

  /** The integer `parseInt` reads from the Date's year prefix; None for `NaN`. */
  function ParsedYear(m: Record): Option<int> {
    ParseInt(DateYearPrefix(m))
  }

  /** The parsed year lies in the range, both ends included; never for `NaN`. */
  function YearBetween(start: int, end: int): Record -> bool {
    m => match ParsedYear(m)
         case None => false
         case Some(y) => start <= y <= end
  }

  /** A record is in the year range exactly when its Date's year prefix parses to a year in it. */
  lemma YearBetweenParsed(m: Record, start: int, end: int)
    ensures YearBetween(start, end)(m) <==> ParsedYear(m).Some? && start <= ParsedYear(m).value <= end
  {
  }

  /**
   `getAverageMissionsPerYear(startYear, endYear)`: the records whose year
   falls in the range, over the number of years in it. A record without a
   Date makes `m.Date.substring` throw, and the error handler answers 0.
   */
  function AverageMissionsPerYear(data: seq<Record>, start: int, end: int): (r: Ratio)
    ensures r.den >= 1
    ensures r.num <= |data|
    ensures r != Zero ==> InYearRange(start) && InYearRange(end) && start <= end && r.den == end - start + 1
  {
    if |data| == 0 then Zero
    else if start > end then Zero
    else if start < 1900 || end > 2100 then Zero
    else if !AllHave(data, "Date") then Zero
    else Ratio(|Filter(YearBetween(start, end), data)|, end - start + 1)
  }

  /** For every year, the one-year average is that year's mission count over 1. */
  lemma AverageOfOneYear(data: seq<Record>, year: int)
    ensures AverageMissionsPerYear(data, year, year) == Ratio(MissionsByYear(data, year), 1)
  {
    if data != [] && InYearRange(year) && AllHave(data, "Date") {
      var ys := YearString(year);
      forall m <- data ensures YearBetween(year, year)(m) == DatedIn(ys)(m) {
        OneYearMatch(m, year);
      }
      FilterCongruent(YearBetween(year, year), DatedIn(ys), data);
      assert AverageMissionsPerYear(data, year, year).num == |Filter(YearBetween(year, year), data)|;
    }
  }

  /**
   For a year both queries accept, a record counts for the single-year range
   exactly when its parsed year prefix is the year, which is exactly when
   `getMissionsByYear` counts it.
   */
  lemma OneYearMatch(m: Record, year: int)
    requires InYearRange(year)
    ensures YearBetween(year, year)(m) <==> ParsedYear(m) == Some(year)
    ensures YearBetween(year, year)(m) == DatedIn(YearString(year))(m)
  {
    YearBetweenParsed(m, year, year);
    var d, ys := DateKey(m), YearString(year);
    assert ParsedYear(m) == Some(year) <==> StartsWith(d, ys) by {
      assert ParsedYear(m) == ParseInt(YearPrefix(d));
      ParseYearPrefix(d, year);
    }
    assert DatedIn(ys)(m) == StartsWith(d, ys);
  }

  /**
   Splitting the range splits the total: the numerator over a range is the
   sum of the numerators over its two halves, so it is the sum of the
   per-year mission counts.
   */
  lemma AverageSplit(data: seq<Record>, start: int, mid: int, end: int)
    requires 1900 <= start <= mid < end <= 2100
    ensures AverageMissionsPerYear(data, start, end).num ==
      AverageMissionsPerYear(data, start, mid).num + AverageMissionsPerYear(data, mid + 1, end).num
  {
    if data != [] && AllHave(data, "Date") {
      FilterSplit(YearBetween(start, end), YearBetween(start, mid), YearBetween(mid + 1, end), data);
    }
  }

  /** The numerator summed year by year. */
  function YearlyTotal(data: seq<Record>, start: int, end: int): nat
    decreases end - start
  {
    if end < start then 0 else YearlyTotal(data, start, end - 1) + MissionsByYear(data, end)
  }

  /** The average's numerator is the sum of `getMissionsByYear` over the range. */
  lemma {:induction false} AverageIsYearlySum(data: seq<Record>, start: int, end: int)
    requires 1900 <= start <= end <= 2100
    ensures AverageMissionsPerYear(data, start, end).num == YearlyTotal(data, start, end)
    decreases end - start
  {
    if start < end {
      AverageIsYearlySum(data, start, end - 1);
      AverageLastYear(data, start, end);
    } else {
      AverageOfOneYear(data, end);
      assert YearlyTotal(data, start, end - 1) == 0;
    }
  }

  /** Extending the range by its last year adds that year's mission count. */
  lemma AverageLastYear(data: seq<Record>, start: int, end: int)
    requires 1900 <= start < end <= 2100
    ensures AverageMissionsPerYear(data, start, end).num
         == AverageMissionsPerYear(data, start, end - 1).num + MissionsByYear(data, end)
  {
    AverageOfOneYear(data, end);
    AverageSplit(data, start, end - 1, end);
  }
}
