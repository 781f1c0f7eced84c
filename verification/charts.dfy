/** The data behind the overview charts of charts.js: the country bar chart's
    top-N counts with an "Other" bucket, the timeline's per-year counts, the
    radar chart's per-project values, and the bar chart's click. */
module Charts {
  import opened Wrappers
  import opened Seqs
  import opened JsNumber
  import opened Ordering
  import opened Records
  import opened Grouping
  import opened FilterEvents

  // ----- projects per country -----

  /** `{ country, count }`; the bucket of the remaining countries carries
      `isOther`. */
  datatype CountryCount = CountryCount(country: string, count: nat, isOther: bool)

  /** `d => d.country || "Unknown"`. */
  function CountryKey(r: Record): string {
    OrUnknown(Get(r, Country))
  }

  function CountOf(c: CountryCount): int {
    c.count
  }

  function ToCountryCount(g: Group<string, Record>): CountryCount {
    CountryCount(g.key, |g.members|, false)
  }

  /** The comparator `(a, b) => b.count - a.count`: `a` may precede `b` when
      its count is not smaller. */
  predicate CountNotLess(a: CountryCount, b: CountryCount) {
    a.count >= b.count
  }

  lemma CountNotLessIsTotalPreorder()
    ensures IsTotalPreorder(CountNotLess)
  {
  }

  /** The number of records whose country key is `k`. */
  function CountryTotal(data: seq<Record>, k: string): nat {
    |Matching(data, CountryKey, k)|
  }

  /** An entry that counts one country of the data. */
  predicate IsCountryEntry(data: seq<Record>, c: CountryCount) {
    !c.isOther && c.count == CountryTotal(data, c.country) && c.count > 0
  }

  lemma {:induction false} SumCountryCounts(gs: seq<Group<string, Record>>)
    ensures Sum(Map(gs, ToCountryCount), CountOf) == TotalSize(gs)
  {
    if |gs| > 0 {
      assert Map(gs, ToCountryCount)[1..] == Map(gs[1..], ToCountryCount);
      SumCountryCounts(gs[1..]);
    }
  }

  lemma {:induction false} SumCountsNonNegative(cs: seq<CountryCount>)
    ensures Sum(cs, CountOf) >= 0
  {
    if |cs| > 0 {
      SumCountsNonNegative(cs[1..]);
    }
  }

  /** The entries of the rollup, before sorting, are the data's countries. */
  lemma RollupEntries(data: seq<Record>)
    ensures var cs := Map(GroupBy(data, CountryKey), ToCountryCount);
      && (forall i :: 0 <= i < |cs| ==> IsCountryEntry(data, cs[i]))
      && Distinct(cs)
      && (forall j :: 0 <= j < |data| ==> exists i :: 0 <= i < |cs| && cs[i].country == CountryKey(data[j]))
      && Sum(cs, CountOf) == |data|
  {
    var gs := GroupBy(data, CountryKey);
    GroupByMembers(data, CountryKey);
    SumCountryCounts(gs);
    var cs := Map(gs, ToCountryCount);
    forall j | 0 <= j < |data|
      ensures exists i :: 0 <= i < |cs| && cs[i].country == CountryKey(data[j])
    {
      var i := KeyIndex(gs, CountryKey(data[j]));
      assert cs[i].country == CountryKey(data[j]);
    }
  }

  /** Two entries that count the same country are equal. */
  lemma SameCountrySameEntry(data: seq<Record>, a: CountryCount, b: CountryCount)
    requires IsCountryEntry(data, a) && IsCountryEntry(data, b) && a.country == b.country
    ensures a == b
  {
  }

  /** The facts about the rollup survive sorting it. */
  lemma SortedRollupEntries(data: seq<Record>, cs: seq<CountryCount>, s: seq<CountryCount>)
    requires Sum(cs, CountOf) == |data|
    requires forall i :: 0 <= i < |cs| ==> IsCountryEntry(data, cs[i])
    requires Distinct(cs)
    requires forall j :: 0 <= j < |data| ==> exists i :: 0 <= i < |cs| && cs[i].country == CountryKey(data[j])
    requires multiset(s) == multiset(cs)
    ensures Sum(s, CountOf) == |data|
    ensures forall i :: 0 <= i < |s| ==> IsCountryEntry(data, s[i])
    ensures forall i, j :: 0 <= i < j < |s| ==> s[i].country != s[j].country
    ensures forall j :: 0 <= j < |data| ==> exists i :: 0 <= i < |s| && s[i].country == CountryKey(data[j])
  {
    PermutationSum(cs, s, CountOf);
    PermutationDistinct(cs, s);
    PermutationSameElements(cs, s);
    forall i | 0 <= i < |s|
      ensures IsCountryEntry(data, s[i])
    {
      assert s[i] in cs;
      var k :| 0 <= k < |cs| && cs[k] == s[i];
    }
    forall i, j | 0 <= i < j < |s|
      ensures s[i].country != s[j].country
    {
      if s[i].country == s[j].country {
        SameCountrySameEntry(data, s[i], s[j]);
      }
    }
    forall j | 0 <= j < |data|
      ensures exists i :: 0 <= i < |s| && s[i].country == CountryKey(data[j])
    {
      var k :| 0 <= k < |cs| && cs[k].country == CountryKey(data[j]);
      assert cs[k] in s;
    }
  }

  /** `summed`: the rollup by country key, sorted by decreasing count. */
  function Summed(data: seq<Record>): (s: seq<CountryCount>)
    ensures Sum(s, CountOf) == |data|
    ensures forall i :: 0 <= i < |s| ==> IsCountryEntry(data, s[i])
    ensures forall i, j :: 0 <= i < j < |s| ==> s[i].count >= s[j].count
    ensures forall i, j :: 0 <= i < j < |s| ==> s[i].country != s[j].country
    ensures forall j :: 0 <= j < |data| ==> exists i :: 0 <= i < |s| && s[i].country == CountryKey(data[j])
  {
    var cs := Map(GroupBy(data, CountryKey), ToCountryCount);
    CountNotLessIsTotalPreorder();
    var s := SortBy(cs, CountNotLess);
    SumCountryCounts(GroupBy(data, CountryKey));
    RollupEntries(data);
    SortedRollupEntries(data, cs, s);
    s
  }

  /** The default `topCountries`. */
  const TopCountries: nat := 15

  /** Some non-"Other" bar shows country `k`. */
  predicate Shown(r: seq<CountryCount>, k: string) {
    exists i :: 0 <= i < |r| && !r[i].isOther && r[i].country == k
  }

  /** The "Other" bucket completes the total. */
  lemma TopBucketSum(s: seq<CountryCount>, top: nat, other: CountryCount)
    requires top < |s| && other.count == Sum(s[top..], CountOf)
    ensures Sum(s[..top] + [other], CountOf) == Sum(s, CountOf)
  {
    SumAppend(s[..top], [other], CountOf);
    SumAppend(s[..top], s[top..], CountOf);
    assert s[..top] + s[top..] == s;
  }

  /** A record's country is among the top bars, or has no more projects
      than any of them. */
  lemma TopBucketCovers(data: seq<Record>, top: nat, other: CountryCount, j: nat)
    requires top < |Summed(data)| && other.isOther && j < |data|
    ensures Shown(Summed(data)[..top] + [other], CountryKey(data[j]))
      || forall i :: 0 <= i < top ==> Summed(data)[i].count >= CountryTotal(data, CountryKey(data[j]))
  {
    var s := Summed(data);
    var r := s[..top] + [other];
    var k :| 0 <= k < |s| && s[k].country == CountryKey(data[j]);
    if k < top {
      assert r[k] == s[k];
    }
  }

  /** Every record's country has a bar of the sorted rollup. */
  lemma AllShown(data: seq<Record>)
    ensures forall j :: 0 <= j < |data| ==> Shown(Summed(data), CountryKey(data[j]))
  {
    var s := Summed(data);
    forall j | 0 <= j < |data|
      ensures Shown(s, CountryKey(data[j]))
    {
      var k :| 0 <= k < |s| && s[k].country == CountryKey(data[j]);
      assert !s[k].isOther;
    }
  }

  /** The top bars keep the sorted rollup's order and the bucket comes last. */
  lemma TopBucketShape(data: seq<Record>, top: nat, other: CountryCount)
    requires top < |Summed(data)| && other.isOther && other.country == "Other"
    ensures var r := Summed(data)[..top] + [other];
      && (forall i :: 0 <= i < |r| ==> (r[i].isOther <==> i == top))
      && (forall i :: 0 <= i < |r| && !r[i].isOther ==> IsCountryEntry(data, r[i]))
      && (forall i, j :: 0 <= i < j < |r| && !r[j].isOther ==> r[i].count >= r[j].count)
      && (forall i, j :: 0 <= i < j < |r| && !r[j].isOther ==> r[i].country != r[j].country)
  {
    PrefixBucketShape(data, Summed(data), top, other);
  }

  /** Any sorted list of distinct country entries keeps its shape when cut
      after `top` bars and closed with the bucket. */
  lemma PrefixBucketShape(data: seq<Record>, s: seq<CountryCount>, top: nat, other: CountryCount)
    requires top < |s| && other.isOther
    requires forall i :: 0 <= i < |s| ==> IsCountryEntry(data, s[i])
    requires forall i, j :: 0 <= i < j < |s| ==> s[i].count >= s[j].count
    requires forall i, j :: 0 <= i < j < |s| ==> s[i].country != s[j].country
    ensures var r := s[..top] + [other];
      && (forall i :: 0 <= i < |r| ==> (r[i].isOther <==> i == top))
      && (forall i :: 0 <= i < |r| && !r[i].isOther ==> IsCountryEntry(data, r[i]))
      && (forall i, j :: 0 <= i < j < |r| && !r[j].isOther ==> r[i].count >= r[j].count)
      && (forall i, j :: 0 <= i < j < |r| && !r[j].isOther ==> r[i].country != r[j].country)
  {
    var r := s[..top] + [other];
    assert forall i :: 0 <= i < top ==> r[i] == s[i];
  }

  /** `overviewProjectsCountry(data, top)`: the `top` largest country counts,
      then one "Other" bucket holding the rest when there are more
      countries. */
  function OverviewProjectsCountry(data: seq<Record>, top: nat): (r: seq<CountryCount>)
    ensures Sum(r, CountOf) == |data|
    ensures |r| <= top + 1
    ensures forall i :: 0 <= i < |r| ==> (r[i].isOther <==> i == top)
    ensures forall i :: 0 <= i < |r| && r[i].isOther ==> r[i].country == "Other"
    ensures forall i :: 0 <= i < |r| && !r[i].isOther ==> IsCountryEntry(data, r[i])
    ensures forall i, j :: 0 <= i < j < |r| && !r[j].isOther ==> r[i].count >= r[j].count
    ensures forall i, j :: 0 <= i < j < |r| && !r[j].isOther ==> r[i].country != r[j].country
    ensures forall j :: 0 <= j < |data| && !Shown(r, CountryKey(data[j])) ==>
      |r| == top + 1 && forall i :: 0 <= i < top ==> r[i].count >= CountryTotal(data, CountryKey(data[j]))
  {
    var s := Summed(data);
    if |s| <= top then
      AllShown(data);
      s
    else
      SumCountsNonNegative(s[top..]);
      var other := CountryCount("Other", Sum(s[top..], CountOf), true);
      var r := s[..top] + [other];
      TopBucketSum(s, top, other);
      TopBucketShape(data, top, other);
      assert forall j :: 0 <= j < |data| && !Shown(r, CountryKey(data[j])) ==>
        forall i :: 0 <= i < top ==> r[i].count >= CountryTotal(data, CountryKey(data[j])) by {
        forall j | 0 <= j < |data|
          ensures Shown(r, CountryKey(data[j])) || forall i :: 0 <= i < top ==> r[i].count >= CountryTotal(data, CountryKey(data[j]))
        {
          TopBucketCovers(data, top, other, j);
        }
      }
      r
  }

  /** The sort is stable: countries with equal counts keep the order in
      which the data first mentions them. */
  lemma {:induction false} SummedTiesFirstSeen(data: seq<Record>, i: nat, j: nat)
    requires i < j < |Summed(data)| && Summed(data)[i].count == Summed(data)[j].count
    ensures FirstWithKey(data, CountryKey, Summed(data)[i].country)
      < FirstWithKey(data, CountryKey, Summed(data)[j].country)
  {
    var gs := GroupBy(data, CountryKey);
    var cs := Map(gs, ToCountryCount);
    var s := Summed(data);
    CountNotLessIsTotalPreorder();
    assert s == SortBy(cs, CountNotLess);
    var y := s[i];
    assert Before(s, s[i], s[j]);
    TiesKeepOrder(s, CountNotLess, y, s[i], s[j]);
    SortByStable(cs, CountNotLess, y);
    TiesKeepOrder(cs, CountNotLess, y, s[i], s[j]);
    var a, b :| 0 <= a < b < |cs| && cs[a] == s[i] && cs[b] == s[j];
    GroupByFirstSeen(data, CountryKey);
    assert cs[a].country == gs[a].key && cs[b].country == gs[b].key;
  }

  /** Which of several equal-count countries get a bar: a country left in
      "Other" was first mentioned after every shown country with its count. */
  lemma OverviewCutFirstSeen(data: seq<Record>, top: nat, i: nat, k: nat)
    requires i < |OverviewProjectsCountry(data, top)| && !OverviewProjectsCountry(data, top)[i].isOther
    requires k < |data| && !Shown(OverviewProjectsCountry(data, top), CountryKey(data[k]))
    requires OverviewProjectsCountry(data, top)[i].count == CountryTotal(data, CountryKey(data[k]))
    ensures FirstWithKey(data, CountryKey, OverviewProjectsCountry(data, top)[i].country)
      < FirstWithKey(data, CountryKey, CountryKey(data[k]))
  {
    var s := Summed(data);
    var r := OverviewProjectsCountry(data, top);
    assert |s| > top;
    assert i < top && r[i] == s[i];
    assert forall q :: 0 <= q < top ==> r[q] == s[q];
    var m :| 0 <= m < |s| && s[m].country == CountryKey(data[k]);
    assert m >= top;
    SummedTiesFirstSeen(data, i, m);
  }

  /** The bar chart's click: the "Other" bar does nothing, any other bar
      toggles its country as `moveCountryFromChart` does. */
  function BarClick(p: Page, d: CountryCount): (q: Page)
    ensures d.isOther ==> q == p
    ensures !d.isOther ==> Consistent(q)
    ensures !d.isOther ==> (d.country in q.filters.countries <==> d.country !in p.filters.countries)
    ensures forall c :: c != d.country ==> (c in q.filters.countries <==> c in p.filters.countries)
    ensures q.filters == p.filters.(countries := q.filters.countries)
    ensures !d.isOther ==> KeepsContext(p, q)
  {
    if d.isOther then p else MoveCountryFromChart(p, d.country)
  }

  // ----- projects per year -----

  /** `{ year, count }`. */
  datatype YearCount = YearCount(year: Num, count: nat)

  /** `d => +d.begin_year`. */
  function YearKey(r: Record): Num {
    NumField(r, BeginYearField)
  }

  predicate IsNumber(y: Num) {
    !y.NaN?
  }

  /** `([year]) => !isNaN(year)`. */
  predicate NumericYearGroup(g: Group<Num, Record>) {
    IsNumber(g.key)
  }

  function ToYearCount(g: Group<Num, Record>): YearCount {
    YearCount(g.key, |g.members|)
  }

  function YearCountOf(y: YearCount): int {
    y.count
  }

  /** The comparator `(a, b) => a.year - b.year` on distinct numeric years:
      `a` may precede `b` unless its year is the later one. */
  predicate YearNotAfter(a: YearCount, b: YearCount) {
    !NumLt(b.year, a.year)
  }

  lemma YearNotAfterIsTotalPreorder()
    ensures IsTotalPreorder(YearNotAfter)
  {
    NumLtIsStrictTotalOrder();
    forall a, b, c | YearNotAfter(a, b) && YearNotAfter(b, c)
      ensures YearNotAfter(a, c)
    {
      if a.year != b.year {
        assert NumLt(a.year, b.year);
      }
    }
  }

  lemma {:induction false} SumYearCounts(gs: seq<Group<Num, Record>>)
    ensures Sum(Map(Filter(gs, NumericYearGroup), ToYearCount), YearCountOf) == SizeWhere(gs, IsNumber)
  {
    if |gs| > 0 {
      SumYearCounts(gs[1..]);
      var rest := Filter(gs[1..], NumericYearGroup);
      if NumericYearGroup(gs[0]) {
        assert Filter(gs, NumericYearGroup) == [gs[0]] + rest;
        assert Map([gs[0]] + rest, ToYearCount)[1..] == Map(rest, ToYearCount);
      } else {
        assert Filter(gs, NumericYearGroup) == rest;
      }
    }
  }

  /** An entry that counts one numeric year of the data. */
  predicate IsYearEntry(data: seq<Record>, y: YearCount) {
    IsNumber(y.year) && y.count == |Matching(data, YearKey, y.year)| && y.count > 0
  }

  /** The entries of the filtered rollup, before sorting. */
  lemma YearRollupEntries(data: seq<Record>)
    ensures var es := Map(Filter(GroupBy(data, YearKey), NumericYearGroup), ToYearCount);
      && (forall i :: 0 <= i < |es| ==> IsYearEntry(data, es[i]))
      && Distinct(es)
      && (forall j :: 0 <= j < |data| && IsNumber(YearKey(data[j])) ==>
            exists i :: 0 <= i < |es| && es[i].year == YearKey(data[j]))
  {
    var gs := GroupBy(data, YearKey);
    GroupByMembers(data, YearKey);
    var kept := Filter(gs, NumericYearGroup);
    var es := Map(kept, ToYearCount);
    forall i | 0 <= i < |es|
      ensures IsYearEntry(data, es[i])
    {
      assert kept[i] in gs;
    }
    forall i, j | 0 <= i < j < |es|
      ensures es[i] != es[j]
    {
      assert es[i].year != es[j].year by {
        DistinctKeysFilter(gs, NumericYearGroup);
      }
    }
    forall j | 0 <= j < |data| && IsNumber(YearKey(data[j]))
      ensures exists i :: 0 <= i < |es| && es[i].year == YearKey(data[j])
    {
      var k := KeyIndex(gs, YearKey(data[j]));
      assert gs[k] in kept;
      var i :| 0 <= i < |kept| && kept[i] == gs[k];
      assert es[i].year == YearKey(data[j]);
    }
  }

  /** The facts about the filtered rollup survive sorting it. */
  lemma SortedYearEntries(data: seq<Record>, es: seq<YearCount>, ys: seq<YearCount>)
    requires forall i :: 0 <= i < |es| ==> IsYearEntry(data, es[i])
    requires Distinct(es)
    requires forall j :: 0 <= j < |data| && IsNumber(YearKey(data[j])) ==>
      exists i :: 0 <= i < |es| && es[i].year == YearKey(data[j])
    requires multiset(ys) == multiset(es)
    requires SortedBy(ys, YearNotAfter)
    ensures forall i :: 0 <= i < |ys| ==> IsYearEntry(data, ys[i])
    ensures forall i, j :: 0 <= i < j < |ys| ==> Le(ys[i].year, ys[j].year) && ys[i].year != ys[j].year
    ensures forall j :: 0 <= j < |data| && IsNumber(YearKey(data[j])) ==>
      exists i :: 0 <= i < |ys| && ys[i].year == YearKey(data[j])
  {
    PermutationDistinct(es, ys);
    PermutationSameElements(es, ys);
    forall i | 0 <= i < |ys|
      ensures IsYearEntry(data, ys[i])
    {
      assert ys[i] in es;
      var k :| 0 <= k < |es| && es[k] == ys[i];
    }
    NumLtIsStrictTotalOrder();
    forall i, j | 0 <= i < j < |ys|
      ensures Le(ys[i].year, ys[j].year) && ys[i].year != ys[j].year
    {
      assert ys[i] != ys[j];
      assert IsYearEntry(data, ys[i]) && IsYearEntry(data, ys[j]);
      assert YearNotAfter(ys[i], ys[j]);
      assert NumLt(ys[i].year, ys[j].year);
    }
    forall j | 0 <= j < |data| && IsNumber(YearKey(data[j]))
      ensures exists i :: 0 <= i < |ys| && ys[i].year == YearKey(data[j])
    {
      var k :| 0 <= k < |es| && es[k].year == YearKey(data[j]);
      assert es[k] in ys;
    }
  }

  /** `settingUpProjectsByYear(data)`: the number of projects per numeric
      begin year, in increasing year order. */
  function ProjectsByYear(data: seq<Record>): (ys: seq<YearCount>)
    ensures forall i :: 0 <= i < |ys| ==> IsYearEntry(data, ys[i])
    ensures forall i, j :: 0 <= i < j < |ys| ==> Le(ys[i].year, ys[j].year) && ys[i].year != ys[j].year
    ensures forall j :: 0 <= j < |data| && IsNumber(YearKey(data[j])) ==>
      exists i :: 0 <= i < |ys| && ys[i].year == YearKey(data[j])
    ensures Sum(ys, YearCountOf) == |Filter(data, KeyHolds(YearKey, IsNumber))|
  {
    var gs := GroupBy(data, YearKey);
    var es := Map(Filter(gs, NumericYearGroup), ToYearCount);
    YearNotAfterIsTotalPreorder();
    var ys := SortBy(es, YearNotAfter);
    YearRollupEntries(data);
    SumYearCounts(gs);
    GroupBySizeWhere(data, YearKey, IsNumber);
    PermutationSum(es, ys, YearCountOf);
    SortedYearEntries(data, es, ys);
    ys
  }

  // ----- radar chart -----

  /** The per-project values of the radar chart, before normalisation. */
  datatype RadarEntry = RadarEntry(name: Option<string>, area: Num, cost: Num, duration: Num)

  /** `+p.end_year - +p.begin_year`. */
  function Duration(p: Record): Num {
    Sub(NumField(p, EndYearField), NumField(p, BeginYearField))
  }

  /** `radarData(projects)`: one entry per project, in order. */
  function RadarData(projects: seq<Record>): (rs: seq<RadarEntry>)
    ensures |rs| == |projects|
    ensures forall i :: 0 <= i < |rs| ==> rs[i].name == Get(projects[i], InterventionName)
    ensures forall i :: 0 <= i < |rs| ==>
      rs[i].area == NumField(projects[i], NbsAreaField) && rs[i].cost == NumField(projects[i], TotalCostField)
    ensures forall i :: 0 <= i < |rs| ==> rs[i].duration == Duration(projects[i])
  {
    if |projects| == 0 then []
    else
      var p := projects[0];
      [RadarEntry(Get(p, InterventionName), NumField(p, NbsAreaField), NumField(p, TotalCostField), Duration(p))]
        + RadarData(projects[1..])
  }

  /** A project whose years are written as plain decimal numbers lasts the
      difference of the two. */
  lemma DurationOfWrittenYears(p: Record, begin: nat, end: nat)
    requires Get(p, BeginYearField) == Some(NatToString(begin))
    requires Get(p, EndYearField) == Some(NatToString(end))
    ensures Duration(p) == Finite(end as real - begin as real)
  {
    NatToStringRoundTrip(begin);
    NatToStringRoundTrip(end);
  }

  /** A project without a begin or end year has a NaN duration. */
  lemma DurationWithoutYear(p: Record)
    requires BeginYearField !in p || EndYearField !in p
    ensures Duration(p).NaN?
  {
  }
}
