/** The older filter page of main.js: four facets (countries, cities, start
    and end year) over the same records, applied by a local `applyFilters`
    whose result is only logged. */
module LegacyMain {
  import opened Wrappers
  import opened Seqs
  import opened JsNumber
  import opened Ordering
  import opened Records
  import opened FilterState
  import opened FilterEngine
  import opened FilterEvents

  /** main.js's own `filters` object; `nbsArea` is declared but never read. */
  datatype LegacyFilters = LegacyFilters(
    countries: set<string>,
    cities: set<string>,
    startYear: Option<Num>,
    endYear: Option<Num>,
    nbsArea: Range)

  const LegacyInitial := LegacyFilters({}, {}, None, None, Unset)

  /** The page globals: `wholeData` and the global `filteredData`. */
  datatype LegacyPage = LegacyPage(whole: seq<Record>, filters: LegacyFilters, filtered: seq<Record>)

  /** The facets main.js applies, in its order. */
  const LegacyFacets: seq<Facet> := [Countries, Cities, StartYear, EndYear]

  /** The same four facets as a filter record of the full page, every other
      facet switched off. */
  function Embed(f: LegacyFilters): (g: Filters)
    ensures forall facet :: facet !in LegacyFacets ==> !Active(g, facet)
  {
    Initial.(countries := f.countries, cities := f.cities, startYear := f.startYear, endYear := f.endYear)
  }

  /** What main.js's four tests ask of a record. */
  predicate LegacyKeeps(f: LegacyFilters, x: Record) {
    && (|f.countries| > 0 ==> InSet(f.countries, Get(x, Country)))
    && (|f.cities| > 0 ==> InSet(f.cities, Get(x, City)))
    && (f.startYear.Some? ==> Ge(NumField(x, BeginYearField), f.startYear.value))
    && (f.endYear.Some? ==> Le(NumField(x, EndYearField), f.endYear.value))
  }

  lemma LegacyAdmitsAll(f: LegacyFilters, x: Record)
    ensures AdmitsAll(Embed(f), LegacyFacets, x) <==> LegacyKeeps(f, x)
  {
    var g := Embed(f);
    assert Keep(g, StartYear, x) <==> (f.startYear.Some? ==> Ge(NumField(x, BeginYearField), f.startYear.value));
    assert Keep(g, EndYear, x) <==> (f.endYear.Some? ==> Le(NumField(x, EndYearField), f.endYear.value));
    assert LegacyFacets[0] == Countries && LegacyFacets[1] == Cities;
    assert LegacyFacets[2] == StartYear && LegacyFacets[3] == EndYear;
  }

  /** main.js's `applyFilters`: the four facets in turn, each only when
      active. */
  function LegacyApplyFilters(whole: seq<Record>, f: LegacyFilters): (r: seq<Record>)
    ensures IsSubsequence(r, whole)
    ensures forall x :: x in r <==> x in whole && LegacyKeeps(f, x)
  {
    var r := Narrow(whole, Embed(f), LegacyFacets);
    NarrowIsFilter(whole, Embed(f), LegacyFacets);
    forall x
      ensures x in r <==> x in whole && LegacyKeeps(f, x)
    {
      LegacyAdmitsAll(f, x);
    }
    r
  }

  /** The four-facet filter is the full filter with the other eight facets
      off. */
  lemma LegacyAgreesWithFull(whole: seq<Record>, f: LegacyFilters)
    ensures LegacyApplyFilters(whole, f) == ApplyFilters(whole, Embed(f))
  {
    var g := Embed(f);
    NarrowIsFilter(whole, g, LegacyFacets);
    ApplyFiltersIsConjunction(whole, g);
    forall x
      ensures AdmitsAllFn(g, LegacyFacets)(x) == AdmitsFn(g)(x)
    {
      LegacyAdmitsAll(f, x);
      if LegacyKeeps(f, x) {
        forall facet
          ensures Active(g, facet) ==> Keep(g, facet, x)
        {
        }
      }
    }
    FilterExt(whole, AdmitsAllFn(g, LegacyFacets), AdmitsFn(g));
  }

  /** A country checkbox `change`: add or delete the country, clear the
      cities, rebuild the city options from the records of the selected
      countries. The global `filteredData` is not touched, as
      `applyFilters` assigns a local of the same name. */
  function LegacyCountryChange(p: LegacyPage, value: string, checked: bool): (res: (LegacyPage, seq<string>))
    ensures var (q, opts) := res;
      && (value in q.filters.countries <==> checked)
      && (forall v :: v != value ==> (v in q.filters.countries <==> v in p.filters.countries))
      && q.filters.cities == {}
      && q.filters.startYear == p.filters.startYear && q.filters.endYear == p.filters.endYear
      && StrictlySorted(opts, StrLt)
      && (forall c :: c in opts <==> (c != "" && c != Unknown && CityIn(p.whole, q.filters.countries, c)))
      && q.whole == p.whole && q.filtered == p.filtered
  {
    var countries := AddOrDelete(p.filters.countries, value, checked);
    var q := p.(filters := p.filters.(countries := countries, cities := {}));
    (q, CityOptionsFor(p.whole, countries))
  }

  /** A city checkbox `change`. */
  function LegacyCityChange(p: LegacyPage, value: string, checked: bool): (q: LegacyPage)
    ensures value in q.filters.cities <==> checked
    ensures forall v :: v != value ==> (v in q.filters.cities <==> v in p.filters.cities)
    ensures q.filters == p.filters.(cities := q.filters.cities)
    ensures q.whole == p.whole && q.filtered == p.filtered
  {
    p.(filters := p.filters.(cities := AddOrDelete(p.filters.cities, value, checked)))
  }

  /** A start-year option click. */
  function LegacyStartYearClick(p: LegacyPage, year: Num): (q: LegacyPage)
    ensures q.filters.startYear.None? <==> p.filters.startYear == Some(year) && !year.NaN?
    ensures q.filters.startYear.Some? ==> q.filters.startYear == Some(year)
    ensures q.filters == p.filters.(startYear := q.filters.startYear)
    ensures q.whole == p.whole && q.filtered == p.filtered
  {
    p.(filters := p.filters.(startYear := ClickYear(p.filters.startYear, year)))
  }

  /** An end-year option click. */
  function LegacyEndYearClick(p: LegacyPage, year: Num): (q: LegacyPage)
    ensures q.filters.endYear.None? <==> p.filters.endYear == Some(year) && !year.NaN?
    ensures q.filters.endYear.Some? ==> q.filters.endYear == Some(year)
    ensures q.filters == p.filters.(endYear := q.filters.endYear)
    ensures q.whole == p.whole && q.filtered == p.filtered
  {
    p.(filters := p.filters.(endYear := ClickYear(p.filters.endYear, year)))
  }

  /** Before any click the page's filters keep every record. */
  lemma LegacyInitialKeepsAll(whole: seq<Record>)
    ensures LegacyApplyFilters(whole, LegacyInitial) == whole
  {
    LegacyAgreesWithFull(whole, LegacyInitial);
    assert Embed(LegacyInitial) == Initial;
    InitialKeepsAll(whole);
  }
}
