/** The filter panel's event handlers in filters.js, read as functions from
    one page state to the next. Every handler that ends in `applyFilters()`
    leaves `filteredData` equal to `ApplyFilters(wholeData, filters)`. */
module FilterEvents {
  import opened Wrappers
  import opened Seqs
  import opened JsNumber
  import opened Ordering
  import opened Records
  import opened FilterState
  import opened FilterEngine
  import opened FacetOptions

  /** The globals the handlers read and write. The two defaults are the
      `nbsAreaDefaults` and `totalCostDefaults` of filters.js. */
  datatype Page = Page(
    whole: seq<Record>,
    filters: Filters,
    nbsAreaDefaults: Range,
    totalCostDefaults: Range,
    comparing: ComparingSet,
    filtered: seq<Record>)

  /** `filteredData` is what `applyFilters` makes of `wholeData`. */
  predicate Consistent(p: Page) {
    p.filtered == ApplyFilters(p.whole, p.filters)
  }

  /** The globals as state.js declares them, before any data is loaded. */
  const InitialPage := Page([], Initial, Unset, Unset, InitialComparing, [])

  lemma InitialPageConsistent()
    ensures Consistent(InitialPage)
  {
    InitialKeepsAll([]);
  }

  /** `applyFilters()` at the end of a handler. */
  function Refresh(p: Page): (q: Page)
    ensures Consistent(q)
    ensures q.(filtered := p.filtered) == p
  {
    p.(filtered := ApplyFilters(p.whole, p.filters))
  }

  /** A handler that leaves the data, the compare set and both sliders'
      defaults as they were. */
  predicate KeepsContext(p: Page, q: Page) {
    q.whole == p.whole && q.comparing == p.comparing
    && q.nbsAreaDefaults == p.nbsAreaDefaults && q.totalCostDefaults == p.totalCostDefaults
  }

  // ----- checkbox facets -----

  /** The set-valued facets, one per checkbox panel. */
  datatype SetFacet = CountryBox | CityBox | PreviousAreaBox | NbsTypeBox | FundingBox | EnvImpactsBox | EconImpactsBox

  function Selected(f: Filters, box: SetFacet): set<string> {
    match box
    case CountryBox => f.countries
    case CityBox => f.cities
    case PreviousAreaBox => f.previousArea
    case NbsTypeBox => f.nbsType
    case FundingBox => f.funding
    case EnvImpactsBox => f.envImpacts
    case EconImpactsBox => f.econImpacts
  }

  function WithSelected(f: Filters, box: SetFacet, s: set<string>): (g: Filters)
    ensures Selected(g, box) == s
    ensures forall b :: b != box ==> Selected(g, b) == Selected(f, b)
    ensures g.startYear == f.startYear && g.endYear == f.endYear
    ensures g.nbsArea == f.nbsArea && g.totalCost == f.totalCost && g.search == f.search
  {
    match box
    case CountryBox => f.(countries := s)
    case CityBox => f.(cities := s)
    case PreviousAreaBox => f.(previousArea := s)
    case NbsTypeBox => f.(nbsType := s)
    case FundingBox => f.(funding := s)
    case EnvImpactsBox => f.(envImpacts := s)
    case EconImpactsBox => f.(econImpacts := s)
  }

  /** `if (checkbox.checked) set.add(value) else set.delete(value)`. */
  function AddOrDelete(s: set<string>, value: string, checked: bool): (r: set<string>)
    ensures value in r <==> checked
    ensures forall v :: v != value ==> (v in r <==> v in s)
  {
    if checked then s + {value} else s - {value}
  }

  /** A checkbox `change` event. A country change also clears the selected
      cities (the cascade); the city options it rebuilds are
      `CityOptionsFor`. */
  function CheckboxChange(p: Page, box: SetFacet, value: string, checked: bool): (q: Page)
    ensures Consistent(q)
    ensures value in Selected(q.filters, box) <==> checked
    ensures forall v :: v != value ==> (v in Selected(q.filters, box) <==> v in Selected(p.filters, box))
    ensures box == CountryBox ==> q.filters.cities == {}
    ensures forall b :: b != box && !(box == CountryBox && b == CityBox) ==> Selected(q.filters, b) == Selected(p.filters, b)
    ensures q.filters.startYear == p.filters.startYear && q.filters.endYear == p.filters.endYear
    ensures q.filters.nbsArea == p.filters.nbsArea && q.filters.totalCost == p.filters.totalCost
    ensures q.filters.search == p.filters.search
    ensures KeepsContext(p, q)
  {
    var f := WithSelected(p.filters, box, AddOrDelete(Selected(p.filters, box), value, checked));
    var g := if box == CountryBox then WithSelected(f, CityBox, {}) else f;
    Refresh(p.(filters := g))
  }

  /** Two filter records that select the same values in every box and agree
      on the ranges and the search are the same. */
  lemma SameSelectionsSameFilters(f: Filters, g: Filters)
    requires forall b :: Selected(g, b) == Selected(f, b)
    requires g.startYear == f.startYear && g.endYear == f.endYear
    requires g.nbsArea == f.nbsArea && g.totalCost == f.totalCost && g.search == f.search
    ensures g == f
  {
    assert Selected(g, CountryBox) == Selected(f, CountryBox);
    assert Selected(g, CityBox) == Selected(f, CityBox);
    assert Selected(g, PreviousAreaBox) == Selected(f, PreviousAreaBox);
    assert Selected(g, NbsTypeBox) == Selected(f, NbsTypeBox);
    assert Selected(g, FundingBox) == Selected(f, FundingBox);
    assert Selected(g, EnvImpactsBox) == Selected(f, EnvImpactsBox);
    assert Selected(g, EconImpactsBox) == Selected(f, EconImpactsBox);
  }

  /** Checking a box and unchecking it again restores the filters, except
      that a country round trip has cleared the cities. */
  lemma CheckUncheckRestores(p: Page, box: SetFacet, value: string)
    requires value !in Selected(p.filters, box)
    requires box != CountryBox || p.filters.cities == {}
    ensures CheckboxChange(CheckboxChange(p, box, value, true), box, value, false).filters == p.filters
  {
    var q := CheckboxChange(CheckboxChange(p, box, value, true), box, value, false);
    forall b
      ensures Selected(q.filters, b) == Selected(p.filters, b)
    {
    }
    SameSelectionsSameFilters(p.filters, q.filters);
  }

  /** The `x` of a set-facet tag in the active-filter bar: the value is
      deleted; unlike unchecking a country, removing a country tag leaves the
      cities alone. */
  function RemoveSetTag(p: Page, box: SetFacet, value: string): (q: Page)
    ensures Consistent(q)
    ensures Selected(q.filters, box) == Selected(p.filters, box) - {value}
    ensures forall b :: b != box ==> Selected(q.filters, b) == Selected(p.filters, b)
    ensures q.filters.startYear == p.filters.startYear && q.filters.endYear == p.filters.endYear
    ensures q.filters.nbsArea == p.filters.nbsArea && q.filters.totalCost == p.filters.totalCost
    ensures q.filters.search == p.filters.search
    ensures KeepsContext(p, q)
  {
    Refresh(p.(filters := WithSelected(p.filters, box, Selected(p.filters, box) - {value})))
  }

  /** Some record of a selected country (of any country when none is
      selected) lies in city `c`. */
  predicate CityIn(whole: seq<Record>, countries: set<string>, c: string) {
    exists i :: 0 <= i < |whole| && Get(whole[i], City) == Some(c)
      && (countries == {} || InSet(countries, Get(whole[i], Country)))
  }

  /** The city options rebuilt after a country change: the known cities of
      the records of a selected country, or of every record when no country
      is selected. */
  function CityOptionsFor(whole: seq<Record>, countries: set<string>): (opts: seq<string>)
    ensures StrictlySorted(opts, StrLt)
    ensures forall c :: c in opts <==> (c != "" && c != Unknown && CityIn(whole, countries, c))
  {
    var subset := if |countries| > 0 then Filter(whole, (r: Record) => InSet(countries, Get(r, Country))) else whole;
    var opts := KnownOptions(subset, City);
    forall c
      ensures c in opts <==> (c != "" && c != Unknown && CityIn(whole, countries, c))
    {
      if c in opts {
        var i :| 0 <= i < |subset| && Get(subset[i], City) == Some(c);
        assert subset[i] in whole;
        var j :| 0 <= j < |whole| && whole[j] == subset[i];
        assert Get(whole[j], City) == Some(c);
      }
      if c != "" && c != Unknown {
        if i :| 0 <= i < |whole| && Get(whole[i], City) == Some(c) && (countries == {} || InSet(countries, Get(whole[i], Country))) {
          assert whole[i] in subset;
          var j :| 0 <= j < |subset| && subset[j] == whole[i];
          assert Get(subset[j], City) == Some(c);
        }
      }
    }
    opts
  }

  // ----- year options -----

  /** A click on a year option: `filters.year === year ? null : year`. */
  function ClickYear(current: Option<Num>, year: Num): (r: Option<Num>)
    ensures r.None? <==> current == Some(year) && !year.NaN?
    ensures r.Some? ==> r == Some(year)
  {
    if current.Some? && !year.NaN? && current.value == year then None else Some(year)
  }

  function ClickStartYear(p: Page, year: Num): (q: Page)
    ensures Consistent(q)
    ensures q.filters == p.filters.(startYear := ClickYear(p.filters.startYear, year))
    ensures KeepsContext(p, q)
  {
    Refresh(p.(filters := p.filters.(startYear := ClickYear(p.filters.startYear, year))))
  }

  function ClickEndYear(p: Page, year: Num): (q: Page)
    ensures Consistent(q)
    ensures q.filters == p.filters.(endYear := ClickYear(p.filters.endYear, year))
    ensures KeepsContext(p, q)
  {
    Refresh(p.(filters := p.filters.(endYear := ClickYear(p.filters.endYear, year))))
  }

  /** Clicking the same year option twice clears the year filter again. */
  lemma {:induction false} YearClickTwice(current: Option<Num>, year: Num)
    requires !year.NaN? && current != Some(year)
    ensures ClickYear(current, year) == Some(year)
    ensures ClickYear(ClickYear(current, year), year) == None
  {
  }

  // ----- range sliders -----

  /** `Math.min(a, b)`. */
  function Min2(a: Num, b: Num): (m: Num)
    ensures !a.NaN? && !b.NaN? ==> !m.NaN? && Le(m, a) && Le(m, b) && (m == a || m == b)
  {
    if a.NaN? || b.NaN? then NaN else if ExtLe(a, b) then a else b
  }

  /** `Math.max(a, b)`. */
  function Max2(a: Num, b: Num): (m: Num)
    ensures !a.NaN? && !b.NaN? ==> !m.NaN? && Le(a, m) && Le(b, m) && (m == a || m == b)
  {
    if a.NaN? || b.NaN? then NaN else if ExtLe(a, b) then b else a
  }

  predicate NoNaN(xs: seq<Num>) {
    forall i :: 0 <= i < |xs| ==> !xs[i].NaN?
  }

  /** `Math.min(...xs)`: `Infinity` for no arguments. */
  function MathMin(xs: seq<Num>): (m: Num)
    ensures |xs| == 0 ==> m == PosInf
    ensures NoNaN(xs) ==> !m.NaN? && forall i :: 0 <= i < |xs| ==> Le(m, xs[i])
    ensures NoNaN(xs) && |xs| > 0 ==> m in xs
  {
    if |xs| == 0 then PosInf
    else
      var rest := MathMin(xs[1..]);
      assert forall i :: 1 <= i < |xs| ==> xs[1..][i - 1] == xs[i];
      Min2(xs[0], rest)
  }

  /** `Math.max(...xs)`: `-Infinity` for no arguments. */
  function MathMax(xs: seq<Num>): (m: Num)
    ensures |xs| == 0 ==> m == NegInf
    ensures NoNaN(xs) ==> !m.NaN? && forall i :: 0 <= i < |xs| ==> Le(xs[i], m)
    ensures NoNaN(xs) && |xs| > 0 ==> m in xs
  {
    if |xs| == 0 then NegInf
    else
      var rest := MathMax(xs[1..]);
      assert forall i :: 1 <= i < |xs| ==> xs[1..][i - 1] == xs[i];
      Max2(xs[0], rest)
  }

  /** The range a slider starts with: the least and greatest numeric value
      of the field. */
  function InitialRange(data: seq<Record>, field: string): (r: Range)
    ensures r.Bounds? && r.lo.NumBound? && r.hi.NumBound?
    ensures !r.lo.num.NaN? && !r.hi.num.NaN?
  {
    var values := NumericValues(data, field);
    Bounds(NumBound(MathMin(values)), NumBound(MathMax(values)))
  }

  /** The range from the least to the greatest of some numbers admits a
      value iff it is a number other than NaN, when every number is one of
      them. */
  lemma MinMaxRangeAdmits(values: seq<Num>, v: Num)
    requires NoNaN(values)
    requires !v.NaN? ==> v in values
    ensures InRange(v, Bounds(NumBound(MathMin(values)), NumBound(MathMax(values)))) <==> !v.NaN?
  {
    if !v.NaN? {
      var k :| 0 <= k < |values| && values[k] == v;
      assert Le(MathMin(values), values[k]) && Le(values[k], MathMax(values));
    }
  }

  /** The slider's default range admits exactly the records of the data
      whose field is a number: it is active, so records whose field reads as
      NaN are filtered out as soon as the slider is initialised. */
  lemma InitialRangeAdmitsNumeric(data: seq<Record>, field: string, x: Record)
    requires x in data
    ensures InRange(NumField(x, field), InitialRange(data, field)) <==> !NumField(x, field).NaN?
  {
    var values := NumericValues(data, field);
    var v := NumField(x, field);
    var i :| 0 <= i < |data| && data[i] == x;
    assert !v.NaN? ==> v in values;
    MinMaxRangeAdmits(values, v);
  }

  /** A data set with no numeric value gives the empty range
      `[Infinity, -Infinity]`, which admits nothing. */
  lemma InitialRangeWithoutNumbers(data: seq<Record>, field: string, v: Num)
    requires forall i :: 0 <= i < |data| ==> NumField(data[i], field).NaN?
    ensures InitialRange(data, field) == Bounds(NumBound(PosInf), NumBound(NegInf))
    ensures !InRange(v, InitialRange(data, field))
  {
    NoNumericValues(data, field);
  }

  /** `initializeNbsAreaSlider(data)`: both the filter and its defaults
      become the data's range (no `applyFilters` call). */
  function InitializeNbsAreaSlider(p: Page, data: seq<Record>): (q: Page)
    ensures q.filters == p.filters.(nbsArea := InitialRange(data, NbsAreaField))
    ensures q.nbsAreaDefaults == q.filters.nbsArea && q.totalCostDefaults == p.totalCostDefaults
    ensures q.whole == p.whole && q.filtered == p.filtered && q.comparing == p.comparing
  {
    var r := InitialRange(data, NbsAreaField);
    p.(filters := p.filters.(nbsArea := r), nbsAreaDefaults := r)
  }

  /** `initializeCostSlider(data)`. */
  function InitializeCostSlider(p: Page, data: seq<Record>): (q: Page)
    ensures q.filters == p.filters.(totalCost := InitialRange(data, TotalCostField))
    ensures q.totalCostDefaults == q.filters.totalCost && q.nbsAreaDefaults == p.nbsAreaDefaults
    ensures q.whole == p.whole && q.filtered == p.filtered && q.comparing == p.comparing
  {
    var r := InitialRange(data, TotalCostField);
    p.(filters := p.filters.(totalCost := r), totalCostDefaults := r)
  }

  /** The range read from the two thumbs of a slider: swapped when the
      minimum thumb is past the maximum one. */
  function SliderRange(a: real, b: real): (r: Range)
    ensures r.Bounds? && r.lo.NumBound? && r.hi.NumBound? && r.lo.num.Finite? && r.hi.num.Finite?
    ensures r.lo.num.value <= r.hi.num.value
    ensures multiset{r.lo.num.value, r.hi.num.value} == multiset{a, b}
  {
    if a > b then Bounds(NumBound(Finite(b)), NumBound(Finite(a)))
    else Bounds(NumBound(Finite(a)), NumBound(Finite(b)))
  }

  /** `updateNbsAreaFilter()`. */
  function UpdateNbsAreaFilter(p: Page, a: real, b: real): (q: Page)
    ensures Consistent(q)
    ensures q.filters == p.filters.(nbsArea := SliderRange(a, b))
    ensures KeepsContext(p, q)
  {
    Refresh(p.(filters := p.filters.(nbsArea := SliderRange(a, b))))
  }

  /** `updateCostFilter()`. */
  function UpdateCostFilter(p: Page, a: real, b: real): (q: Page)
    ensures Consistent(q)
    ensures q.filters == p.filters.(totalCost := SliderRange(a, b))
    ensures KeepsContext(p, q)
  {
    Refresh(p.(filters := p.filters.(totalCost := SliderRange(a, b))))
  }

  // ----- the active-filter bar -----

  /** The NbS-area tag is shown while the range differs (by `!==`) from the
      slider's defaults. */
  predicate NbsAreaTagShown(p: Page) {
    !SameRange(p.filters.nbsArea, p.nbsAreaDefaults)
  }

  predicate TotalCostTagShown(p: Page) {
    !SameRange(p.filters.totalCost, p.totalCostDefaults)
  }

  /** A range whose bounds are numbers other than NaN, or unset. */
  predicate NumericRange(r: Range) {
    r.Bounds? ==> r.lo.NumBound? && r.hi.NumBound? && !r.lo.num.NaN? && !r.hi.num.NaN?
  }

  /** The NbS-area tag's `x` as written: the range becomes the slider's
      `min` and `max` attributes, which the DOM returns as text (`minText`,
      `maxText`: the defaults printed as numbers). */
  function ResetNbsAreaAsWritten(p: Page, minText: string, maxText: string): (q: Page)
    ensures Consistent(q)
    ensures q.filters == p.filters.(nbsArea := Bounds(TextBound(minText), TextBound(maxText)))
    ensures KeepsContext(p, q)
  {
    Refresh(p.(filters := p.filters.(nbsArea := Bounds(TextBound(minText), TextBound(maxText)))))
  }

  /** The as-written reset filters exactly as the defaults do, yet the tag it
      was meant to remove stays: a text bound is never `===` to a number. */
  lemma ResetNbsAreaAsWrittenKeepsTag(p: Page, minText: string, maxText: string)
    requires p.nbsAreaDefaults.Bounds? && NumericRange(p.nbsAreaDefaults)
    requires ToNumber(minText) == p.nbsAreaDefaults.lo.num && ToNumber(maxText) == p.nbsAreaDefaults.hi.num
    ensures NbsAreaTagShown(ResetNbsAreaAsWritten(p, minText, maxText))
    ensures ResetNbsAreaAsWritten(p, minText, maxText).filtered == ResetNbsArea(p).filtered
  {
    var q := ResetNbsAreaAsWritten(p, minText, maxText);
    var fixed := ResetNbsArea(p);
    assert !StrictEq(q.filters.nbsArea.lo, p.nbsAreaDefaults.lo);
    SameBoundValuesSameResult(p.whole, q.filters, fixed.filters);
  }

  /** The NbS-area tag's `x` as intended: the range returns to the slider's
      numeric defaults, so the tag disappears. */
  function ResetNbsArea(p: Page): (q: Page)
    ensures Consistent(q)
    ensures q.filters == p.filters.(nbsArea := p.nbsAreaDefaults)
    ensures NumericRange(p.nbsAreaDefaults) ==> !NbsAreaTagShown(q)
    ensures KeepsContext(p, q)
  {
    Refresh(p.(filters := p.filters.(nbsArea := p.nbsAreaDefaults)))
  }

  /** The total-cost tag's `x`: the cost slider is initialised again from
      `wholeData`, then `applyFilters`; the tag disappears. */
  function ResetTotalCost(p: Page): (q: Page)
    ensures Consistent(q)
    ensures q.filters == p.filters.(totalCost := InitialRange(p.whole, TotalCostField))
    ensures !TotalCostTagShown(q) && q.totalCostDefaults == q.filters.totalCost
    ensures q.whole == p.whole && q.comparing == p.comparing && q.nbsAreaDefaults == p.nbsAreaDefaults
  {
    var r := InitialRange(p.whole, TotalCostField);
    assert SameRange(r, r);
    Refresh(p.(filters := p.filters.(totalCost := r), totalCostDefaults := r))
  }

  /** Two filter records that differ only in how the NbS-area bounds are
      written, not in the numbers they stand for, filter alike. */
  lemma SameBoundValuesSameResult(whole: seq<Record>, f: Filters, g: Filters)
    requires g == f.(nbsArea := g.nbsArea)
    requires f.nbsArea.Bounds? && g.nbsArea.Bounds?
    requires BoundValue(f.nbsArea.lo) == BoundValue(g.nbsArea.lo)
    requires BoundValue(f.nbsArea.hi) == BoundValue(g.nbsArea.hi)
    ensures ApplyFilters(whole, f) == ApplyFilters(whole, g)
  {
    assert forall x :: AdmitsFn(f)(x) == AdmitsFn(g)(x) by {
      SameBoundValuesAdmit(f, g);
    }
    assert ApplyFilters(whole, f) == Filter(whole, AdmitsFn(f)) by {
      ApplyFiltersIsConjunction(whole, f);
    }
    assert ApplyFilters(whole, g) == Filter(whole, AdmitsFn(g)) by {
      ApplyFiltersIsConjunction(whole, g);
    }
    FilterExt(whole, AdmitsFn(f), AdmitsFn(g));
  }

  lemma SameBoundValuesAdmit(f: Filters, g: Filters)
    requires g == f.(nbsArea := g.nbsArea)
    requires f.nbsArea.Bounds? && g.nbsArea.Bounds?
    requires BoundValue(f.nbsArea.lo) == BoundValue(g.nbsArea.lo)
    requires BoundValue(f.nbsArea.hi) == BoundValue(g.nbsArea.hi)
    ensures forall x :: AdmitsFn(f)(x) == AdmitsFn(g)(x)
  {
    forall x
      ensures AdmitsFn(f)(x) == AdmitsFn(g)(x)
    {
      forall facet
        ensures Active(f, facet) == Active(g, facet) && Keep(f, facet, x) == Keep(g, facet, x)
      {
        SameBoundValuesKeep(f, g, facet, x);
      }
      assert Admits(f, x) == Admits(g, x);
    }
  }

  lemma SameBoundValuesKeep(f: Filters, g: Filters, facet: Facet, x: Record)
    requires g == f.(nbsArea := g.nbsArea)
    requires f.nbsArea.Bounds? && g.nbsArea.Bounds?
    requires BoundValue(f.nbsArea.lo) == BoundValue(g.nbsArea.lo)
    requires BoundValue(f.nbsArea.hi) == BoundValue(g.nbsArea.hi)
    ensures Active(f, facet) == Active(g, facet) && Keep(f, facet, x) == Keep(g, facet, x)
  {
    if facet == NbsArea {
      var v := NumField(x, NbsAreaField);
      assert Keep(f, facet, x) == InRange(v, f.nbsArea);
      assert Keep(g, facet, x) == InRange(v, g.nbsArea);
    }
  }

  /** The `x` of the year tags and of the search tag. */
  function RemoveStartYearTag(p: Page): (q: Page)
    ensures Consistent(q) && q.filters == p.filters.(startYear := None)
    ensures KeepsContext(p, q)
  {
    Refresh(p.(filters := p.filters.(startYear := None)))
  }

  function RemoveEndYearTag(p: Page): (q: Page)
    ensures Consistent(q) && q.filters == p.filters.(endYear := None)
    ensures KeepsContext(p, q)
  {
    Refresh(p.(filters := p.filters.(endYear := None)))
  }

  function RemoveSearchTag(p: Page): (q: Page)
    ensures Consistent(q) && q.filters == p.filters.(search := "")
    ensures KeepsContext(p, q)
  {
    Refresh(p.(filters := p.filters.(search := "")))
  }

  // ----- comparison -----

  /** The compare checkbox of a result card. */
  function CompareChange(s: ComparingSet, id: string, checked: bool): (r: ComparingSet)
    ensures id in r <==> checked
    ensures forall v :: v != id ==> (v in r <==> v in s)
  {
    AddOrDelete(s, id, checked)
  }

  /** The popup's compare button: `has ? delete : add`. */
  function ToggleCompare(s: ComparingSet, id: string): (r: ComparingSet)
    ensures id in r <==> id !in s
    ensures forall v :: v != id ==> (v in r <==> v in s)
  {
    if id in s then s - {id} else s + {id}
  }

  /** The checkbox starts as `comparingSet.has(id)`, so a click toggles;
      toggling twice restores the set. */
  lemma CompareToggleTwice(s: ComparingSet, id: string)
    ensures CompareChange(s, id, id !in s) == ToggleCompare(s, id)
    ensures ToggleCompare(ToggleCompare(s, id), id) == s
  {
  }

  /** `updateCompareBar()`: the bar is shown iff two or more projects are
      selected. */
  predicate CompareBarVisible(s: ComparingSet) {
    |s| >= 2
  }

  lemma CompareBarAfterToggle(s: ComparingSet, id: string)
    ensures CompareBarVisible(ToggleCompare(s, id)) <==>
      (if id in s then |s| >= 3 else |s| >= 1)
  {
    if id in s {
      assert |s - {id}| == |s| - 1;
    } else {
      assert |s + {id}| == |s| + 1;
    }
  }

  // ----- bar chart -----

  /** `moveCountryFromChart(country)`: the country's membership flips; the
      cities are left as they are. */
  function MoveCountryFromChart(p: Page, country: string): (q: Page)
    ensures Consistent(q)
    ensures country in q.filters.countries <==> country !in p.filters.countries
    ensures forall c :: c != country ==> (c in q.filters.countries <==> c in p.filters.countries)
    ensures q.filters == p.filters.(countries := q.filters.countries)
    ensures KeepsContext(p, q)
  {
    var cs := p.filters.countries;
    var next := if country in cs then cs - {country} else cs + {country};
    Refresh(p.(filters := p.filters.(countries := next)))
  }

  lemma MoveCountryTwice(p: Page, country: string)
    ensures MoveCountryFromChart(MoveCountryFromChart(p, country), country).filters == p.filters
  {
    var q := MoveCountryFromChart(MoveCountryFromChart(p, country), country);
    assert q.filters.countries == p.filters.countries;
  }
}
