/** `applyFilters` (filters.js): the whole data set narrowed by every active
    facet in a fixed order. The facets are independent, so the outcome is a
    single order-preserving filter by their conjunction. */
module FilterEngine {
  import opened Wrappers
  import opened Seqs
  import opened JsString
  import opened JsNumber
  import opened Records
  import opened FilterState

  /** The fields the search box looks in, in the order they are joined. */
  const SearchFields: seq<string> :=
    [InterventionName, Country, City, NbsTypeField, PreviousAreaType, SourcesOfFunding]

  /** `fields.map(f => r[f]).filter(Boolean)`. */
  function TruthyValues(r: Record, fields: seq<string>): (vs: seq<string>)
    ensures |vs| <= |fields|
    ensures forall v :: v in vs ==> v != ""
    ensures forall v :: v in vs ==> exists i :: 0 <= i < |fields| && Get(r, fields[i]) == Some(v)
    ensures forall i :: 0 <= i < |fields| && Truthy(Get(r, fields[i])) ==> Get(r, fields[i]).value in vs
  {
    if |fields| == 0 then []
    else
      var rest := TruthyValues(r, fields[1..]);
      assert forall i :: 1 <= i < |fields| ==> fields[1..][i - 1] == fields[i];
      (if Truthy(Get(r, fields[0])) then [r[fields[0]]] else []) + rest
  }

  /** The lower-cased, space-joined text the search term is looked up in. */
  function SearchText(r: Record): (t: string)
    ensures forall i :: 0 <= i < |t| ==> !('A' <= t[i] <= 'Z')
  {
    Lower(Join(TruthyValues(r, SearchFields), " "))
  }

  predicate MatchesSearch(r: Record, term: string) {
    Includes(SearchText(r), term)
  }

  /** `set.has(v)`: an absent field is never in a set of strings. */
  predicate InSet(s: set<string>, v: Option<string>) {
    v.Some? && v.value in s
  }

  /** A field that is present, non-empty and not the "Unknown" sentinel. */
  predicate KnownText(v: Option<string>) {
    Truthy(v) && v.value != Unknown
  }

  /** `v.split(";").map(t => t.trim())`. */
  function Tags(v: string): (ts: seq<string>)
    ensures |ts| >= 1
    ensures forall i :: 0 <= i < |ts| ==> Trim(ts[i]) == ts[i]
  {
    var pieces := Split(v, ';');
    var ts := Map(pieces, Trim);
    forall i | 0 <= i < |ts|
      ensures Trim(ts[i]) == ts[i]
    {
      TrimIdempotent(pieces[i]);
    }
    ts
  }

  lemma TrimIdempotent(s: string)
    ensures Trim(Trim(s)) == Trim(s)
  {
    TrimNoSpace(Trim(s));
  }

  /** A multi-tag facet keeps a known field when one of its tags is selected. */
  predicate MatchesTags(s: set<string>, v: Option<string>) {
    KnownText(v) && exists t :: t in Tags(v.value) && t in s
  }

  /** `v >= lo && v <= hi`; an unset range admits everything. */
  predicate InRange(v: Num, range: Range) {
    match range
    case Unset => true
    case Bounds(lo, hi) => Ge(v, BoundValue(lo)) && Le(v, BoundValue(hi))
  }

  datatype Facet =
    | Search | Countries | Cities | StartYear | EndYear | NbsArea
    | PreviousArea | NbsType | TotalCost | Funding | EnvImpacts | EconImpacts

  /** The order in which `applyFilters` narrows the data. */
  const FacetOrder: seq<Facet> :=
    [Search, Countries, Cities, StartYear, EndYear, NbsArea,
     PreviousArea, NbsType, TotalCost, Funding, EnvImpacts, EconImpacts]

  /** The guard under which `applyFilters` applies a facet. */
  predicate Active(f: Filters, facet: Facet) {
    match facet
    case Search => f.search != ""
    case Countries => |f.countries| > 0
    case Cities => |f.cities| > 0
    case StartYear => f.startYear.Some?
    case EndYear => f.endYear.Some?
    case NbsArea => f.nbsArea.Bounds?
    case PreviousArea => |f.previousArea| > 0
    case NbsType => |f.nbsType| > 0
    case TotalCost => f.totalCost.Bounds?
    case Funding => |f.funding| > 0
    case EnvImpacts => |f.envImpacts| > 0
    case EconImpacts => |f.econImpacts| > 0
  }

  /** The record test a facet applies when it is active. */
  predicate Keep(f: Filters, facet: Facet, r: Record) {
    match facet
    case Search => MatchesSearch(r, f.search)
    case Countries => InSet(f.countries, Get(r, Country))
    case Cities => InSet(f.cities, Get(r, City))
    case StartYear =>
      (match f.startYear
       case None => true
       case Some(y) => Ge(NumField(r, BeginYearField), y))
    case EndYear =>
      (match f.endYear
       case None => true
       case Some(y) => Le(NumField(r, EndYearField), y))
    case NbsArea => InRange(NumField(r, NbsAreaField), f.nbsArea)
    case PreviousArea => InSet(f.previousArea, Get(r, PreviousAreaType))
    case NbsType => MatchesTags(f.nbsType, Get(r, NbsTypeField))
    case TotalCost =>
      var cost := NumField(r, TotalCostField);
      !cost.NaN? && InRange(cost, f.totalCost)
    case Funding => KnownText(Get(r, SourcesOfFunding)) && r[SourcesOfFunding] in f.funding
    case EnvImpacts => MatchesTags(f.envImpacts, Get(r, EnvironmentalImpacts))
    case EconImpacts => MatchesTags(f.econImpacts, Get(r, EconomicImpacts))
  }

  /** The order-free reading of the filter: a record passes when every
      active facet keeps it. */
  ghost predicate Admits(f: Filters, r: Record) {
    forall facet :: Active(f, facet) ==> Keep(f, facet, r)
  }

  /** Every active facet among `facets` keeps `r`. */
  ghost predicate AdmitsAll(f: Filters, facets: seq<Facet>, r: Record) {
    forall k :: 0 <= k < |facets| ==> Active(f, facets[k]) ==> Keep(f, facets[k], r)
  }

  /** `d => <facet test>`, the callback handed to `filter`. */
  function KeepFn(f: Filters, facet: Facet): Record -> bool {
    x => Keep(f, facet, x)
  }

  ghost function AdmitsFn(f: Filters): Record -> bool {
    x => Admits(f, x)
  }

  ghost function AdmitsAllFn(f: Filters, facets: seq<Facet>): Record -> bool {
    x => AdmitsAll(f, facets, x)
  }

  /** The data after the active facets among `facets`, applied in turn. */
  function Narrow(data: seq<Record>, f: Filters, facets: seq<Facet>): (r: seq<Record>)
    ensures IsSubsequence(r, data)
    decreases |facets|
  {
    if |facets| == 0 then
      SubsequenceRefl(data);
      data
    else
      var facet := facets[0];
      var step := if Active(f, facet) then Filter(data, KeepFn(f, facet)) else data;
      var r := Narrow(step, f, facets[1..]);
      SubsequenceRefl(data);
      SubsequenceTrans(r, step, data);
      r
  }

  /** `applyFilters()`: `filteredData` computed from `wholeData`. */
  function ApplyFilters(whole: seq<Record>, f: Filters): (r: seq<Record>)
    ensures IsSubsequence(r, whole)
    ensures forall x :: x in r <==> x in whole && Admits(f, x)
  {
    NarrowIsFilter(whole, f, FacetOrder);
    AdmitsAllFacetOrder(f);
    Narrow(whole, f, FacetOrder)
  }

  lemma {:induction false} SubsequenceTrans(a: seq<Record>, b: seq<Record>, c: seq<Record>)
    requires IsSubsequence(a, b) && IsSubsequence(b, c)
    ensures IsSubsequence(a, c)
    decreases |c|
  {
    if |a| > 0 && |c| > 0 {
      if |b| > 0 && b[0] == c[0] && IsSubsequence(b[1..], c[1..]) {
        if a[0] == b[0] && IsSubsequence(a[1..], b[1..]) {
          SubsequenceTrans(a[1..], b[1..], c[1..]);
        } else {
          SubsequenceTrans(a, b[1..], c[1..]);
        }
      } else {
        SubsequenceTrans(a, b, c[1..]);
      }
    }
  }

  /** Narrowing facet by facet is one filter by the conjunction of the
      active facets. */
  lemma {:induction false} NarrowIsFilter(data: seq<Record>, f: Filters, facets: seq<Facet>)
    ensures Narrow(data, f, facets) == Filter(data, AdmitsAllFn(f, facets))
    decreases |facets|
  {
    if |facets| == 0 {
      FilterAll(data, AdmitsAllFn(f, facets));
    } else {
      var facet := facets[0];
      var rest := facets[1..];
      var p := KeepFn(f, facet);
      var q := AdmitsAllFn(f, rest);
      var all := AdmitsAllFn(f, facets);
      var step := if Active(f, facet) then Filter(data, p) else data;
      NarrowIsFilter(step, f, rest);
      assert Narrow(data, f, facets) == Filter(step, q);
      forall x
        ensures all(x) == ((Active(f, facet) ==> p(x)) && q(x))
      {
        AdmitsAllCons(f, facets, x);
      }
      if Active(f, facet) {
        FilterFilter(data, p, q);
        FilterExt(data, And(p, q), all);
      } else {
        FilterExt(data, q, all);
      }
    }
  }

  lemma AdmitsAllCons(f: Filters, facets: seq<Facet>, x: Record)
    requires |facets| > 0
    ensures AdmitsAll(f, facets, x)
        == ((Active(f, facets[0]) ==> Keep(f, facets[0], x)) && AdmitsAll(f, facets[1..], x))
  {
    assert forall k :: 1 <= k < |facets| ==> facets[1..][k - 1] == facets[k];
  }

  /** `FacetOrder` lists every facet. */
  lemma AdmitsAllFacetOrder(f: Filters)
    ensures forall r :: AdmitsAll(f, FacetOrder, r) <==> Admits(f, r)
  {
    forall r | AdmitsAll(f, FacetOrder, r)
      ensures Admits(f, r)
    {
      forall facet | Active(f, facet)
        ensures Keep(f, facet, r)
      {
        var k := match facet
          case Search => 0 case Countries => 1 case Cities => 2 case StartYear => 3
          case EndYear => 4 case NbsArea => 5 case PreviousArea => 6 case NbsType => 7
          case TotalCost => 8 case Funding => 9 case EnvImpacts => 10 case EconImpacts => 11;
        assert FacetOrder[k] == facet;
      }
    }
  }

  /** `applyFilters` is one pass over `wholeData` keeping exactly the records
      every active facet keeps, duplicates and order included. */
  lemma ApplyFiltersIsConjunction(whole: seq<Record>, f: Filters)
    ensures ApplyFilters(whole, f) == Filter(whole, AdmitsFn(f))
  {
    NarrowIsFilter(whole, f, FacetOrder);
    AdmitsAllFacetOrder(f);
    FilterExt(whole, AdmitsAllFn(f, FacetOrder), AdmitsFn(f));
  }

  /** With no facet active, and in particular in the initial state,
      `filteredData` is `wholeData`. */
  lemma NoActiveFacetKeepsAll(whole: seq<Record>, f: Filters)
    requires forall facet :: !Active(f, facet)
    ensures ApplyFilters(whole, f) == whole
  {
    ApplyFiltersIsConjunction(whole, f);
    FilterAll(whole, AdmitsFn(f));
  }

  lemma InitialKeepsAll(whole: seq<Record>)
    ensures ApplyFilters(whole, Initial) == whole
  {
    forall facet
      ensures !Active(Initial, facet)
    {
    }
    NoActiveFacetKeepsAll(whole, Initial);
  }

  /** When `facet` is the only active one, a record is kept iff it is in the
      data and the facet keeps it. */
  lemma OnlyFacet(whole: seq<Record>, f: Filters, facet: Facet, x: Record)
    requires forall g :: g != facet ==> !Active(f, g)
    ensures x in ApplyFilters(whole, f) <==> x in whole && (Active(f, facet) ==> Keep(f, facet, x))
  {
    if x in whole && (Active(f, facet) ==> Keep(f, facet, x)) {
      assert Admits(f, x);
    }
  }

  /** The search facet alone keeps a record iff the term is empty or occurs
      in the record's search text. */
  lemma SearchFacet(whole: seq<Record>, term: string, x: Record)
    ensures x in ApplyFilters(whole, Initial.(search := term))
        <==> x in whole && (term == "" || Includes(SearchText(x), term))
  {
    var f := Initial.(search := term);
    forall g | g != Search
      ensures !Active(f, g)
    {
    }
    OnlyFacet(whole, f, Search, x);
  }

  /** The search text is lower-cased, so a record survives an active search
      only when the term has no ASCII capital letter. */
  lemma SearchTermLowerCase(whole: seq<Record>, f: Filters, x: Record)
    requires x in ApplyFilters(whole, f)
    ensures forall i :: 0 <= i < |f.search| ==> !('A' <= f.search[i] <= 'Z')
  {
    if f.search != "" {
      KeptByActive(whole, f, Search, x);
      SearchKeep(f, x);
      IncludedInLowerCase(SearchText(x), f.search);
    }
  }

  /** A pattern found in a text without capitals has no capitals either. */
  lemma IncludedInLowerCase(t: string, pat: string)
    requires Includes(t, pat)
    requires forall i :: 0 <= i < |t| ==> !('A' <= t[i] <= 'Z')
    ensures forall i :: 0 <= i < |pat| ==> !('A' <= pat[i] <= 'Z')
  {
    var k :| 0 <= k <= |t| - |pat| && OccursAt(t, pat, k);
    forall i | 0 <= i < |pat|
      ensures !('A' <= pat[i] <= 'Z')
    {
      assert t[k + i] == pat[i];
    }
  }

  /** While the NbS-type facet is the only active one, a record is kept iff
      it names a type and one of its `;`-separated, trimmed types is
      selected. */
  lemma NbsTypeFacet(whole: seq<Record>, f: Filters, x: Record)
    requires forall g :: g != NbsType ==> !Active(f, g)
    requires |f.nbsType| > 0
    ensures x in ApplyFilters(whole, f)
        <==> x in whole && KnownText(Get(x, NbsTypeField))
             && exists t :: t in Tags(x[NbsTypeField]) && t in f.nbsType
  {
    OnlyFacet(whole, f, NbsType, x);
    NbsTypeKeep(f, x);
  }

  lemma NbsTypeKeep(f: Filters, x: Record)
    requires |f.nbsType| > 0
    ensures Active(f, NbsType)
    ensures Keep(f, NbsType, x) <==>
      (KnownText(Get(x, NbsTypeField)) && exists t :: t in Tags(x[NbsTypeField]) && t in f.nbsType)
  {
  }

  /** A record that survives the filter passes every active facet. */
  lemma KeptByActive(whole: seq<Record>, f: Filters, facet: Facet, x: Record)
    requires x in ApplyFilters(whole, f) && Active(f, facet)
    ensures Keep(f, facet, x)
  {
  }

  lemma SearchKeep(f: Filters, x: Record)
    requires Keep(f, Search, x)
    ensures Includes(SearchText(x), f.search)
  {
  }

  /** The sentinel exclusions: while a multi-tag facet or the funding facet
      is active, every kept record has a present, non-empty, non-"Unknown"
      value in that field (even when "Unknown" itself is selected), and while
      the cost range is set every kept record has a numeric cost. */
  lemma KeptRecordsHaveKnownValues(whole: seq<Record>, f: Filters, x: Record)
    requires x in ApplyFilters(whole, f)
    ensures |f.nbsType| > 0 ==> KnownText(Get(x, NbsTypeField))
    ensures |f.envImpacts| > 0 ==> KnownText(Get(x, EnvironmentalImpacts))
    ensures |f.econImpacts| > 0 ==> KnownText(Get(x, EconomicImpacts))
    ensures |f.funding| > 0 ==> KnownText(Get(x, SourcesOfFunding))
    ensures f.totalCost.Bounds? ==> !NumField(x, TotalCostField).NaN?
  {
    assert Active(f, NbsType) ==> Keep(f, NbsType, x);
    assert Active(f, EnvImpacts) ==> Keep(f, EnvImpacts, x);
    assert Active(f, EconImpacts) ==> Keep(f, EconImpacts, x);
    assert Active(f, Funding) ==> Keep(f, Funding, x);
    assert Active(f, TotalCost) ==> Keep(f, TotalCost, x);
  }

  /** Range facets are inclusive at both ends: while the NbS-area range
      `[lo, hi]` is the only active facet, a record is kept iff its area is a
      number between the bounds, the bounds themselves included. */
  lemma NbsAreaRangeInclusive(whole: seq<Record>, f: Filters, lo: real, hi: real, x: Record)
    requires forall g :: g != NbsArea ==> !Active(f, g)
    requires f.nbsArea == Bounds(NumBound(Finite(lo)), NumBound(Finite(hi)))
    ensures var area := NumField(x, NbsAreaField);
      x in ApplyFilters(whole, f) <==> x in whole && area.Finite? && lo <= area.value <= hi
  {
    OnlyFacet(whole, f, NbsArea, x);
    NbsAreaKeep(f, lo, hi, x);
  }

  lemma NbsAreaKeep(f: Filters, lo: real, hi: real, x: Record)
    requires f.nbsArea == Bounds(NumBound(Finite(lo)), NumBound(Finite(hi)))
    ensures var area := NumField(x, NbsAreaField);
      Active(f, NbsArea) && (Keep(f, NbsArea, x) <==> area.Finite? && lo <= area.value <= hi)
  {
    InRangeFinite(NumField(x, NbsAreaField), lo, hi);
  }

  lemma InRangeFinite(v: Num, lo: real, hi: real)
    ensures InRange(v, Bounds(NumBound(Finite(lo)), NumBound(Finite(hi))))
        <==> v.Finite? && lo <= v.value <= hi
  {
  }

  /** Start and end years are thresholds: a kept record's begin year is a
      number at least the start year and its end year a number at most the
      end year. */
  lemma YearThresholds(whole: seq<Record>, f: Filters, x: Record)
    requires x in ApplyFilters(whole, f)
    ensures f.startYear.Some? ==> Ge(NumField(x, BeginYearField), f.startYear.value)
    ensures f.endYear.Some? ==> Le(NumField(x, EndYearField), f.endYear.value)
    ensures f.startYear.Some? ==> !NumField(x, BeginYearField).NaN?
    ensures f.endYear.Some? ==> !NumField(x, EndYearField).NaN?
  {
    assert Active(f, StartYear) ==> Keep(f, StartYear, x);
    assert Active(f, EndYear) ==> Keep(f, EndYear, x);
  }
}
