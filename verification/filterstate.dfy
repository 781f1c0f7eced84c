/** The dashboard's filter record and comparison set (the globals of
    `state.js`), held as an immutable value. */
module FilterState {
  import opened Wrappers
  import opened JsNumber

  /** One end of a range facet. The sliders store numbers; the NbS-area tag
      reset stores the slider's `min`/`max` attribute, which the DOM hands back
      as text. */
  datatype Bound = NumBound(num: Num) | TextBound(text: string)

  /** The number a bound stands for in `v >= bound` and `v <= bound`: a
      relational comparison between a number and a string converts the string
      with StringToNumber. */
  function BoundValue(b: Bound): (n: Num)
    ensures b.NumBound? ==> n == b.num
  {
    match b
    case NumBound(x) => x
    case TextBound(s) => ToNumber(s)
  }

  /** JavaScript `a === b` on two bounds: a number never equals a string, and
      NaN equals nothing. */
  predicate StrictEq(a: Bound, b: Bound) {
    match (a, b)
    case (NumBound(x), NumBound(y)) => !x.NaN? && x == y
    case (TextBound(s), TextBound(t)) => s == t
    case _ => false
  }

  /** A range facet: `[null, null]` before its slider is initialised, then a
      pair of bounds. */
  datatype Range = Unset | Bounds(lo: Bound, hi: Bound)

  /** Element-wise `===` of two ranges, as the active-tag test compares the
      current range with the slider's defaults. */
  predicate SameRange(a: Range, b: Range) {
    match (a, b)
    case (Unset, Unset) => true
    case (Bounds(l1, h1), Bounds(l2, h2)) => StrictEq(l1, l2) && StrictEq(h1, h2)
    case _ => false
  }

  /** `window.filters`. */
  datatype Filters = Filters(
    countries: set<string>,
    cities: set<string>,
    startYear: Option<Num>,
    endYear: Option<Num>,
    nbsArea: Range,
    previousArea: set<string>,
    nbsType: set<string>,
    totalCost: Range,
    funding: set<string>,
    envImpacts: set<string>,
    econImpacts: set<string>,
    search: string)

  /** The filter record the page starts with: every set empty, no year, both
      ranges unset, no search text. */
  const Initial := Filters({}, {}, None, None, Unset, {}, {}, Unset, {}, {}, {}, "")

  /** `comparingSet` is a set of project names (`intervention_name`). */
  type ComparingSet = set<string>

  const InitialComparing: ComparingSet := {}
}
