/** The option lists of the filter panels (the data half of the
    `render*Options` functions in filters.js): the distinct values a facet can
    take in the data, sorted. */
module FacetOptions {
  import opened Wrappers
  import opened Seqs
  import opened JsNumber
  import opened Ordering
  import opened Records
  import opened FilterEngine

  /** `[...new Set(xs)].sort()` for strings. */
  function SortStrings(xs: seq<string>): (r: seq<string>)
    ensures StrictlySorted(r, StrLt)
    ensures forall y :: y in r <==> y in xs
  {
    StrLtIsStrictTotalOrder();
    SortDistinct(xs, StrLt)
  }

  /** The values `field` takes in the records that have it. */
  function PresentValues(data: seq<Record>, field: string): (vs: seq<string>)
    ensures forall v :: v in vs <==> exists i :: 0 <= i < |data| && Get(data[i], field) == Some(v)
  {
    if |data| == 0 then []
    else
      var rest := PresentValues(data[1..], field);
      assert forall i :: 1 <= i < |data| ==> data[1..][i - 1] == data[i];
      (if field in data[0] then [data[0][field]] else []) + rest
  }

  /** Some record lacks `field`, so `d[field]` is `undefined`. */
  predicate SomeAbsent(data: seq<Record>, field: string) {
    exists i :: 0 <= i < |data| && field !in data[i]
  }

  /** `[...new Set(data.map(d => d.country))].sort()`: every distinct country,
      the empty text and "Unknown" included, in increasing order; `sort`
      places `undefined` after every string, so a record without the column
      adds one `None` at the end. */
  function CountryOptions(data: seq<Record>): (opts: seq<Option<string>>)
    ensures forall i :: 0 <= i < |opts| - 1 ==> opts[i].Some?
    ensures forall i, j :: 0 <= i < j < |opts| && opts[j].Some? ==> StrLt(opts[i].value, opts[j].value)
    ensures forall c :: Some(c) in opts <==> exists i :: 0 <= i < |data| && Get(data[i], Country) == Some(c)
    ensures None in opts <==> SomeAbsent(data, Country)
  {
    SortedThenAbsent(SortStrings(PresentValues(data, Country)), SomeAbsent(data, Country))
  }

  /** The sorted texts, then one `None` when some record lacks the column. */
  function SortedThenAbsent(present: seq<string>, absent: bool): (opts: seq<Option<string>>)
    requires StrictlySorted(present, StrLt)
    ensures forall i :: 0 <= i < |opts| - 1 ==> opts[i].Some?
    ensures forall i, j :: 0 <= i < j < |opts| && opts[j].Some? ==> StrLt(opts[i].value, opts[j].value)
    ensures forall c :: Some(c) in opts <==> c in present
    ensures None in opts <==> absent
  {
    var wrapped := Map(present, (c: string) => Some(c));
    assert forall c :: Some(c) in wrapped <==> c in present by {
      forall c
        ensures Some(c) in wrapped <==> c in present
      {
        if c in present {
          var i :| 0 <= i < |present| && present[i] == c;
          assert wrapped[i] == Some(c);
        }
      }
    }
    wrapped + (if absent then [None] else [])
  }

  /** The values of `field` that are present, non-empty and not "Unknown". */
  function KnownValues(data: seq<Record>, field: string): (vs: seq<string>)
    ensures forall v :: v in vs <==>
      (v != "" && v != Unknown && exists i :: 0 <= i < |data| && Get(data[i], field) == Some(v))
  {
    if |data| == 0 then []
    else
      var rest := KnownValues(data[1..], field);
      assert forall i :: 1 <= i < |data| ==> data[1..][i - 1] == data[i];
      (if KnownText(Get(data[0], field)) then [data[0][field]] else []) + rest
  }

  /** `[...new Set(data.map(d => d[field]))].filter(d => d && d !== "Unknown").sort()`,
      the option list of cities, previous-area types and funding sources. */
  function KnownOptions(data: seq<Record>, field: string): (opts: seq<string>)
    ensures StrictlySorted(opts, StrLt)
    ensures forall v :: v in opts <==>
      (v != "" && v != Unknown && exists i :: 0 <= i < |data| && Get(data[i], field) == Some(v))
  {
    SortStrings(KnownValues(data, field))
  }

  /** `t` is one of the trimmed `;`-tags of a known `field` of `r`. */
  predicate HasTag(r: Record, field: string, t: string) {
    KnownText(Get(r, field)) && t in Tags(r[field])
  }

  /** The tags `HasTag` gives a record, in order. */
  function OwnTags(r: Record, field: string): (ts: seq<string>)
    ensures forall t :: t in ts <==> HasTag(r, field, t)
  {
    if KnownText(Get(r, field)) then Tags(r[field]) else []
  }

  /** Every tag of every record whose `field` is known. */
  function AllTags(data: seq<Record>, field: string): (ts: seq<string>)
    ensures forall t :: t in ts <==> exists i :: 0 <= i < |data| && HasTag(data[i], field, t)
  {
    if |data| == 0 then []
    else
      var rest := AllTags(data[1..], field);
      AllTagsStep(data, field, rest);
      OwnTags(data[0], field) + rest
  }

  lemma AllTagsStep(data: seq<Record>, field: string, rest: seq<string>)
    requires |data| > 0
    requires forall t :: t in rest <==> exists i :: 0 <= i < |data[1..]| && HasTag(data[1..][i], field, t)
    ensures forall t :: t in OwnTags(data[0], field) + rest <==> exists i :: 0 <= i < |data| && HasTag(data[i], field, t)
  {
    forall t
      ensures t in OwnTags(data[0], field) + rest <==> exists i :: 0 <= i < |data| && HasTag(data[i], field, t)
    {
      if t in rest {
        var i :| 0 <= i < |data[1..]| && HasTag(data[1..][i], field, t);
        assert data[1..][i] == data[i + 1];
      }
      if exists i :: 0 <= i < |data| && HasTag(data[i], field, t) {
        var i :| 0 <= i < |data| && HasTag(data[i], field, t);
        if i > 0 {
          assert data[1..][i - 1] == data[i];
        }
      }
    }
  }

  /** The option list of a multi-tag facet (NbS types, environmental and
      economic impacts): the sorted union of the trimmed `;`-separated tags of
      the records whose field is known. */
  function TagOptions(data: seq<Record>, field: string): (opts: seq<string>)
    ensures StrictlySorted(opts, StrLt)
    ensures forall t :: t in opts <==> exists i :: 0 <= i < |data| && HasTag(data[i], field, t)
  {
    SortStrings(AllTags(data, field))
  }

  /** `+r[field]` is the number `w`. */
  predicate HasNumber(r: Record, field: string, w: Num) {
    NumField(r, field) == w
  }

  /** `[+r[field]]` when that is a number, else nothing. */
  function OwnNumber(r: Record, field: string): (vs: seq<Num>)
    ensures forall w :: w in vs <==> !w.NaN? && HasNumber(r, field, w)
  {
    var v := NumField(r, field);
    if !v.NaN? then [v] else []
  }

  /** `data.map(d => +d[field]).filter(v => !isNaN(v))`. */
  function NumericValues(data: seq<Record>, field: string): (vs: seq<Num>)
    ensures forall v :: v in vs ==> !v.NaN?
    ensures forall v :: v in vs <==> !v.NaN? && exists i :: 0 <= i < |data| && HasNumber(data[i], field, v)
  {
    if |data| == 0 then []
    else
      var rest := NumericValues(data[1..], field);
      NumericValuesStep(data, field, rest);
      OwnNumber(data[0], field) + rest
  }

  lemma NumericValuesStep(data: seq<Record>, field: string, rest: seq<Num>)
    requires |data| > 0
    requires forall w :: w in rest <==> !w.NaN? && exists i :: 0 <= i < |data[1..]| && HasNumber(data[1..][i], field, w)
    ensures forall w :: w in OwnNumber(data[0], field) + rest <==>
      !w.NaN? && exists i :: 0 <= i < |data| && HasNumber(data[i], field, w)
  {
    forall w
      ensures w in OwnNumber(data[0], field) + rest <==> !w.NaN? && exists i :: 0 <= i < |data| && HasNumber(data[i], field, w)
    {
      if w in rest {
        RestNumber(data, field, w);
      }
      if !w.NaN? && exists i :: 0 <= i < |data| && HasNumber(data[i], field, w) {
        var i :| 0 <= i < |data| && HasNumber(data[i], field, w);
        if i > 0 {
          assert data[1..][i - 1] == data[i];
        }
      }
    }
  }

  lemma RestNumber(data: seq<Record>, field: string, w: Num)
    requires |data| > 0
    requires exists i :: 0 <= i < |data[1..]| && HasNumber(data[1..][i], field, w)
    ensures exists i :: 0 <= i < |data| && HasNumber(data[i], field, w)
  {
    var i :| 0 <= i < |data[1..]| && HasNumber(data[1..][i], field, w);
    assert data[1..][i] == data[i + 1];
  }

  /** Without a numeric value in the data there is nothing to list. */
  lemma {:induction false} NoNumericValues(data: seq<Record>, field: string)
    requires forall i :: 0 <= i < |data| ==> NumField(data[i], field).NaN?
    ensures NumericValues(data, field) == []
  {
    if |data| > 0 {
      assert forall i :: 1 <= i < |data| ==> data[1..][i - 1] == data[i];
      NoNumericValues(data[1..], field);
    }
  }

  /** The start- or end-year options: the distinct numeric years, in
      increasing order. */
  function YearOptions(data: seq<Record>, field: string): (years: seq<Num>)
    ensures StrictlySorted(years, NumLt)
    ensures forall y :: y in years <==> !y.NaN? && exists i :: 0 <= i < |data| && HasNumber(data[i], field, y)
    ensures forall i, j :: 0 <= i < j < |years| ==> Le(years[i], years[j]) && years[i] != years[j]
  {
    NumLtIsStrictTotalOrder();
    SortDistinct(NumericValues(data, field), NumLt)
  }
}
