/** The discrete half of the content-based recommender
    (`recommenderSystem/model.py`): the result-count clamp, the funding tag
    splitter, the partition of the selected features, and the one-hot and
    multi-hot encodings of the project table and of the user's preferences.
    The numeric columns (median fill, log scaling, standardising) and the
    cosine ranking are floating-point work and are not modelled. */
module RecommenderModel {
  import opened Wrappers
  import opened Seqs
  import opened JsString
  import opened JsNumber
  import opened Ordering
  import opened PyText
  import FacetOptions

  // ----- result count -----

  /** `max(3, min(10, n))`. */
  function Clamp(n: int): (k: int)
    ensures 3 <= k <= 10
    ensures 3 <= n <= 10 ==> k == n
    ensures n < 3 ==> k == 3
    ensures n > 10 ==> k == 10
  {
    if n < 3 then 3 else if n > 10 then 10 else n
  }

  /** Clamping is idempotent and keeps the order of its arguments. */
  lemma ClampIdempotentMonotone(n: int, m: int)
    ensures Clamp(Clamp(n)) == Clamp(n)
    ensures n <= m ==> Clamp(n) <= Clamp(m)
  {
  }

  /** `int(t)` on a stripped decimal text: an optional sign, then digits. */
  function ParseInt(t: string): (r: Option<int>)
    ensures r.Some? <==> (|t| > 0 && AllDigits(t)) || (|t| > 1 && t[0] in "+-" && AllDigits(t[1..]))
    ensures |t| > 0 && AllDigits(t) ==> r == Some(DecimalValue(t))
    ensures |t| > 1 && t[0] == '-' && AllDigits(t[1..]) ==> r.Some? && r.value == -(DecimalValue(t[1..]) as int)
    ensures |t| > 1 && t[0] == '+' && AllDigits(t[1..]) ==> r == Some(DecimalValue(t[1..]))
  {
    if |t| > 0 && (t[0] == '+' || t[0] == '-') then
      var digits := t[1..];
      if |digits| > 0 && AllDigits(digits) then
        var v: int := DecimalValue(digits);
        Some(if t[0] == '-' then -v else v)
      else None
    else if |t| > 0 && AllDigits(t) then Some(DecimalValue(t))
    else None
  }

  /** The command-line helper's answer to "How many items to return?": the
      stripped answer read as an integer, 5 when it is not one, clamped to
      3..10. */
  function ChooseK(raw: string): (k: int)
    ensures 3 <= k <= 10
    ensures ParseInt(Strip(raw)).None? ==> k == 5
    ensures ParseInt(Strip(raw)).Some? ==> k == Clamp(ParseInt(Strip(raw)).value)
  {
    var p := ParseInt(Strip(raw));
    Clamp(if p.Some? then p.value else 5)
  }

  /** Typing a count in decimal gets that count, clamped. */
  lemma ChooseKTyped(n: nat)
    ensures ChooseK(NatToString(n)) == Clamp(n)
  {
    var s := NatToString(n);
    assert Stripped(s) by {
      assert IsDigit(s[0]) && IsDigit(s[|s| - 1]);
    }
    DecimalValueOfNatToString(n);
    assert IsDigit(s[0]);
  }

  // ----- the tag splitter -----

  /** A cell of the project table: missing, a float NaN, or text. */
  datatype Cell = Null | NaNCell | Str(s: string)

  /** A tag the splitter can produce: non-empty, stripped, separator-free. */
  predicate IsTag(t: string) {
    t != "" && Stripped(t) && NoTagSep(t)
  }

  function NonEmptyText(t: string): bool {
    t != ""
  }

  /** `_split_multivalue(text)`: no tags for a missing cell, NaN, a blank
      text or any-case "unknown"; otherwise the stripped, non-empty pieces
      between runs of newlines, semicolons and commas. */
  function SplitMultivalue(cell: Cell): (tags: seq<string>)
    ensures !cell.Str? ==> tags == []
    ensures cell.Str? && (Strip(cell.s) == "" || Lower(Strip(cell.s)) == "unknown") ==> tags == []
    ensures forall t :: t in tags ==> IsTag(t)
    ensures cell.Str? ==> forall t, c :: t in tags && c in t ==> c in cell.s
  {
    match cell
    case Str(text) =>
      var s := Strip(text);
      if s == "" || Lower(s) == "unknown" then []
      else
        var segs := Segments(s);
        var stripped := Map(segs, Strip);
        var tags := Filter(stripped, NonEmptyText);
        assert forall t :: t in tags ==> IsTag(t) && forall c :: c in t ==> c in text by {
          forall t | t in tags
            ensures IsTag(t) && forall c :: c in t ==> c in text
          {
            var k :| 0 <= k < |stripped| && stripped[k] == t;
            assert t == Strip(segs[k]);
          }
        }
        tags
    case _ => []
  }

  lemma JoinedTagsStripped(ts: seq<string>)
    requires |ts| >= 1 && forall k :: 0 <= k < |ts| ==> IsTag(ts[k])
    ensures Join(ts, ";") != "" && Strip(Join(ts, ";")) == Join(ts, ";")
  {
    assert IsTag(ts[0]) && IsTag(ts[|ts| - 1]);
    JoinStripped(ts, ";");
  }

  lemma StripTags(ts: seq<string>)
    requires forall k :: 0 <= k < |ts| ==> IsTag(ts[k])
    ensures Map(ts, Strip) == ts
  {
    forall k | 0 <= k < |ts|
      ensures Map(ts, Strip)[k] == ts[k]
    {
      assert Stripped(ts[k]);
    }
  }

  /** Tags joined with `;` split back into the same tags, unless the joined
      text is the single word "unknown" in some letter case. */
  lemma SplitJoinedTags(ts: seq<string>)
    requires |ts| >= 1 && forall k :: 0 <= k < |ts| ==> IsTag(ts[k])
    requires Lower(Join(ts, ";")) != "unknown"
    ensures SplitMultivalue(Str(Join(ts, ";"))) == ts
  {
    JoinedTagsStripped(ts);
    SegmentsJoin(ts);
    StripTags(ts);
    FilterAll(ts, NonEmptyText);
  }

  // ----- feature partition -----

  const Country := "country"
  const Status := "status"
  const Duration := "duration"
  const NbsArea := "nbs_area"
  const PreviousAreaType := "previous_area_type"
  const TotalCost := "total_cost"
  const Funding := "sources_of_funding"

  /** The keys of `FEATURE_CHOICES`. */
  const FeatureKeys: seq<string> := [Country, Status, Duration, NbsArea, PreviousAreaType, TotalCost, Funding]
  const NumericAllowed: seq<string> := [NbsArea, TotalCost, Duration]
  const CategoricalAllowed: seq<string> := [Country, Status, PreviousAreaType]

  function IsNumericColumn(c: string): bool {
    c in NumericAllowed
  }

  function IsCategoricalColumn(c: string): bool {
    c in CategoricalAllowed
  }

  datatype Columns = Columns(numeric: seq<string>, categorical: seq<string>, useFunding: bool)

  /** `numeric_cols`, `categorical_cols` and `use_funding` in `fit`: the
      selected features within each allow-list, in selection order. */
  function Partition(selected: seq<string>): (cols: Columns)
    ensures IsSubsequence(cols.numeric, selected) && IsSubsequence(cols.categorical, selected)
    ensures forall c :: c in cols.numeric <==> c in selected && c in NumericAllowed
    ensures forall c :: c in cols.categorical <==> c in selected && c in CategoricalAllowed
    ensures cols.useFunding <==> Funding in selected
  {
    Columns(Filter(selected, IsNumericColumn), Filter(selected, IsCategoricalColumn), Funding in selected)
  }

  /** Each selected feature of the menu is used in exactly one way. */
  lemma PartitionExact(selected: seq<string>)
    ensures var cols := Partition(selected);
      forall c :: c in selected && c in FeatureKeys ==>
        && (c in cols.numeric || c in cols.categorical || (c == Funding && cols.useFunding))
        && !(c in cols.numeric && c in cols.categorical)
        && (c == Funding ==> c !in cols.numeric && c !in cols.categorical)
  {
  }

  // ----- the project table -----

  type Row = map<string, Cell>

  /** A data frame: its column names and its rows. */
  datatype Frame = Frame(columns: set<string>, rows: seq<Row>)

  function CellOf(r: Row, c: string): Cell {
    if c in r then r[c] else Null
  }

  /** `work[c].fillna("Unknown").astype(str)` on one row. */
  function CategoryOf(r: Row, c: string): string {
    match CellOf(r, c)
    case Str(s) => s
    case _ => "Unknown"
  }

  function Category(c: string): Row -> string {
    r => CategoryOf(r, c)
  }

  /** `sorted(work[c].astype(str).unique())`. */
  function Levels(rows: seq<Row>, c: string): (levels: seq<string>)
    ensures StrictlySorted(levels, StrLt)
    ensures forall v :: v in levels <==> exists i :: 0 <= i < |rows| && CategoryOf(rows[i], c) == v
  {
    var vs := Map(rows, Category(c));
    assert forall v :: v in vs <==> exists i :: 0 <= i < |rows| && CategoryOf(rows[i], c) == v by {
      forall v
        ensures v in vs <==> exists i :: 0 <= i < |rows| && CategoryOf(rows[i], c) == v
      {
        if exists i :: 0 <= i < |rows| && CategoryOf(rows[i], c) == v {
          var i :| 0 <= i < |rows| && CategoryOf(rows[i], c) == v;
          assert vs[i] == v;
        }
      }
    }
    FacetOptions.SortStrings(vs)
  }

  /** The funding tags of one row. */
  function RowTags(r: Row): seq<string> {
    SplitMultivalue(CellOf(r, Funding))
  }

  function AllRowTags(rows: seq<Row>): (ts: seq<string>)
    ensures forall t :: t in ts <==> exists i :: 0 <= i < |rows| && t in RowTags(rows[i])
  {
    if |rows| == 0 then []
    else
      var rest := AllRowTags(rows[1..]);
      assert forall i :: 1 <= i < |rows| ==> rows[1..][i - 1] == rows[i];
      RowTags(rows[0]) + rest
  }

  /** `sorted({t for tags in funding_tags for t in tags})`. */
  function Vocab(rows: seq<Row>): (vocab: seq<string>)
    ensures StrictlySorted(vocab, StrLt)
    ensures forall t :: t in vocab <==> exists i :: 0 <= i < |rows| && t in RowTags(rows[i])
  {
    FacetOptions.SortStrings(AllRowTags(rows))
  }

  // ----- one-hot and multi-hot vectors -----

  /** A one-hot block: 1 where the level is `v`, 0 elsewhere. */
  function OneHot(levels: seq<string>, v: string): (block: seq<int>)
    ensures |block| == |levels|
    ensures forall j :: 0 <= j < |levels| ==> (block[j] == 1 <==> levels[j] == v)
    ensures forall j :: 0 <= j < |levels| ==> block[j] == 0 || block[j] == 1
  {
    if |levels| == 0 then []
    else
      var rest := OneHot(levels[1..], v);
      assert forall j :: 1 <= j < |levels| ==> levels[1..][j - 1] == levels[j];
      [if levels[0] == v then 1 else 0] + rest
  }

  /** Number of ones in a vector. */
  function Ones(xs: seq<int>): nat {
    if |xs| == 0 then 0 else (if xs[0] == 1 then 1 else 0) + Ones(xs[1..])
  }

  predicate AllZero(xs: seq<int>) {
    forall j :: 0 <= j < |xs| ==> xs[j] == 0
  }

  /** Over distinct levels, a one-hot block has a single one when the value
      is a level and none otherwise. */
  lemma {:induction false} OneHotOnes(levels: seq<string>, v: string)
    requires Distinct(levels)
    ensures Ones(OneHot(levels, v)) == if v in levels then 1 else 0
  {
    if |levels| > 0 {
      assert Distinct(levels[1..]) by {
        forall i, j | 0 <= i < j < |levels[1..]|
          ensures levels[1..][i] != levels[1..][j]
        {
          assert levels[1..][i] == levels[i + 1] && levels[1..][j] == levels[j + 1];
        }
      }
      OneHotOnes(levels[1..], v);
      assert OneHot(levels, v)[1..] == OneHot(levels[1..], v);
      if levels[0] == v {
        assert v !in levels[1..] by {
          forall j | 0 <= j < |levels[1..]|
            ensures levels[1..][j] != v
          {
            assert levels[1..][j] == levels[j + 1];
          }
        }
      } else {
        assert v in levels <==> v in levels[1..];
      }
    }
  }

  /** The level a one-hot block marks, read back from its first one. */
  function DecodeOneHot(levels: seq<string>, block: seq<int>): Option<string>
    requires |block| == |levels|
  {
    var j := First(block, 1);
    if j < |block| then Some(levels[j]) else None
  }

  /** Encoding a level and decoding it gives the level back; a value that is
      not a level encodes to a block with no one. */
  lemma OneHotRoundTrip(levels: seq<string>, v: string)
    requires Distinct(levels)
    ensures v in levels ==> DecodeOneHot(levels, OneHot(levels, v)) == Some(v)
    ensures v !in levels ==> AllZero(OneHot(levels, v)) && DecodeOneHot(levels, OneHot(levels, v)).None?
  {
    var block := OneHot(levels, v);
    if v !in levels {
      assert forall j :: 0 <= j < |levels| ==> block[j] == 0;
      assert 1 !in block;
    }
  }

  /** A multi-hot vector: 1 at each vocabulary entry among `tags`. */
  function MultiHot(vocab: seq<string>, tags: seq<string>): (vec: seq<int>)
    ensures |vec| == |vocab|
    ensures forall j :: 0 <= j < |vocab| ==> (vec[j] == 1 <==> vocab[j] in tags)
    ensures forall j :: 0 <= j < |vocab| ==> vec[j] == 0 || vec[j] == 1
  {
    if |vocab| == 0 then []
    else
      var rest := MultiHot(vocab[1..], tags);
      assert forall j :: 1 <= j < |vocab| ==> vocab[1..][j - 1] == vocab[j];
      [if vocab[0] in tags then 1 else 0] + rest
  }

  /** The vocabulary entries a multi-hot vector marks. */
  function DecodeMultiHot(vocab: seq<string>, vec: seq<int>): (ts: seq<string>)
    requires |vec| == |vocab|
    ensures forall t :: t in ts ==> t in vocab
  {
    if |vocab| == 0 then []
    else (if vec[0] == 1 then [vocab[0]] else []) + DecodeMultiHot(vocab[1..], vec[1..])
  }

  /** Decoding a multi-hot vector gives exactly the tags that are in the
      vocabulary. */
  lemma {:induction false} MultiHotRoundTrip(vocab: seq<string>, tags: seq<string>)
    ensures forall t :: t in DecodeMultiHot(vocab, MultiHot(vocab, tags)) <==> t in vocab && t in tags
  {
    if |vocab| > 0 {
      var vec := MultiHot(vocab, tags);
      assert vec[1..] == MultiHot(vocab[1..], tags);
      MultiHotRoundTrip(vocab[1..], tags);
      assert forall t :: t in vocab <==> t == vocab[0] || t in vocab[1..];
    }
  }

  // ----- fit -----

  /** The encoded form of one table row. */
  datatype Encoding = Encoding(categorical: seq<seq<int>>, funding: seq<int>)

  /** A fitted recommender: the column choice, the levels of each
      categorical column, the funding vocabulary, the table and its encoding. */
  datatype Fitted = Fitted(
    columns: Columns,
    levels: map<string, seq<string>>,
    vocab: seq<string>,
    rows: seq<Row>,
    codes: seq<Encoding>)

  /** The columns `fit` works with: a `duration` column is derived when that
      feature is selected. */
  function WorkColumns(df: Frame, selected: seq<string>): set<string> {
    if Duration in selected then df.columns + {Duration} else df.columns
  }

  /** `c` is the first column of `cs` that `present` lacks. */
  predicate FirstAbsent(cs: seq<string>, present: set<string>, c: string) {
    exists j :: 0 <= j < |cs| && cs[j] == c && c !in present
      && forall k :: 0 <= k < j ==> cs[k] in present
  }

  /** At most one column is the first absent one. */
  lemma FirstAbsentUnique(cs: seq<string>, present: set<string>, a: string, b: string)
    requires FirstAbsent(cs, present, a) && FirstAbsent(cs, present, b)
    ensures a == b
  {
    var i :| 0 <= i < |cs| && cs[i] == a && a !in present && forall k :: 0 <= k < i ==> cs[k] in present;
    var j :| 0 <= j < |cs| && cs[j] == b && b !in present && forall k :: 0 <= k < j ==> cs[k] in present;
  }

  /** The loop `for c in cs: if c not in work.columns: raise`: the column
      it stops at, if any. */
  function FirstMissing(cs: seq<string>, present: set<string>): (m: Option<string>)
    ensures m.None? <==> forall c :: c in cs ==> c in present
    ensures m.Some? ==> FirstAbsent(cs, present, m.value)
  {
    if |cs| == 0 then None
    else if cs[0] !in present then Some(cs[0])
    else
      var m := FirstMissing(cs[1..], present);
      assert m.Some? ==> FirstAbsent(cs, present, m.value) by {
        if m.Some? {
          var j :| 0 <= j < |cs[1..]| && cs[1..][j] == m.value && m.value !in present
            && forall k :: 0 <= k < j ==> cs[1..][k] in present;
          assert cs[j + 1] == m.value;
          assert forall k :: 0 <= k < j + 1 ==> cs[k] in present by {
            forall k | 0 <= k < j + 1
              ensures cs[k] in present
            {
              if k > 0 {
                assert cs[k] == cs[1..][k - 1];
              }
            }
          }
        }
      }
      m
  }

  /** The column whose `KeyError` `fit` raises first: categorical columns
      are checked, then numeric ones, then the funding column. */
  function MissingColumn(cols: Columns, present: set<string>): (m: Option<string>)
    ensures m.None? <==>
      (forall c :: c in cols.categorical + cols.numeric ==> c in present)
      && (cols.useFunding ==> Funding in present)
    ensures m.Some? ==> m.value !in present
    ensures m.Some? ==> m.value in cols.categorical + cols.numeric || (m.value == Funding && cols.useFunding)
    ensures (exists c :: c in cols.categorical && c !in present) ==>
      m.Some? && FirstAbsent(cols.categorical, present, m.value)
    ensures (forall c :: c in cols.categorical ==> c in present) && (exists c :: c in cols.numeric && c !in present) ==>
      m.Some? && FirstAbsent(cols.numeric, present, m.value)
    ensures (forall c :: c in cols.categorical + cols.numeric ==> c in present) ==>
      (m.Some? <==> cols.useFunding && Funding !in present) && (m.Some? ==> m.value == Funding)
  {
    var a := FirstMissing(cols.categorical, present);
    if a.Some? then a
    else
      var b := FirstMissing(cols.numeric, present);
      if b.Some? then b
      else if cols.useFunding && Funding !in present then Some(Funding)
      else None
  }

  function LevelsOf(levels: map<string, seq<string>>, c: string): seq<string> {
    if c in levels then levels[c] else []
  }

  function EncodeRow(cols: Columns, levels: map<string, seq<string>>, vocab: seq<string>, r: Row): Encoding {
    var cats := cols.categorical;
    Encoding(
      seq(|cats|, k requires 0 <= k < |cats| => OneHot(LevelsOf(levels, cats[k]), CategoryOf(r, cats[k]))),
      if cols.useFunding then MultiHot(vocab, RowTags(r)) else [])
  }

  /** `work[c] = work[c].fillna("Unknown").astype(str)` for each categorical
      column `c` in `cats`, on one row; the other cells are kept. */
  function CleanRow(cats: seq<string>, r: Row): (w: Row)
    ensures forall c :: c in cats ==> CellOf(w, c) == Str(CategoryOf(r, c))
    ensures forall c :: c !in cats ==> CellOf(w, c) == CellOf(r, c)
  {
    map c | c in r.Keys + (set x | x in cats) :: if c in cats then Str(CategoryOf(r, c)) else r[c]
  }

  /** The cleaned copy `work` of the table's rows. */
  function CleanTable(cats: seq<string>, rows: seq<Row>): (work: seq<Row>)
    ensures |work| == |rows|
    ensures forall i, c :: 0 <= i < |rows| ==>
      CellOf(work[i], c) == if c in cats then Str(CategoryOf(rows[i], c)) else CellOf(rows[i], c)
    ensures forall i, c :: 0 <= i < |rows| ==> CategoryOf(work[i], c) == CategoryOf(rows[i], c)
  {
    seq(|rows|, i requires 0 <= i < |rows| => CleanRow(cats, rows[i]))
  }

  /** A feature the recommender uses: numeric, categorical or the funding
      column. */
  predicate Used(c: string) {
    c in NumericAllowed || c in CategoricalAllowed || c == Funding
  }

  /** `error` is the `KeyError` message for a column a selected feature needs
      and the table lacks. */
  predicate MissingError(df: Frame, selected: seq<string>, error: string) {
    exists c :: c in selected && Used(c) && c !in WorkColumns(df, selected)
      && error == "Missing column in df: " + c
  }

  /** `fit(df, selected_features)`: a `KeyError` naming a missing column a
      selected feature needs, or the fitted model holding the cleaned table
      `work` and one encoding per row. */
  function Fit(df: Frame, selected: seq<string>): (res: Result<Fitted, string>)
    ensures res.Failure? <==> exists c :: c in selected && Used(c) && c !in WorkColumns(df, selected)
    ensures res.Failure? ==> MissingError(df, selected, res.error)
    ensures res.Failure? ==> (MissingColumn(Partition(selected), WorkColumns(df, selected)).Some?
      && res.error == "Missing column in df: " + MissingColumn(Partition(selected), WorkColumns(df, selected)).value)
    ensures res.Success? ==> res.value.columns == Partition(selected)
    ensures res.Success? ==> |res.value.rows| == |df.rows| && |res.value.codes| == |df.rows|
    ensures res.Success? ==> forall i, c :: 0 <= i < |df.rows| ==>
      CellOf(res.value.rows[i], c) ==
        if c in res.value.columns.categorical then Str(CategoryOf(df.rows[i], c)) else CellOf(df.rows[i], c)
  {
    var cols := Partition(selected);
    var present := WorkColumns(df, selected);
    match MissingColumn(cols, present)
    case Some(c) => Failure("Missing column in df: " + c)
    case None =>
      assert forall c :: c in selected && Used(c) ==> c in present by {
        forall c | c in selected && Used(c)
          ensures c in present
        {
          if c in NumericAllowed {
            assert c in cols.categorical + cols.numeric;
          } else if c in CategoricalAllowed {
            assert c in cols.categorical + cols.numeric;
          }
        }
      }
      var levels := map c | c in cols.categorical :: Levels(df.rows, c);
      var vocab := if cols.useFunding then Vocab(df.rows) else [];
      var work := CleanTable(cols.categorical, df.rows);
      Success(Fitted(cols, levels, vocab, work,
        seq(|df.rows|, i requires 0 <= i < |df.rows| => EncodeRow(cols, levels, vocab, df.rows[i]))))
  }

  /** Each categorical column's levels are sorted and distinct, and are the
      values the column takes. */
  lemma FitLevels(df: Frame, selected: seq<string>, c: string)
    requires Fit(df, selected).Success? && c in Partition(selected).categorical
    ensures var levels := LevelsOf(Fit(df, selected).value.levels, c);
      && StrictlySorted(levels, StrLt) && Distinct(levels)
      && forall v :: v in levels <==> exists i :: 0 <= i < |df.rows| && CategoryOf(df.rows[i], c) == v
  {
    var levels := LevelsOf(Fit(df, selected).value.levels, c);
    assert levels == Levels(df.rows, c);
    StrLtIsStrictTotalOrder();
    StrictlySortedDistinct(levels, StrLt);
  }

  /** Cleaning changes no category text, and no funding cell when funding
      is not among the cleaned columns. */
  lemma CleanRowKeeps(cats: seq<string>, r: Row)
    ensures forall c :: CategoryOf(CleanRow(cats, r), c) == CategoryOf(r, c)
    ensures Funding !in cats ==> RowTags(CleanRow(cats, r)) == RowTags(r)
  {
  }

  lemma CleanLevels(cats: seq<string>, rows: seq<Row>, c: string)
    ensures Levels(CleanTable(cats, rows), c) == Levels(rows, c)
  {
    var w := CleanTable(cats, rows);
    var x := Levels(rows, c);
    var y := Levels(w, c);
    forall v
      ensures v in x <==> v in y
    {
      if v in x {
        var n :| 0 <= n < |rows| && CategoryOf(rows[n], c) == v;
        assert CategoryOf(w[n], c) == v;
      }
      if v in y {
        var n :| 0 <= n < |w| && CategoryOf(w[n], c) == v;
        assert CategoryOf(rows[n], c) == v;
      }
    }
    StrLtIsStrictTotalOrder();
    StrictlySortedUnique(x, y, StrLt);
  }

  lemma CleanVocab(cats: seq<string>, rows: seq<Row>)
    requires Funding !in cats
    ensures Vocab(CleanTable(cats, rows)) == Vocab(rows)
  {
    var w := CleanTable(cats, rows);
    var x := Vocab(rows);
    var y := Vocab(w);
    forall t
      ensures t in x <==> t in y
    {
      if t in x {
        var n :| 0 <= n < |rows| && t in RowTags(rows[n]);
        assert CellOf(w[n], Funding) == CellOf(rows[n], Funding);
      }
      if t in y {
        var n :| 0 <= n < |w| && t in RowTags(w[n]);
        assert CellOf(w[n], Funding) == CellOf(rows[n], Funding);
      }
    }
    StrLtIsStrictTotalOrder();
    StrictlySortedUnique(x, y, StrLt);
  }

  lemma CleanEncode(cols: Columns, levels: map<string, seq<string>>, vocab: seq<string>, r: Row)
    requires Funding !in cols.categorical
    ensures EncodeRow(cols, levels, vocab, CleanRow(cols.categorical, r)) == EncodeRow(cols, levels, vocab, r)
  {
    CleanRowKeeps(cols.categorical, r);
    var a := EncodeRow(cols, levels, vocab, CleanRow(cols.categorical, r));
    var b := EncodeRow(cols, levels, vocab, r);
    assert a.categorical == b.categorical;
  }

  /** The stored levels, vocabulary and encodings are those of the stored,
      cleaned table `work`, as `fit` computes them. */
  lemma FitEncodesStoredRows(df: Frame, selected: seq<string>, i: nat)
    requires Fit(df, selected).Success? && i < |df.rows|
    ensures var m := Fit(df, selected).value;
      && m.codes[i] == EncodeRow(m.columns, m.levels, m.vocab, m.rows[i])
      && (forall c :: c in m.columns.categorical ==> LevelsOf(m.levels, c) == Levels(m.rows, c))
      && (m.columns.useFunding ==> m.vocab == Vocab(m.rows))
  {
    var m := Fit(df, selected).value;
    var cats := m.columns.categorical;
    assert Funding !in cats;
    assert m.rows == CleanTable(cats, df.rows);
    CleanEncode(m.columns, m.levels, m.vocab, df.rows[i]);
    forall c | c in cats
      ensures LevelsOf(m.levels, c) == Levels(m.rows, c)
    {
      CleanLevels(cats, df.rows, c);
    }
    CleanVocab(cats, df.rows);
  }

  /** Every row has exactly one 1 in each categorical block, at its own
      value. */
  lemma FitOneHot(df: Frame, selected: seq<string>, i: nat, k: nat)
    requires Fit(df, selected).Success?
    requires i < |df.rows| && k < |Partition(selected).categorical|
    ensures var m := Fit(df, selected).value;
      var c := m.columns.categorical[k];
      var block := m.codes[i].categorical[k];
      && Ones(block) == 1
      && DecodeOneHot(LevelsOf(m.levels, c), block) == Some(CategoryOf(df.rows[i], c))
  {
    var m := Fit(df, selected).value;
    var c := m.columns.categorical[k];
    FitLevels(df, selected, c);
    var levels := LevelsOf(m.levels, c);
    var v := CategoryOf(df.rows[i], c);
    assert v in levels;
    assert m.codes[i].categorical[k] == OneHot(levels, v);
    OneHotOnes(levels, v);
    OneHotRoundTrip(levels, v);
  }

  /** With funding selected the vocabulary is the sorted, distinct union of
      all rows' tags, and a row's entry is 1 exactly for its own tags. */
  lemma FitMultiHot(df: Frame, selected: seq<string>, i: nat)
    requires Fit(df, selected).Success? && Funding in selected && i < |df.rows|
    ensures var m := Fit(df, selected).value;
      && StrictlySorted(m.vocab, StrLt)
      && (forall t :: t in m.vocab <==> exists n :: 0 <= n < |df.rows| && t in RowTags(df.rows[n]))
      && |m.codes[i].funding| == |m.vocab|
      && forall j :: 0 <= j < |m.vocab| ==> (m.codes[i].funding[j] == 1 <==> m.vocab[j] in RowTags(df.rows[i]))
  {
  }

  // ----- the user vector -----

  /** A preference value as the page sends it. */
  datatype Pref = PStr(s: string) | PList(items: seq<string>) | PNum(n: Num)

  function PrefOf(prefs: map<string, Pref>, c: string): Option<Pref> {
    if c in prefs then Some(prefs[c]) else None
  }

  /** The categorical block of `_make_user_vector`: the one-hot of a
      non-empty text preference, or no one at all. */
  function UserCategory(levels: seq<string>, v: Option<Pref>): (block: seq<int>)
    ensures |block| == |levels|
    ensures v.Some? && v.value.PStr? && v.value.s != "" ==> block == OneHot(levels, v.value.s)
    ensures !(v.Some? && v.value.PStr? && v.value.s != "") ==> AllZero(block)
  {
    match v
    case Some(PStr(s)) =>
      if s != "" then OneHot(levels, s) else seq(|levels|, _ => 0)
    case _ => seq(|levels|, _ => 0)
  }

  /** The user's funding tags: a text is split like a table cell, a list is
      stripped with blanks dropped, anything else gives none. */
  function UserFundingTags(v: Option<Pref>): (tags: seq<string>)
    ensures forall t :: t in tags ==> t != "" && Stripped(t)
    ensures v.Some? && v.value.PStr? ==> tags == SplitMultivalue(Str(v.value.s))
    ensures v.Some? && v.value.PList? ==>
      (forall t :: t in tags <==> exists x :: x in v.value.items && t == Strip(x) && t != "")
      && |tags| <= |v.value.items| && IsSubsequence(tags, Map(v.value.items, Strip))
    ensures v.None? || (v.Some? && v.value.PNum?) ==> tags == []
  {
    match v
    case None => []
    case Some(PStr(s)) => SplitMultivalue(Str(s))
    case Some(PList(xs)) => Filter(Map(xs, Strip), NonEmptyText)
    case Some(PNum(_)) => []
  }

  datatype UserVector = UserVector(categorical: seq<seq<int>>, funding: seq<int>)

  /** The categorical and funding parts of `_make_user_vector`. */
  function MakeUserVector(m: Fitted, prefs: map<string, Pref>): (u: UserVector)
    ensures |u.categorical| == |m.columns.categorical|
    ensures forall k :: 0 <= k < |m.columns.categorical| ==>
      u.categorical[k] == UserCategory(LevelsOf(m.levels, m.columns.categorical[k]), PrefOf(prefs, m.columns.categorical[k]))
    ensures m.columns.useFunding ==> u.funding == MultiHot(m.vocab, UserFundingTags(PrefOf(prefs, Funding)))
    ensures !m.columns.useFunding ==> u.funding == []
  {
    var cats := m.columns.categorical;
    UserVector(
      seq(|cats|, k requires 0 <= k < |cats| => UserCategory(LevelsOf(m.levels, cats[k]), PrefOf(prefs, cats[k]))),
      if m.columns.useFunding then MultiHot(m.vocab, UserFundingTags(PrefOf(prefs, Funding))) else [])
  }

  /** The preference is a non-empty text naming one of the levels. */
  predicate Chosen(v: Option<Pref>, levels: seq<string>) {
    v.Some? && v.value.PStr? && v.value.s != "" && v.value.s in levels
  }

  lemma UserCategoryDecodes(levels: seq<string>, v: Option<Pref>)
    requires Distinct(levels)
    ensures Chosen(v, levels) ==>
      DecodeOneHot(levels, UserCategory(levels, v)) == Some(v.value.s) && Ones(UserCategory(levels, v)) == 1
    ensures !Chosen(v, levels) ==> AllZero(UserCategory(levels, v))
  {
    if v.Some? && v.value.PStr? && v.value.s != "" {
      OneHotRoundTrip(levels, v.value.s);
      if v.value.s in levels {
        OneHotOnes(levels, v.value.s);
      }
    }
  }

  /** A categorical preference that is not among the column's levels gives
      an all-zero block; one that is gives a block that decodes to it. */
  lemma UserCategoryBlock(df: Frame, selected: seq<string>, prefs: map<string, Pref>, k: nat)
    requires Fit(df, selected).Success? && k < |Partition(selected).categorical|
    ensures var m := Fit(df, selected).value;
      var c := m.columns.categorical[k];
      var levels := LevelsOf(m.levels, c);
      var block := MakeUserVector(m, prefs).categorical[k];
      && (Chosen(PrefOf(prefs, c), levels) ==> DecodeOneHot(levels, block) == Some(prefs[c].s) && Ones(block) == 1)
      && (!Chosen(PrefOf(prefs, c), levels) ==> AllZero(block))
  {
    var m := Fit(df, selected).value;
    var c := m.columns.categorical[k];
    var levels := LevelsOf(m.levels, c);
    FitLevels(df, selected, c);
    UserCategoryDecodes(levels, PrefOf(prefs, c));
  }

  // ----- recommend -----

  /** `recommend(preferences, n_results)` on a recommender that is fitted
      (`Some`) or not: a `RuntimeError` before `fit`, otherwise the first
      `Clamp(n)` rows of `ranked`, the stored table reordered by decreasing
      similarity (the ranking is floating-point work outside this model). */
  function Recommend(state: Option<Fitted>, ranked: seq<Row>, nResults: int): (res: Result<seq<Row>, string>)
    requires state.Some? ==> multiset(ranked) == multiset(state.value.rows)
    ensures state.None? <==> res.Failure?
    ensures res.Success? ==> |res.value| == if |ranked| <= Clamp(nResults) then |ranked| else Clamp(nResults)
    ensures res.Success? ==> res.value == ranked[..|res.value|]
    ensures res.Success? ==> multiset(res.value) <= multiset(state.value.rows)
    ensures res.Success? ==> forall r :: r in res.value ==> r in state.value.rows
  {
    match state
    case None => Failure("Call .fit(df, selected_features) before .recommend().")
    case Some(m) =>
      var n := Clamp(nResults);
      var top := if |ranked| <= n then ranked else ranked[..n];
      assert ranked == top + ranked[|top|..];
      assert multiset(ranked) == multiset(top) + multiset(ranked[|top|..]);
      assert forall r :: r in top ==> r in multiset(m.rows);
      Success(top)
  }
}
