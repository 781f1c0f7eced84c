/** The recommender panel of the web app (code/webapp/assets/js/recommender.js):
    the HTML escaping of result text, the preference inputs built for the
    selected features, the preferences read back from them, and the result
    cards. The DOM is replaced by values: a built input is a `Widget`, a
    filled-in input is an `Input`, a rendered card is a `Card`. */
module RecommenderUi {
  import opened Wrappers
  import opened Seqs
  import opened JsString
  import opened JsNumber
  import RecommenderModel

  // ----- escapeHtml -----

  /** The characters `escapeHtml` replaces. */
  predicate Special(c: char) {
    c == '&' || c == '<' || c == '>' || c == '"' || c == '\''
  }

  /** `escapeHtml(s)`: five `replaceAll` passes, `&` first, so that the
      ampersands the later passes insert are not escaped again. */
  function EscapeHtml(s: string): string {
    var amp := ReplaceAll(s, '&', "&amp;");
    var lt := ReplaceAll(amp, '<', "&lt;");
    var gt := ReplaceAll(lt, '>', "&gt;");
    var quot := ReplaceAll(gt, '"', "&quot;");
    ReplaceAll(quot, '\'', "&#039;")
  }

  /** The entity a single character becomes. */
  function EscapeChar(c: char): string {
    if c == '&' then "&amp;"
    else if c == '<' then "&lt;"
    else if c == '>' then "&gt;"
    else if c == '"' then "&quot;"
    else if c == '\'' then "&#039;"
    else [c]
  }

  /** Escaping character by character, the reference for `EscapeHtml`. */
  function EscapeEach(s: string): string {
    if |s| == 0 then "" else EscapeChar(s[0]) + EscapeEach(s[1..])
  }

  /** One of the five entities starts at position `i` of `r`. */
  predicate EntityAt(r: string, i: int) {
    || OccursAt(r, "&amp;", i) || OccursAt(r, "&lt;", i) || OccursAt(r, "&gt;", i)
    || OccursAt(r, "&quot;", i) || OccursAt(r, "&#039;", i)
  }

  /** Reads the entities back: the inverse of `EscapeHtml`. */
  function Unescape(r: string): string
    decreases |r|
  {
    if |r| == 0 then ""
    else if OccursAt(r, "&amp;", 0) then "&" + Unescape(r[5..])
    else if OccursAt(r, "&lt;", 0) then "<" + Unescape(r[4..])
    else if OccursAt(r, "&gt;", 0) then ">" + Unescape(r[4..])
    else if OccursAt(r, "&quot;", 0) then "\"" + Unescape(r[6..])
    else if OccursAt(r, "&#039;", 0) then "'" + Unescape(r[6..])
    else [r[0]] + Unescape(r[1..])
  }

  lemma ReplaceAllOne(c: char, d: char, rep: string)
    ensures ReplaceAll([c], d, rep) == if c == d then rep else [c]
  {
    assert [c][1..] == "";
  }

  /** The last four passes leave a text without their characters alone. */
  lemma LaterPassesKeep(t: string)
    requires '<' !in t && '>' !in t && '"' !in t && '\'' !in t
    ensures ReplaceAll(ReplaceAll(ReplaceAll(ReplaceAll(t, '<', "&lt;"), '>', "&gt;"), '"', "&quot;"), '\'', "&#039;") == t
  {
  }

  lemma EscapeHtmlChar(c: char)
    ensures EscapeHtml([c]) == EscapeChar(c)
  {
    if c == '&' {
      ReplaceAllOne(c, '&', "&amp;");
      LaterPassesKeep("&amp;");
    } else if c == '<' {
      EscapeHtmlLt();
    } else if c == '>' {
      EscapeHtmlGt();
    } else if c == '"' {
      EscapeHtmlQuot();
    } else if c == '\'' {
      EscapeHtmlApos();
    } else {
      assert forall x :: x in [c] ==> x == c;
    }
  }

  lemma EscapeHtmlLt()
    ensures EscapeHtml("<") == "&lt;"
  {
    ReplaceAllOne('<', '&', "&amp;");
    ReplaceAllOne('<', '<', "&lt;");
    LaterPassesKeep("&lt;");
    assert ReplaceAll(ReplaceAll(ReplaceAll("&lt;", '>', "&gt;"), '"', "&quot;"), '\'', "&#039;") == "&lt;";
  }

  lemma EscapeHtmlGt()
    ensures EscapeHtml(">") == "&gt;"
  {
    ReplaceAllOne('>', '&', "&amp;");
    ReplaceAllOne('>', '<', "&lt;");
    ReplaceAllOne('>', '>', "&gt;");
    assert ReplaceAll(ReplaceAll("&gt;", '"', "&quot;"), '\'', "&#039;") == "&gt;";
  }

  lemma EscapeHtmlQuot()
    ensures EscapeHtml("\"") == "&quot;"
  {
    ReplaceAllOne('"', '&', "&amp;");
    ReplaceAllOne('"', '<', "&lt;");
    ReplaceAllOne('"', '>', "&gt;");
    ReplaceAllOne('"', '"', "&quot;");
    assert '\'' !in "&quot;";
  }

  lemma EscapeHtmlApos()
    ensures EscapeHtml("'") == "&#039;"
  {
    ReplaceAllOne('\'', '&', "&amp;");
    ReplaceAllOne('\'', '<', "&lt;");
    ReplaceAllOne('\'', '>', "&gt;");
    ReplaceAllOne('\'', '"', "&quot;");
    ReplaceAllOne('\'', '\'', "&#039;");
  }

  lemma EscapeHtmlAppend(a: string, b: string)
    ensures EscapeHtml(a + b) == EscapeHtml(a) + EscapeHtml(b)
  {
    ReplaceAllAppend(a, b, '&', "&amp;");
    var a1, b1 := ReplaceAll(a, '&', "&amp;"), ReplaceAll(b, '&', "&amp;");
    ReplaceAllAppend(a1, b1, '<', "&lt;");
    var a2, b2 := ReplaceAll(a1, '<', "&lt;"), ReplaceAll(b1, '<', "&lt;");
    ReplaceAllAppend(a2, b2, '>', "&gt;");
    var a3, b3 := ReplaceAll(a2, '>', "&gt;"), ReplaceAll(b2, '>', "&gt;");
    ReplaceAllAppend(a3, b3, '"', "&quot;");
    var a4, b4 := ReplaceAll(a3, '"', "&quot;"), ReplaceAll(b3, '"', "&quot;");
    ReplaceAllAppend(a4, b4, '\'', "&#039;");
  }

  /** The five passes escape each character on its own. */
  lemma {:induction false} EscapeHtmlPerChar(s: string)
    ensures EscapeHtml(s) == EscapeEach(s)
  {
    if |s| > 0 {
      assert s == [s[0]] + s[1..];
      EscapeHtmlAppend([s[0]], s[1..]);
      EscapeHtmlChar(s[0]);
      EscapeHtmlPerChar(s[1..]);
    }
  }

  /** No character's escape holds markup. */
  lemma {:induction false} EscapeEachNoMarkup(s: string)
    ensures var r := EscapeEach(s); '<' !in r && '>' !in r && '"' !in r && '\'' !in r
  {
    if |s| > 0 {
      EscapeEachNoMarkup(s[1..]);
      EscapeCharNoMarkup(s[0]);
      assert EscapeEach(s) == EscapeChar(s[0]) + EscapeEach(s[1..]);
    }
  }

  lemma EscapeCharNoMarkup(c: char)
    ensures var e := EscapeChar(c); '<' !in e && '>' !in e && '"' !in e && '\'' !in e
  {
    if !Special(c) {
      assert EscapeChar(c) == [c];
    }
  }

  /** A text without special characters is escaped to itself. */
  lemma {:induction false} EscapeEachPlain(s: string)
    requires forall c :: c in s ==> !Special(c)
    ensures EscapeEach(s) == s
  {
    if |s| > 0 {
      assert s[0] in s;
      assert forall c :: c in s[1..] ==> c in s;
      EscapeEachPlain(s[1..]);
      assert s == [s[0]] + s[1..];
    }
  }

  /** Escaped text holds no `<`, `>`, `"` or `'`. */
  lemma EscapeHtmlNoMarkup(s: string)
    ensures var r := EscapeHtml(s); '<' !in r && '>' !in r && '"' !in r && '\'' !in r
  {
    EscapeHtmlPerChar(s);
    EscapeEachNoMarkup(s);
  }

  /** Text without special characters passes through unchanged. */
  lemma EscapeHtmlPlain(s: string)
    requires forall c :: c in s ==> !Special(c)
    ensures EscapeHtml(s) == s
  {
    EscapeHtmlPerChar(s);
    EscapeEachPlain(s);
  }

  lemma OccursAtAppend(x: string, y: string, pat: string, j: int)
    requires OccursAt(y, pat, j)
    ensures OccursAt(x + y, pat, |x| + j)
  {
    assert (x + y)[|x| + j..|x| + j + |pat|] == y[j..j + |pat|];
  }

  lemma EntityAtAppend(x: string, y: string, j: int)
    requires EntityAt(y, j)
    ensures EntityAt(x + y, |x| + j)
  {
    if OccursAt(y, "&amp;", j) { OccursAtAppend(x, y, "&amp;", j); }
    if OccursAt(y, "&lt;", j) { OccursAtAppend(x, y, "&lt;", j); }
    if OccursAt(y, "&gt;", j) { OccursAtAppend(x, y, "&gt;", j); }
    if OccursAt(y, "&quot;", j) { OccursAtAppend(x, y, "&quot;", j); }
    if OccursAt(y, "&#039;", j) { OccursAtAppend(x, y, "&#039;", j); }
  }

  /** The escape of one character holds an ampersand only as the start of
      its entity. */
  lemma EscapeCharAmpersand(c: char, y: string, i: nat)
    requires i < |EscapeChar(c)| && EscapeChar(c)[i] == '&'
    ensures i == 0 && EntityAt(EscapeChar(c) + y, 0)
  {
    var x := EscapeChar(c);
    assert (x + y)[..|x|] == x;
  }

  lemma {:induction false} EscapeEachAmpersands(s: string)
    ensures forall i :: 0 <= i < |EscapeEach(s)| && EscapeEach(s)[i] == '&' ==> EntityAt(EscapeEach(s), i)
  {
    if |s| > 0 {
      var x, y := EscapeChar(s[0]), EscapeEach(s[1..]);
      assert EscapeEach(s) == x + y;
      EscapeEachAmpersands(s[1..]);
      forall i | 0 <= i < |x + y| && (x + y)[i] == '&'
        ensures EntityAt(x + y, i)
      {
        if i < |x| {
          EscapeCharAmpersand(s[0], y, i);
        } else {
          assert y[i - |x|] == '&';
          EntityAtAppend(x, y, i - |x|);
        }
      }
    }
  }

  /** Because `&` is replaced first, every ampersand of the output begins
      one of the five entities. */
  lemma EscapeHtmlAmpersands(s: string)
    ensures forall i :: 0 <= i < |EscapeHtml(s)| && EscapeHtml(s)[i] == '&' ==> EntityAt(EscapeHtml(s), i)
  {
    EscapeHtmlPerChar(s);
    EscapeEachAmpersands(s);
  }

  /** A text that does not start with `&` starts with no entity. */
  lemma NoEntityAtStart(r: string)
    requires |r| > 0 && r[0] != '&'
    ensures !EntityAt(r, 0)
  {
    assert forall e :: |e| > 0 && OccursAt(r, e, 0) ==> e[0] == r[0] by {
      forall e | |e| > 0 && OccursAt(r, e, 0)
        ensures e[0] == r[0]
      {
        assert r[0..|e|][0] == r[0];
      }
    }
  }

  lemma UnescapeAmp(t: string)
    ensures Unescape("&amp;" + t) == "&" + Unescape(t)
  {
    var r := "&amp;" + t;
    assert r[..5] == "&amp;" && r[5..] == t;
  }

  lemma UnescapeLt(t: string)
    ensures Unescape("&lt;" + t) == "<" + Unescape(t)
  {
    var r := "&lt;" + t;
    assert r[..4] == "&lt;" && r[4..] == t;
    assert !OccursAt(r, "&amp;", 0) by { assert r[1] == 'l'; }
  }

  lemma UnescapeGt(t: string)
    ensures Unescape("&gt;" + t) == ">" + Unescape(t)
  {
    var r := "&gt;" + t;
    assert r[..4] == "&gt;" && r[4..] == t;
    assert r[1] == 'g';
    assert !OccursAt(r, "&amp;", 0) && !OccursAt(r, "&lt;", 0);
  }

  lemma UnescapeQuot(t: string)
    ensures Unescape("&quot;" + t) == "\"" + Unescape(t)
  {
    var r := "&quot;" + t;
    assert r[..6] == "&quot;" && r[6..] == t;
    assert r[1] == 'q';
    assert !OccursAt(r, "&amp;", 0) && !OccursAt(r, "&lt;", 0) && !OccursAt(r, "&gt;", 0);
  }

  lemma UnescapeApos(t: string)
    ensures Unescape("&#039;" + t) == "'" + Unescape(t)
  {
    var r := "&#039;" + t;
    assert r[..6] == "&#039;" && r[6..] == t;
    assert r[1] == '#';
    assert !OccursAt(r, "&amp;", 0) && !OccursAt(r, "&lt;", 0) && !OccursAt(r, "&gt;", 0);
    assert !OccursAt(r, "&quot;", 0);
  }

  lemma UnescapePlain(c: char, t: string)
    requires c != '&'
    ensures Unescape([c] + t) == [c] + Unescape(t)
  {
    var r := [c] + t;
    NoEntityAtStart(r);
    assert r[1..] == t;
  }

  lemma UnescapeStep(c: char, t: string)
    ensures Unescape(EscapeChar(c) + t) == [c] + Unescape(t)
  {
    if c == '&' {
      UnescapeAmp(t);
    } else if c == '<' {
      UnescapeLt(t);
    } else if c == '>' {
      UnescapeGt(t);
    } else if c == '"' {
      UnescapeQuot(t);
    } else if c == '\'' {
      UnescapeApos(t);
    } else {
      UnescapePlain(c, t);
    }
  }

  lemma {:induction false} UnescapeEscapeEach(s: string)
    ensures Unescape(EscapeEach(s)) == s
  {
    if |s| > 0 {
      UnescapeStep(s[0], EscapeEach(s[1..]));
      UnescapeEscapeEach(s[1..]);
      assert s == [s[0]] + s[1..];
    }
  }

  /** Escaping loses nothing: the entities read back to the original text. */
  lemma UnescapeEscape(s: string)
    ensures Unescape(EscapeHtml(s)) == s
  {
    EscapeHtmlPerChar(s);
    UnescapeEscapeEach(s);
  }

  // ----- the selectable features -----

  datatype FeatureType = Categorical | Numeric | MultiTag

  datatype Feature = Feature(key: string, caption: string, kind: FeatureType)

  /** `RS_FEATURES`. */
  const Features: seq<Feature> := [
    Feature("country", "Country", Categorical),
    Feature("status", "Status (present stage)", Categorical),
    Feature("duration", "Duration (end_year - begin_year)", Numeric),
    Feature("nbs_area", "NbS Area (m\U{b2})", Numeric),
    Feature("previous_area_type", "Area Before Intervention", Categorical),
    Feature("total_cost", "Total Cost", Numeric),
    Feature("sources_of_funding", "Sources of Funding", MultiTag)
  ]

  function FeatureKey(f: Feature): string {
    f.key
  }

  /** The page offers exactly the model's features, in the model's order. */
  lemma FeatureKeysMatchModel()
    ensures Map(Features, FeatureKey) == RecommenderModel.FeatureKeys
  {
    var keys := Map(Features, FeatureKey);
    assert forall i :: 0 <= i < |keys| ==> keys[i] == RecommenderModel.FeatureKeys[i];
  }

  /** Each feature's kind matches the model's allow-lists: a categorical
      feature is one-hot encoded, a numeric one is scaled, the multi-tag one
      is the funding column. */
  lemma FeatureKindsMatchModel(i: nat)
    requires i < |Features|
    ensures Features[i].kind == Categorical <==> RecommenderModel.IsCategoricalColumn(Features[i].key)
    ensures Features[i].kind == Numeric <==> RecommenderModel.IsNumericColumn(Features[i].key)
    ensures Features[i].kind == MultiTag <==> Features[i].key == RecommenderModel.Funding
  {
  }

  /** `RS_FEATURES.find(x => x.key === key)`, searching from index `from`. */
  function FindFeatureFrom(key: string, from: nat): (f: Option<Feature>)
    requires from <= |Features|
    ensures f.Some? <==> exists i :: from <= i < |Features| && Features[i].key == key
    ensures f.Some? ==> f.value in Features && f.value.key == key
    decreases |Features| - from
  {
    if from == |Features| then None
    else if Features[from].key == key then Some(Features[from])
    else FindFeatureFrom(key, from + 1)
  }

  function FindFeature(key: string): (f: Option<Feature>)
    ensures f.Some? <==> exists i :: 0 <= i < |Features| && Features[i].key == key
    ensures f.Some? ==> f.value in Features && f.value.key == key
  {
    FindFeatureFrom(key, 0)
  }

  function IsFeatureKey(key: string): bool {
    FindFeature(key).Some?
  }

  // ----- rebuildPreferenceInputs -----

  datatype Range = Range(min: Num, max: Num)

  /** `RS_META`, as the server sends it; a missing part is `None`. */
  datatype Meta = Meta(
    categorical: Option<map<string, seq<string>>>,
    numericRanges: Option<map<string, Range>>,
    fundingTags: Option<seq<string>>)

  /** A built input: a single select, whose first option is the empty
      "(optional)" one; a number box with the range's finite bounds as its
      `min`/`max`; or a multi-select with its visible `size`. */
  datatype Widget =
    | SelectInput(key: string, caption: string, options: seq<string>)
    | NumberInput(key: string, caption: string, min: Option<Num>, max: Option<Num>)
    | MultiSelect(key: string, caption: string, options: seq<string>, size: int)

  function WidgetKey(w: Widget): string {
    w.key
  }

  /** The kind of input the feature needs. */
  predicate Suits(w: Widget, f: Feature) {
    w.key == f.key
    && match f.kind
       case Categorical => w.SelectInput? && w.caption == f.caption
       case Numeric => w.NumberInput? && w.caption == f.caption + " (optional)"
       case MultiTag => w.MultiSelect? && w.caption == f.caption + " (optional, multi-select)"
  }

  /** `Number.isFinite(bound)` keeps the bound. */
  function FiniteBound(n: Num): (b: Option<Num>)
    ensures b.Some? <==> n.Finite?
    ensures b.Some? ==> b.value == n
  {
    if n.Finite? then Some(n) else None
  }

  /** `Math.min(8, Math.max(4, n))`. */
  function ListSize(n: nat): (size: int)
    ensures 4 <= size <= 8
    ensures 4 <= n <= 8 ==> size == n
  {
    if n < 4 then 4 else if n > 8 then 8 else n
  }

  /** The input `rebuildPreferenceInputs` builds for one feature. */
  function WidgetFor(f: Feature, m: Meta): (w: Widget)
    ensures Suits(w, f)
    ensures w.SelectInput? ==>
      w.options == (if m.categorical.Some? && f.key in m.categorical.value then m.categorical.value[f.key] else [])
    ensures w.NumberInput? && w.min.Some? ==>
      m.numericRanges.Some? && f.key in m.numericRanges.value && w.min.value.Finite?
    ensures w.NumberInput? ==>
      if m.numericRanges.Some? && f.key in m.numericRanges.value then
        w.min == FiniteBound(m.numericRanges.value[f.key].min) && w.max == FiniteBound(m.numericRanges.value[f.key].max)
      else w.min.None? && w.max.None?
    ensures w.MultiSelect? ==> w.options == m.fundingTags.GetOr([]) && 4 <= w.size <= 8
  {
    match f.kind
    case Categorical =>
      var opts := if m.categorical.Some? && f.key in m.categorical.value then m.categorical.value[f.key] else [];
      SelectInput(f.key, f.caption, opts)
    case Numeric =>
      if m.numericRanges.Some? && f.key in m.numericRanges.value then
        var range := m.numericRanges.value[f.key];
        NumberInput(f.key, f.caption + " (optional)", FiniteBound(range.min), FiniteBound(range.max))
      else NumberInput(f.key, f.caption + " (optional)", None, None)
    case MultiTag =>
      var opts := m.fundingTags.GetOr([]);
      MultiSelect(f.key, f.caption + " (optional, multi-select)", opts, ListSize(|opts|))
  }

  /** One widget per selected key that names a feature, in the order of the
      keys, each of the kind its feature needs. */
  predicate WidgetsMatch(keys: seq<string>, ws: seq<Widget>) {
    && Map(ws, WidgetKey) == Filter(keys, IsFeatureKey)
    && forall i :: 0 <= i < |ws| ==> FindFeature(ws[i].key).Some? && Suits(ws[i], FindFeature(ws[i].key).value)
  }

  /** The widget, if any, that the key in front of `rest` adds. */
  function WidgetsCons(key: string, m: Meta, rest: seq<Widget>): seq<Widget> {
    match FindFeature(key)
    case None => rest
    case Some(f) => [WidgetFor(f, m)] + rest
  }

  lemma WidgetsConsMatch(keys: seq<string>, m: Meta, rest: seq<Widget>)
    requires |keys| > 0 && WidgetsMatch(keys[1..], rest)
    ensures WidgetsMatch(keys, WidgetsCons(keys[0], m, rest))
  {
    var ws := WidgetsCons(keys[0], m, rest);
    match FindFeature(keys[0])
    case None =>
      assert Filter(keys, IsFeatureKey) == Filter(keys[1..], IsFeatureKey);
    case Some(f) =>
      assert Filter(keys, IsFeatureKey) == [keys[0]] + Filter(keys[1..], IsFeatureKey);
      assert Map(ws, WidgetKey) == [keys[0]] + Map(rest, WidgetKey);
      forall i | 0 <= i < |ws|
        ensures FindFeature(ws[i].key).Some? && Suits(ws[i], FindFeature(ws[i].key).value)
      {
        if i == 0 {
          assert ws[0] == WidgetFor(f, m) && ws[0].key == keys[0];
        } else {
          assert ws[i] == rest[i - 1];
        }
      }
  }

  function WidgetsFor(keys: seq<string>, m: Meta): (ws: seq<Widget>)
    ensures Map(ws, WidgetKey) == Filter(keys, IsFeatureKey)
    ensures forall i :: 0 <= i < |ws| ==> FindFeature(ws[i].key).Some? && Suits(ws[i], FindFeature(ws[i].key).value)
  {
    if |keys| == 0 then []
    else
      var rest := WidgetsFor(keys[1..], m);
      WidgetsConsMatch(keys, m, rest);
      WidgetsCons(keys[0], m, rest)
  }

  /** `rebuildPreferenceInputs()`: nothing before the metadata has loaded;
      afterwards one input per selected key that names a feature, in the
      order of the selected chips, of the kind the feature needs. */
  function BuildInputs(keys: seq<string>, meta: Option<Meta>): (ws: seq<Widget>)
    ensures meta.None? ==> ws == []
    ensures meta.Some? ==> Map(ws, WidgetKey) == Filter(keys, IsFeatureKey)
    ensures forall i :: 0 <= i < |ws| ==> FindFeature(ws[i].key).Some? && Suits(ws[i], FindFeature(ws[i].key).value)
  {
    match meta
    case None => []
    case Some(m) => WidgetsFor(keys, m)
  }

  /** A key outside `RS_FEATURES` gets no input, and every feature key gets one. */
  lemma BuildInputsKeys(keys: seq<string>, m: Meta, key: string)
    ensures key in Map(BuildInputs(keys, Some(m)), WidgetKey) <==> key in keys && key in Map(Features, FeatureKey)
  {
    assert Map(BuildInputs(keys, Some(m)), WidgetKey) == Filter(keys, IsFeatureKey);
    FeatureKeyListed(key);
  }

  /** `FindFeature` finds exactly the keys of the feature menu. */
  lemma FeatureKeyListed(key: string)
    ensures IsFeatureKey(key) <==> key in Map(Features, FeatureKey)
  {
    KeyInMap(Features, key);
  }

  lemma KeyInMap(fs: seq<Feature>, key: string)
    ensures (exists i :: 0 <= i < |fs| && fs[i].key == key) <==> key in Map(fs, FeatureKey)
  {
    var ks := Map(fs, FeatureKey);
    if exists i :: 0 <= i < |fs| && fs[i].key == key {
      var i :| 0 <= i < |fs| && fs[i].key == key;
      assert ks[i] == key;
    }
    if key in ks {
      var j :| 0 <= j < |ks| && ks[j] == key;
      assert fs[j].key == key;
    }
  }

  /** The option values a single select offers: the empty "(optional)"
      entry, then the options. */
  function SelectValues(w: Widget): (vs: seq<string>)
    requires w.SelectInput?
    ensures |vs| == |w.options| + 1 && vs[0] == ""
    ensures forall v :: v in vs <==> v == "" || v in w.options
  {
    [""] + w.options
  }

  // ----- getPreferencesFromInputs -----

  /** The state of a built input when "Run" is pressed: the value of a
      select or number box, or the values of a multi-select's selected
      options. */
  datatype Input = SingleInput(value: string) | MultiInput(selected: seq<string>)

  /** The keys whose preference is sent as a number. */
  const NumericPrefKeys: seq<string> := ["duration", "nbs_area", "total_cost"]

  /** The preference one input contributes, if any. */
  function PrefFor(key: string, input: Input): (p: Option<RecommenderModel.Pref>)
    ensures input.MultiInput? ==>
      (p.None? <==> forall i :: 0 <= i < |input.selected| ==> input.selected[i] == "")
    ensures input.MultiInput? && p.Some? ==>
      && p.value.PList? && |p.value.items| > 0
      && IsSubsequence(p.value.items, input.selected)
      && forall v :: v in p.value.items <==> v in input.selected && v != ""
    ensures input.SingleInput? ==>
      (p.None? <==> input.value == "" || (key in NumericPrefKeys && ToNumber(input.value).NaN?))
    ensures input.SingleInput? && p.Some? && key in NumericPrefKeys ==>
      p.value.PNum? && p.value.n == ToNumber(input.value) && !p.value.n.NaN?
    ensures input.SingleInput? && p.Some? && key !in NumericPrefKeys ==>
      p.value == RecommenderModel.PStr(input.value) && input.value != ""
  {
    match input
    case MultiInput(selected) =>
      var values := Filter(selected, RecommenderModel.NonEmptyText);
      if |values| > 0 then
        assert values[0] in selected && values[0] != "";
        Some(RecommenderModel.PList(values))
      else
        assert forall i :: 0 <= i < |selected| ==> selected[i] == "" by {
          forall i | 0 <= i < |selected|
            ensures selected[i] == ""
          {
            assert selected[i] !in values;
          }
        }
        None
    case SingleInput(v) =>
      if v == "" then None
      else if key in NumericPrefKeys then
        var n := ToNumber(v);
        if n.NaN? then None else Some(RecommenderModel.PNum(n))
      else Some(RecommenderModel.PStr(v))
  }

  /** `getPreferencesFromInputs()`: the selected keys are visited in order
      and each key with an input that yields a preference is set. */
  function Preferences(keys: seq<string>, inputs: map<string, Input>): (prefs: map<string, RecommenderModel.Pref>)
    ensures forall k :: k in prefs <==> k in keys && k in inputs && PrefFor(k, inputs[k]).Some?
    ensures forall k :: k in prefs ==> PrefFor(k, inputs[k]) == Some(prefs[k])
    decreases |keys|
  {
    if |keys| == 0 then map[]
    else
      var init := keys[..|keys| - 1];
      var k := keys[|keys| - 1];
      var prev := Preferences(init, inputs);
      assert forall x :: x in keys <==> x in init || x == k by {
        assert keys == init + [k];
      }
      if k in inputs && PrefFor(k, inputs[k]).Some? then prev[k := PrefFor(k, inputs[k]).value]
      else prev
  }

  /** A whole number typed into a numeric box is sent as that number. */
  lemma NumberPrefReadBack(key: string, n: nat)
    requires key in NumericPrefKeys
    ensures PrefFor(key, SingleInput(NatToString(n))) == Some(RecommenderModel.PNum(Finite(n as real)))
  {
    NatToStringRoundTrip(n);
  }

  /** Picking one of a categorical column's levels in its select reaches the
      model as a block that decodes to that level; leaving the select at
      "(optional)" gives an all-zero block. */
  lemma CategoricalChoiceReachesModel(keys: seq<string>, inputs: map<string, Input>, key: string, levels: seq<string>)
    requires key in keys && key !in NumericPrefKeys && key in inputs && inputs[key].SingleInput?
    requires Distinct(levels)
    ensures var v := inputs[key].value;
      var block := RecommenderModel.UserCategory(levels, RecommenderModel.PrefOf(Preferences(keys, inputs), key));
      && (v != "" && v in levels ==> RecommenderModel.DecodeOneHot(levels, block) == Some(v))
      && (v == "" ==> RecommenderModel.AllZero(block))
  {
    var prefs := Preferences(keys, inputs);
    RecommenderModel.UserCategoryDecodes(levels, RecommenderModel.PrefOf(prefs, key));
  }

  /** Funding tags picked in the multi-select reach the model unchanged. */
  lemma FundingChoiceReachesModel(keys: seq<string>, inputs: map<string, Input>, tags: seq<string>)
    requires RecommenderModel.Funding in keys && RecommenderModel.Funding in inputs
    requires inputs[RecommenderModel.Funding] == MultiInput(tags) && |tags| > 0
    requires forall k :: 0 <= k < |tags| ==> RecommenderModel.IsTag(tags[k])
    ensures RecommenderModel.UserFundingTags(RecommenderModel.PrefOf(Preferences(keys, inputs), RecommenderModel.Funding)) == tags
  {
    FundingInputPref(tags);
    assert RecommenderModel.PrefOf(Preferences(keys, inputs), RecommenderModel.Funding) == Some(RecommenderModel.PList(tags));
    ListedTagsKept(tags);
  }

  /** A multi-select of tags yields the list of those tags. */
  lemma FundingInputPref(tags: seq<string>)
    requires |tags| > 0 && forall k :: 0 <= k < |tags| ==> RecommenderModel.IsTag(tags[k])
    ensures PrefFor(RecommenderModel.Funding, MultiInput(tags)) == Some(RecommenderModel.PList(tags))
  {
    FilterAll(tags, RecommenderModel.NonEmptyText);
  }

  /** The model keeps a list of tags as it is. */
  lemma ListedTagsKept(tags: seq<string>)
    requires forall k :: 0 <= k < |tags| ==> RecommenderModel.IsTag(tags[k])
    ensures RecommenderModel.UserFundingTags(Some(RecommenderModel.PList(tags))) == tags
  {
    RecommenderModel.StripTags(tags);
    FilterAll(tags, RecommenderModel.NonEmptyText);
  }

  // ----- renderRSResults -----

  /** A JSON value of a result item. `text` is `String(n)`, the JavaScript
      text of a number, taken as given. */
  datatype Value = JNull | JStr(s: string) | JNum(n: Num, text: string)

  type Item = map<string, Value>

  function Lookup(item: Item, key: string): Option<Value> {
    if key in item then Some(item[key]) else None
  }

  /** `String(v)`. */
  function Text(v: Value): string {
    match v
    case JNull => "null"
    case JStr(s) => s
    case JNum(_, text) => text
  }

  /** JavaScript truthiness of a value or `undefined`. */
  predicate Truthy(v: Option<Value>) {
    v.Some? &&
    match v.value
    case JNull => false
    case JStr(s) => s != ""
    case JNum(n, _) => !n.NaN? && n != Finite(0.0)
  }

  /** `v || fallback`, as text. */
  function OrText(v: Option<Value>, fallback: string): (s: string)
    ensures Truthy(v) ==> s == Text(v.value)
    ensures !Truthy(v) ==> s == fallback
  {
    if Truthy(v) then Text(v.value) else fallback
  }

  /** An entry of `IMPORTANT_FIELDS`; `formatted` fields go through
      `formatNumber`. */
  datatype Field = Field(key: string, caption: string, formatted: bool)

  const ImportantFields: seq<Field> := [
    Field("status", "Status", false),
    Field("total_cost", "Total cost (\U{20ac})", true),
    Field("nbs_area", "NbS area (m\U{b2})", true),
    Field("duration", "Duration (years)", true),
    Field("previous_area_type", "Area before", false),
    Field("sources_of_funding", "Funding", false),
    Field("spatial_scale", "Spatial scale", false),
    Field("nbs_type", "NbS type", false)
  ]

  /** `item[f.key] != null && String(item[f.key]).trim() !== ""`. */
  predicate Shown(item: Item, key: string) {
    key in item && item[key] != JNull && Trim(Text(item[key])) != ""
  }

  function ShownIn(item: Item): Field -> bool {
    (f: Field) => Shown(item, f.key)
  }

  /** A details line: the field and the raw value it shows. */
  datatype Detail = Detail(field: Field, raw: Value)

  function DetailField(d: Detail): Field {
    d.field
  }

  /** A result card: the title, city and country as text, the details lines,
      and the escaped link target when the item has a link. */
  datatype Card = Card(title: string, city: string, country: string, details: seq<Detail>, link: Option<string>)

  /** `${i + 1}. ${item.intervention_name || "(no title)"}`. */
  function Title(n: nat, name: Option<Value>): string {
    NatToString(n) + ". " + OrText(name, "(no title)")
  }

  /** The number a title starts with: the text before its first ". ". */
  function TitleNumber(title: string): Num {
    ToNumber(title[..IndexOfSub(title, ". ")])
  }

  lemma TitleNumberReadsBack(n: nat, name: Option<Value>)
    ensures TitleNumber(Title(n, name)) == Finite(n as real)
  {
    var digits := NatToString(n);
    var t := Title(n, name);
    assert OccursAt(t, ". ", |digits|) by {
      assert t[|digits|..|digits| + 2] == ". ";
    }
    forall j | 0 <= j < |digits|
      ensures !OccursAt(t, ". ", j)
    {
      assert t[j..j + 2][0] == t[j] == digits[j];
      assert IsDigit(digits[j]);
    }
    assert IndexOfSub(t, ". ") == |digits|;
    assert t[..|digits|] == digits;
    NatToStringRoundTrip(n);
  }

  /** The details lines of an item: the important fields it fills in, in
      the order of `IMPORTANT_FIELDS`. */
  function Details(item: Item): (ds: seq<Detail>)
    ensures forall f :: f in Map(ds, DetailField) <==> f in ImportantFields && Shown(item, f.key)
    ensures IsSubsequence(Map(ds, DetailField), ImportantFields)
    ensures forall d :: d in ds ==> d.field.key in item && d.raw == item[d.field.key]
  {
    var fields := Filter(ImportantFields, ShownIn(item));
    var details := Map(fields, (f: Field) => Detail(f, if f.key in item then item[f.key] else JNull));
    assert Map(details, DetailField) == fields;
    assert forall i :: 0 <= i < |details| ==> details[i].field.key in item && details[i].raw == item[details[i].field.key] by {
      forall i | 0 <= i < |details|
        ensures details[i].field.key in item && details[i].raw == item[details[i].field.key]
      {
        assert details[i].field == fields[i] && fields[i] in fields;
      }
    }
    details
  }

  /** The `href` of the card's link: the escaped link text when the item has
      a truthy link. The escaped text cannot close the double-quoted
      attribute, and it reads back to the link. */
  function LinkTarget(item: Item): (link: Option<string>)
    ensures link.Some? <==> Truthy(Lookup(item, "link"))
    ensures link.Some? ==> '"' !in link.value && Unescape(link.value) == Text(item["link"])
  {
    var v := Lookup(item, "link");
    if Truthy(v) then
      UnescapeEscape(Text(v.value));
      EscapeHtmlNoMarkup(Text(v.value));
      Some(EscapeHtml(Text(v.value)))
    else None
  }

  /** The card of the item at 1-based position `n`. */
  function CardFor(n: nat, item: Item): Card {
    Card(Title(n, Lookup(item, "intervention_name")), OrText(Lookup(item, "city"), ""),
      OrText(Lookup(item, "country"), ""), Details(item), LinkTarget(item))
  }

  /** `xs` drawn one by one, each with its position counted from `n`. */
  function Numbered<T, U>(xs: seq<T>, n: nat, draw: (nat, T) -> U): (ys: seq<U>)
    ensures |ys| == |xs|
    ensures forall i :: 0 <= i < |xs| ==> ys[i] == draw(n + i, xs[i])
  {
    if |xs| == 0 then []
    else
      var rest := Numbered(xs[1..], n + 1, draw);
      assert forall i :: 1 <= i < |xs| ==> xs[i] == xs[1..][i - 1];
      [draw(n, xs[0])] + rest
  }

  /** What `renderRSResults(items)` shows: the "No recommendations" note, or
      one card per item. */
  datatype Results = NoResults | Cards(cards: seq<Card>)

  /** `renderRSResults(items)`: a missing or empty list gives the note;
      otherwise one card per item, in the order of the items, the item at
      index `i` titled with the number `i + 1`. */
  function Render(items: Option<seq<Item>>): (r: Results)
    ensures r.NoResults? <==> items.None? || |items.value| == 0
    ensures r.Cards? ==> |r.cards| == |items.value|
    ensures r.Cards? ==> forall i :: 0 <= i < |r.cards| ==> r.cards[i] == CardFor(i + 1, items.value[i])
  {
    match items
    case None => NoResults
    case Some(xs) =>
      if |xs| == 0 then NoResults
      else Cards(Numbered(xs, 1, CardFor))
  }

  /** The card at index `i` reads back as number `i + 1` and shows exactly
      the important fields its item fills in. */
  lemma RenderedCard(items: seq<Item>, i: nat)
    requires i < |items|
    ensures Render(Some(items)).Cards? && i < |Render(Some(items)).cards|
    ensures var card := Render(Some(items)).cards[i];
      && TitleNumber(card.title) == Finite((i + 1) as real)
      && forall f :: f in Map(card.details, DetailField) <==> f in ImportantFields && Shown(items[i], f.key)
  {
    TitleNumberReadsBack(i + 1, Lookup(items[i], "intervention_name"));
  }
}
