/** The map's city glyphs (`MapVis.updateVis`, `pieglyph` and `showPop` in
    both copies of mapVis.js): the projects are grouped by city and country,
    each group is placed at the first matching row of the city table, and each
    glyph is drawn as a pie of the selected metric. */
module MapVis {
  import opened Wrappers
  import opened Seqs
  import opened JsString
  import opened JsNumber
  import opened Records
  import opened Grouping

  const Separator := "|||"
  const Latitude := "latitude"
  const Longitude := "longitude"

  /** A (city, country) pair, each as the template literal prints it. */
  type Place = (string, string)

  /** `${d.city}` and `${d.country}`. */
  function PlaceOf(r: Record): Place {
    (Show(Get(r, City)), Show(Get(r, Country)))
  }

  /** Joins a place into the rollup key, `${city}|||${country}`. */
  function Encode(p: Place): string {
    p.0 + Separator + p.1
  }

  /** The rollup key of a project. */
  function PlaceKey(r: Record): string {
    Encode(PlaceOf(r))
  }

  /** `let [city, country] = key.split("|||")`: the first two parts. A key
      made by `Encode` always has a second part (`DecodeHasTwoParts`); the
      `undefined` of a missing one is written out for completeness. */
  function Decode(key: string): Place {
    var parts := SplitOn(key, Separator);
    (parts[0], if |parts| >= 2 then parts[1] else Show(None))
  }

  lemma DecodeHasTwoParts(p: Place)
    ensures |SplitOn(Encode(p), Separator)| >= 2
  {
    SplitOnSeparated(p.0, p.1, Separator);
  }

  /** A place whose names hold no `|` survives the key round trip. */
  predicate BarFree(p: Place) {
    '|' !in p.0 && '|' !in p.1
  }

  lemma DecodeEncode(p: Place)
    requires BarFree(p)
    ensures Decode(Encode(p)) == p
  {
    SplitOnPair(p.0, p.1, Separator);
  }

  /** `d.city === city && d.country === country` on a row of the city table. */
  predicate Located(row: Record, p: Place) {
    Get(row, City) == Some(p.0) && Get(row, Country) == Some(p.1)
  }

  /** Position of the first row of the city table at `p`, or the table's
      length when there is none. */
  function RowIndex(cityData: seq<Record>, p: Place): (i: nat)
    ensures i <= |cityData|
    ensures i < |cityData| ==> Located(cityData[i], p)
    ensures forall j :: 0 <= j < i ==> !Located(cityData[j], p)
  {
    if |cityData| == 0 then 0
    else if Located(cityData[0], p) then 0
    else
      var i := RowIndex(cityData[1..], p);
      assert forall j :: 1 <= j < |cityData| ==> cityData[1..][j - 1] == cityData[j];
      i + 1
  }

  /** `cityData.find(d => d.city === city && d.country === country)`. */
  function FindRow(cityData: seq<Record>, p: Place): (row: Option<Record>)
    ensures row.None? <==> forall i :: 0 <= i < |cityData| ==> !Located(cityData[i], p)
    ensures row.Some? ==> Located(row.value, p)
    ensures row.Some? ==> row.value == cityData[RowIndex(cityData, p)]
  {
    var i := RowIndex(cityData, p);
    if i < |cityData| then Some(cityData[i]) else None
  }

  /** One glyph of the map. */
  datatype Glyph = Glyph(
    city: string,
    country: string,
    projects: seq<Record>,
    count: nat,
    latitude: Num,
    longitude: Num)

  function GlyphPlace(g: Glyph): Place {
    (g.city, g.country)
  }

  function GlyphCount(g: Glyph): int {
    g.count
  }

  /** The glyph shows group `g` at its own place, at the coordinates of the
      first row of the city table there. */
  predicate From(glyph: Glyph, g: Group<Place, Record>, cityData: seq<Record>) {
    && FindRow(cityData, g.key).Some?
    && GlyphPlace(glyph) == g.key && glyph.projects == g.members && glyph.count == |g.members|
    && glyph.latitude == NumField(FindRow(cityData, g.key).value, Latitude)
    && glyph.longitude == NumField(FindRow(cityData, g.key).value, Longitude)
  }

  /** The body of the `projectsByCity.map(...)` callback: a glyph at the first
      matching row of the city table, or `null` when there is none. */
  function Locate(g: Group<Place, Record>, cityData: seq<Record>): (r: Option<Glyph>)
    ensures r.Some? <==> FindRow(cityData, g.key).Some?
    ensures r.Some? ==> From(r.value, g, cityData)
  {
    match FindRow(cityData, g.key)
    case None => None
    case Some(row) =>
      Some(Glyph(g.key.0, g.key.1, g.members, |g.members|,
        NumField(row, Latitude), NumField(row, Longitude)))
  }

  /** `.map(...).filter(d => d !== null)`. */
  function LocateAll(gs: seq<Group<Place, Record>>, cityData: seq<Record>): (glyphs: seq<Glyph>)
    ensures |glyphs| <= |gs|
    ensures forall i :: 0 <= i < |glyphs| ==>
      exists k :: 0 <= k < |gs| && From(glyphs[i], gs[k], cityData)
    ensures Sum(glyphs, GlyphCount) <= TotalSize(gs)
  {
    if |gs| == 0 then []
    else
      var rest := LocateAll(gs[1..], cityData);
      assert forall k :: 1 <= k < |gs| ==> gs[1..][k - 1] == gs[k];
      match Locate(gs[0], cityData)
      case None => rest
      case Some(g) =>
        SumAppend([g], rest, GlyphCount);
        [g] + rest
  }

  /** Every group the city table can place gets its glyph. */
  lemma {:induction false} LocateAllCovers(gs: seq<Group<Place, Record>>, cityData: seq<Record>, k: nat)
    requires k < |gs| && FindRow(cityData, gs[k].key).Some?
    ensures exists i :: 0 <= i < |LocateAll(gs, cityData)| && From(LocateAll(gs, cityData)[i], gs[k], cityData)
  {
    var glyphs := LocateAll(gs, cityData);
    var rest := LocateAll(gs[1..], cityData);
    if k == 0 {
      assert From(glyphs[0], gs[0], cityData);
    } else {
      assert gs[1..][k - 1] == gs[k];
      LocateAllCovers(gs[1..], cityData, k - 1);
      var i :| 0 <= i < |rest| && From(rest[i], gs[k], cityData);
      if Locate(gs[0], cityData).Some? {
        assert glyphs[i + 1] == rest[i];
      } else {
        assert glyphs[i] == rest[i];
      }
    }
  }

  /** Groups with distinct keys give glyphs at distinct places. */
  lemma {:induction false} LocateAllDistinct(gs: seq<Group<Place, Record>>, cityData: seq<Record>)
    requires DistinctKeys(gs)
    ensures Distinct(Map(LocateAll(gs, cityData), GlyphPlace))
  {
    if |gs| > 0 {
      var rest := LocateAll(gs[1..], cityData);
      assert DistinctKeys(gs[1..]);
      LocateAllDistinct(gs[1..], cityData);
      var places := Map(rest, GlyphPlace);
      if Locate(gs[0], cityData).Some? {
        var g := Locate(gs[0], cityData).value;
        forall i | 0 <= i < |rest|
          ensures GlyphPlace(rest[i]) != GlyphPlace(g)
        {
          var k :| 0 <= k < |gs[1..]| && From(rest[i], gs[1..][k], cityData);
          assert gs[1..][k] == gs[k + 1];
        }
        assert Map([g] + rest, GlyphPlace) == [GlyphPlace(g)] + places;
        DistinctCons(GlyphPlace(g), places);
      }
    }
  }

  /** The glyph sits at the first row of the city table at its place. */
  predicate PlacedAt(glyph: Glyph, cityData: seq<Record>) {
    var row := FindRow(cityData, GlyphPlace(glyph));
    row.Some? && glyph.latitude == NumField(row.value, Latitude)
    && glyph.longitude == NumField(row.value, Longitude)
  }

  /** Each glyph of the pair grouping holds exactly the projects at its place. */
  lemma PairGlyphContents(data: seq<Record>, cityData: seq<Record>, gs: seq<Group<Place, Record>>, glyphs: seq<Glyph>)
    requires forall i :: 0 <= i < |gs| ==> gs[i].members == Matching(data, PlaceOf, gs[i].key) && |gs[i].members| > 0
    requires forall i :: 0 <= i < |glyphs| ==> exists k :: 0 <= k < |gs| && From(glyphs[i], gs[k], cityData)
    ensures forall i :: 0 <= i < |glyphs| ==>
      glyphs[i].projects == Matching(data, PlaceOf, GlyphPlace(glyphs[i]))
      && glyphs[i].count == |glyphs[i].projects| > 0 && PlacedAt(glyphs[i], cityData)
  {
    forall i | 0 <= i < |glyphs|
      ensures glyphs[i].projects == Matching(data, PlaceOf, GlyphPlace(glyphs[i]))
        && glyphs[i].count == |glyphs[i].projects| > 0 && PlacedAt(glyphs[i], cityData)
    {
      var k :| 0 <= k < |gs| && From(glyphs[i], gs[k], cityData);
    }
  }

  /** A project's place has a glyph exactly when the city table has a row
      there. */
  lemma PairGlyphCoverage(data: seq<Record>, cityData: seq<Record>, gs: seq<Group<Place, Record>>)
    requires forall j :: 0 <= j < |data| ==> HasKey(gs, PlaceOf(data[j]))
    ensures var glyphs := LocateAll(gs, cityData);
      forall j :: 0 <= j < |data| ==>
        ((exists i :: 0 <= i < |glyphs| && GlyphPlace(glyphs[i]) == PlaceOf(data[j]))
          <==> FindRow(cityData, PlaceOf(data[j])).Some?)
  {
    var glyphs := LocateAll(gs, cityData);
    forall j | 0 <= j < |data|
      ensures (exists i :: 0 <= i < |glyphs| && GlyphPlace(glyphs[i]) == PlaceOf(data[j]))
        <==> FindRow(cityData, PlaceOf(data[j])).Some?
    {
      PlaceCovered(gs, cityData, PlaceOf(data[j]));
    }
  }

  lemma PlaceCovered(gs: seq<Group<Place, Record>>, cityData: seq<Record>, p: Place)
    requires HasKey(gs, p)
    ensures var glyphs := LocateAll(gs, cityData);
      (exists i :: 0 <= i < |glyphs| && GlyphPlace(glyphs[i]) == p) <==> FindRow(cityData, p).Some?
  {
    var glyphs := LocateAll(gs, cityData);
    if FindRow(cityData, p).Some? {
      var k := KeyIndex(gs, p);
      LocateAllCovers(gs, cityData, k);
      var i :| 0 <= i < |glyphs| && From(glyphs[i], gs[k], cityData);
      assert GlyphPlace(glyphs[i]) == p;
    } else {
      forall i | 0 <= i < |glyphs|
        ensures GlyphPlace(glyphs[i]) != p
      {
        var k' :| 0 <= k' < |gs| && From(glyphs[i], gs[k'], cityData);
      }
    }
  }

  /** The intended `updateVis`: group by the (city, country) pair itself and
      place each group. Every glyph carries all and only the projects at its
      place and sits at the first city-table row there, the places are
      distinct, and a project's place gets a glyph exactly when the city
      table has a row for it. */
  function CityGlyphs(data: seq<Record>, cityData: seq<Record>): (glyphs: seq<Glyph>)
    ensures Distinct(Map(glyphs, GlyphPlace))
    ensures forall i :: 0 <= i < |glyphs| ==>
      glyphs[i].projects == Matching(data, PlaceOf, GlyphPlace(glyphs[i]))
      && glyphs[i].count == |glyphs[i].projects| > 0 && PlacedAt(glyphs[i], cityData)
    ensures forall j :: 0 <= j < |data| ==>
      ((exists i :: 0 <= i < |glyphs| && GlyphPlace(glyphs[i]) == PlaceOf(data[j]))
        <==> FindRow(cityData, PlaceOf(data[j])).Some?)
    ensures Sum(glyphs, GlyphCount) <= |data|
  {
    var gs := GroupBy(data, PlaceOf);
    GroupByMembers(data, PlaceOf);
    var glyphs := LocateAll(gs, cityData);
    LocateAllDistinct(gs, cityData);
    PairGlyphContents(data, cityData, gs, glyphs);
    PairGlyphCoverage(data, cityData, gs);
    glyphs
  }

  /** `updateVis` as written: the rollup key is the joined text, and the
      place of each group is read back by splitting it. */
  function CityGlyphsAsWritten(data: seq<Record>, cityData: seq<Record>): (glyphs: seq<Glyph>)
    ensures forall i :: 0 <= i < |glyphs| ==>
      glyphs[i].count == |glyphs[i].projects| > 0
      && FindRow(cityData, GlyphPlace(glyphs[i])).Some?
      && forall x :: x in glyphs[i].projects ==> x in data
    ensures forall i :: 0 <= i < |glyphs| ==>
      exists g :: g in GroupBy(data, PlaceKey) && GlyphPlace(glyphs[i]) == Decode(g.key)
        && glyphs[i].projects == g.members == Matching(data, PlaceKey, g.key)
  {
    var gs := GroupBy(data, PlaceKey);
    GroupByMembers(data, PlaceKey);
    var hs := Map(gs, Rekey(Decode));
    forall k | 0 <= k < |hs|
      ensures |hs[k].members| > 0 && forall x :: x in hs[k].members ==> x in data
    {
      assert hs[k].members == gs[k].members;
    }
    LocatedMembers(hs, cityData, data);
    var glyphs := LocateAll(hs, cityData);
    forall i | 0 <= i < |glyphs|
      ensures exists g :: (g in gs && GlyphPlace(glyphs[i]) == Decode(g.key)
        && glyphs[i].projects == g.members == Matching(data, PlaceKey, g.key))
    {
      var k :| 0 <= k < |hs| && From(glyphs[i], hs[k], cityData);
      assert hs[k] == Group(Decode(gs[k].key), gs[k].members);
      assert gs[k] in gs;
    }
    glyphs
  }

  /** Glyphs of non-empty groups drawn from `data` count their projects, sit
      at a row of the city table and show only projects of `data`. */
  lemma LocatedMembers(hs: seq<Group<Place, Record>>, cityData: seq<Record>, data: seq<Record>)
    requires forall k :: 0 <= k < |hs| ==> |hs[k].members| > 0 && forall x :: x in hs[k].members ==> x in data
    ensures var glyphs := LocateAll(hs, cityData);
      forall i :: 0 <= i < |glyphs| ==>
        glyphs[i].count == |glyphs[i].projects| > 0
        && FindRow(cityData, GlyphPlace(glyphs[i])).Some?
        && forall x :: x in glyphs[i].projects ==> x in data
  {
    var glyphs := LocateAll(hs, cityData);
    forall i | 0 <= i < |glyphs|
      ensures glyphs[i].count == |glyphs[i].projects| > 0
        && FindRow(cityData, GlyphPlace(glyphs[i])).Some?
        && forall x :: x in glyphs[i].projects ==> x in data
    {
      var k :| 0 <= k < |hs| && From(glyphs[i], hs[k], cityData);
    }
  }

  /** When no city or country name holds a `|`, the joined key separates
      places exactly and the written code draws the intended glyphs. */
  lemma AsWrittenAgrees(data: seq<Record>, cityData: seq<Record>)
    requires forall x :: x in data ==> BarFree(PlaceOf(x))
    ensures CityGlyphsAsWritten(data, cityData) == CityGlyphs(data, cityData)
  {
    forall x | x in data
      ensures Decode(PlaceKey(x)) == PlaceOf(x)
    {
      DecodeEncode(PlaceOf(x));
    }
    forall x, y | x in data && y in data
      ensures PlaceKey(x) == PlaceKey(y) <==> PlaceOf(x) == PlaceOf(y)
    {
      if PlaceKey(x) == PlaceKey(y) {
        DecodeEncode(PlaceOf(x));
        DecodeEncode(PlaceOf(y));
      }
    }
    GroupByRekey(data, PlaceOf, PlaceKey, Decode);
  }

  /** Two projects at different places whose names contain the separator. */
  const BarredA: Record := map[City := "A|||B", Country := "C"]
  const BarredB: Record := map[City := "A", Country := "B|||C"]
  /** A city table with one row, at ("A", "B"). */
  const RowAB: Record := map[City := "A", Country := "B", Latitude := "1", Longitude := "2"]

  lemma DecodeMerged()
    ensures Decode("A|||B|||C") == ("A", "B")
  {
    var s := "A|||B|||C";
    assert OccursAt(s, Separator, 1) by {
      assert s[1..4] == Separator;
    }
    assert !OccursAt(s, Separator, 0) by {
      assert s[0] != Separator[0];
    }
    assert IndexOfSub(s, Separator) == 1;
    assert s[4..] == "B" + Separator + "C";
    SplitOnPair("B", "C", Separator);
    assert s[..1] == "A";
    assert SplitOn(s, Separator) == [s[..1]] + SplitOn(s[4..], Separator);
  }

  /** The joined key merges the two projects into one group, which the split
      then places at ("A", "B"), where neither project is. */
  lemma BarredPlacesMerge()
    ensures PlaceKey(BarredA) == PlaceKey(BarredB) && PlaceOf(BarredA) != PlaceOf(BarredB)
    ensures Decode(PlaceKey(BarredA)) == ("A", "B")
    ensures Decode(PlaceKey(BarredA)) != PlaceOf(BarredA)
      && Decode(PlaceKey(BarredA)) != PlaceOf(BarredB)
    ensures |GroupBy([BarredA, BarredB], PlaceKey)| == 1
    ensures |GroupBy([BarredA, BarredB], PlaceOf)| == 2
  {
    assert PlaceOf(BarredA) == ("A|||B", "C");
    assert PlaceOf(BarredB) == ("A", "B|||C");
    assert PlaceKey(BarredA) == "A|||B|||C";
    assert PlaceKey(BarredB) == "A|||B|||C";
    DecodeMerged();
    assert [BarredA, BarredB][..1] == [BarredA];
    assert |GroupBy([BarredA], PlaceKey)| == 1;
    assert |GroupBy([BarredA], PlaceOf)| == 1;
  }

  lemma BarredGroup()
    ensures GroupBy([BarredA, BarredB], PlaceKey) == [Group("A|||B|||C", [BarredA, BarredB])]
  {
    var key := "A|||B|||C";
    assert PlaceKey(BarredA) == key && PlaceKey(BarredB) == key;
    assert [BarredA][..0] == [];
    assert GroupBy([BarredA], PlaceKey) == [Group(key, [BarredA])];
    var g1 := [Group(key, [BarredA])];
    assert [BarredA, BarredB][..1] == [BarredA];
    assert GroupBy([BarredA, BarredB], PlaceKey) == AddMember(g1, key, BarredB);
    assert KeyIndex(g1, key) == 0;
    assert AddMember(g1, key, BarredB) == g1[0 := Group(key, [BarredA] + [BarredB])];
    assert [BarredA] + [BarredB] == [BarredA, BarredB];
  }

  /** The joined key puts both projects in one group, which the split key
      places at ("A", "B"). */
  lemma BarredRekeyed()
    ensures Map(GroupBy([BarredA, BarredB], PlaceKey), Rekey(Decode)) == [Group(("A", "B"), [BarredA, BarredB])]
  {
    BarredGroup();
    DecodeMerged();
    var gs := GroupBy([BarredA, BarredB], PlaceKey);
    assert Map(gs, Rekey(Decode))[0] == Group(("A", "B"), [BarredA, BarredB]);
  }

  /** A single group with a single matching row gives a single glyph. */
  lemma LocateSingle(g: Group<Place, Record>, row: Record)
    requires Located(row, g.key)
    ensures LocateAll([g], [row]) ==
      [Glyph(g.key.0, g.key.1, g.members, |g.members|, NumField(row, Latitude), NumField(row, Longitude))]
  {
    assert FindRow([row], g.key) == Some(row);
    assert [g][1..] == [];
  }

  /** With a city table that has a row only at ("A", "B"), the written code
      draws one glyph of both projects there. */
  lemma BarredGlyphsAsWritten()
    ensures |CityGlyphsAsWritten([BarredA, BarredB], [RowAB])| == 1
    ensures CityGlyphsAsWritten([BarredA, BarredB], [RowAB])[0].count == 2
    ensures GlyphPlace(CityGlyphsAsWritten([BarredA, BarredB], [RowAB])[0]) == ("A", "B")
  {
    BarredRekeyed();
    assert Located(RowAB, ("A", "B"));
    LocateSingle(Group(("A", "B"), [BarredA, BarredB]), RowAB);
  }

  /** The intended grouping draws no glyph for them, as neither project is at
      ("A", "B"). */
  lemma BarredGlyphsIntended()
    ensures CityGlyphs([BarredA, BarredB], [RowAB]) == []
  {
    var data := [BarredA, BarredB];
    assert PlaceOf(BarredA) == ("A|||B", "C");
    assert PlaceOf(BarredB) == ("A", "B|||C");
    forall p | FindRow([RowAB], p).Some?
      ensures Matching(data, PlaceOf, p) == []
    {
      assert Located(RowAB, p);
      assert p == ("A", "B");
      assert forall x :: x in data ==> PlaceOf(x) != p;
    }
  }

  // ----- pies and legend -----

  /** `p[window.selectedMetrics] || "Unknown"`. */
  function MetricKey(metric: string): Record -> string {
    r => OrUnknown(Get(r, metric))
  }

  /** One slice, `{key, value}`. */
  datatype Slice = Slice(key: string, value: nat)

  function SliceValue(s: Slice): int {
    s.value
  }

  function ToSlice(g: Group<string, Record>): Slice {
    Slice(g.key, |g.members|)
  }

  lemma {:induction false} SumSlices(gs: seq<Group<string, Record>>)
    ensures Sum(Map(gs, ToSlice), SliceValue) == TotalSize(gs)
  {
    if |gs| > 0 {
      assert Map(gs, ToSlice)[1..] == Map(gs[1..], ToSlice);
      SumSlices(gs[1..]);
    }
  }

  /** `d3.rollups(d.projects, v => v.length, metricKey)` mapped to slices:
      one slice per distinct metric value, sized by its projects, in
      first-seen order, the sizes adding up to the number of projects. */
  function PieData(projects: seq<Record>, metric: string): (slices: seq<Slice>)
    ensures Sum(slices, SliceValue) == |projects|
    ensures forall i :: 0 <= i < |slices| ==>
      slices[i].value == |Matching(projects, MetricKey(metric), slices[i].key)| > 0
    ensures forall i, j :: 0 <= i < j < |slices| ==> slices[i].key != slices[j].key
    ensures forall j :: 0 <= j < |projects| ==>
      exists i :: 0 <= i < |slices| && slices[i].key == OrUnknown(Get(projects[j], metric))
    ensures forall i, j :: 0 <= i < j < |slices| ==>
      FirstWithKey(projects, MetricKey(metric), slices[i].key) < FirstWithKey(projects, MetricKey(metric), slices[j].key)
  {
    var gs := GroupBy(projects, MetricKey(metric));
    GroupByMembers(projects, MetricKey(metric));
    GroupByFirstSeen(projects, MetricKey(metric));
    SumSlices(gs);
    var slices := Map(gs, ToSlice);
    forall j | 0 <= j < |projects|
      ensures exists i :: 0 <= i < |slices| && slices[i].key == OrUnknown(Get(projects[j], metric))
    {
      var i := KeyIndex(gs, MetricKey(metric)(projects[j]));
      assert slices[i].key == OrUnknown(Get(projects[j], metric));
    }
    slices
  }

  /** A glyph's pie covers exactly its projects. */
  lemma PieCoversGlyph(data: seq<Record>, cityData: seq<Record>, metric: string, i: nat)
    requires i < |CityGlyphs(data, cityData)|
    ensures var g := CityGlyphs(data, cityData)[i];
      Sum(PieData(g.projects, metric), SliceValue) == g.count
  {
  }

  /** All projects of all glyphs, glyph by glyph. */
  function Projects(glyphs: seq<Glyph>): (ps: seq<Record>)
    ensures forall p :: p in ps <==> exists i :: 0 <= i < |glyphs| && p in glyphs[i].projects
  {
    if |glyphs| == 0 then []
    else
      var rest := Projects(glyphs[1..]);
      assert forall i :: 1 <= i < |glyphs| ==> glyphs[1..][i - 1] == glyphs[i];
      glyphs[0].projects + rest
  }

  /** The colour domain of the webapp's `pieglyph`: `Array.from` of a set
      filled with every project's metric value, so each value once, in the
      order first seen. */
  function Categories(glyphs: seq<Glyph>, metric: string): (cats: seq<string>)
    ensures Distinct(cats)
    ensures forall c :: c in cats <==>
      exists i :: 0 <= i < |glyphs| && exists p :: p in glyphs[i].projects && MetricKey(metric)(p) == c
  {
    var keys := Map(Projects(glyphs), MetricKey(metric));
    var cats := Dedup(keys);
    forall c
      ensures c in cats <==>
        exists i :: 0 <= i < |glyphs| && exists p :: p in glyphs[i].projects && MetricKey(metric)(p) == c
    {
      if c in keys {
        var n :| 0 <= n < |keys| && keys[n] == c;
        assert Projects(glyphs)[n] in Projects(glyphs);
      }
      if exists i :: 0 <= i < |glyphs| && exists p :: p in glyphs[i].projects && MetricKey(metric)(p) == c {
        var i :| 0 <= i < |glyphs| && exists p :: p in glyphs[i].projects && MetricKey(metric)(p) == c;
        var p :| p in glyphs[i].projects && MetricKey(metric)(p) == c;
        assert p in Projects(glyphs);
        var n :| 0 <= n < |Projects(glyphs)| && Projects(glyphs)[n] == p;
        assert keys[n] == c;
      }
    }
    cats
  }

  /** The categories keep the order in which the projects first show them. */
  lemma CategoriesFirstSeen(glyphs: seq<Glyph>, metric: string)
    ensures var keys := Map(Projects(glyphs), MetricKey(metric));
      var cats := Categories(glyphs, metric);
      forall i, j :: 0 <= i < j < |cats| ==> First(keys, cats[i]) < First(keys, cats[j])
  {
    DedupFirstSeen(Map(Projects(glyphs), MetricKey(metric)));
  }
}
