/** `MapTools`: the identify tool's pick menu, and the create tool's capture of a
    new restriction up to the moment the restriction form opens. */
module MapTools {
  import opened Wrappers
  import opened Text
  import opened Schema
  import opened Constants
  import opened Ledger
  import opened Store
  import opened RestrictionDialog

  // ------------------------------------------------------------ pick menu

  /** The title of a menu entry: `"<description> [<GeometryID>]"`. */
  function MenuTitle(desc: string, gid: string): string
  {
    desc + " [" + gid + "]"
  }

  /** The title of one sign of a Signs feature. */
  function SignMenuTitle(desc: string, gid: string): string
  {
    "Sign: " + MenuTitle(desc, gid)
  }

  /** `str(getLookupDescription(...))`: a missing description prints as "None". */
  function DescriptionText(d: Option<string>): (t: string)
    ensures d.Some? ==> t == d.value
  {
    if d.None? then "None" else d.value
  }

  /** `onRestrictionSelectMenuClicked`: the text between the first '[' and the first
      ']' of the clicked title. */
  function TitleGeometryId(title: string): string
  {
    PySlice(title, Find(title, '[') + 1, Find(title, ']'))
  }

  /** The first occurrence is the first index holding the character. */
  lemma FindIsFirst(s: string, c: char, k: int)
    requires 0 <= k < |s| && s[k] == c && c !in s[..k]
    ensures Find(s, c) == k
  {
    assert s[k] == c;
  }

  /** The text between the first '[' and the first ']' of `a + "[" + b + "]" + c`
      is `b` when `a` holds no bracket and `b` no closing bracket. */
  lemma BracketedPart(a: string, b: string, c: string)
    requires '[' !in a && ']' !in a && ']' !in b
    ensures TitleGeometryId(a + "[" + b + "]" + c) == b
  {
    var t := a + "[" + b + "]" + c;
    var open := |a|;
    var close := |a| + 1 + |b|;
    assert t[..open] == a;
    FindIsFirst(t, '[', open);
    assert t[..close] == a + "[" + b;
    assert ']' !in a + "[" + b;
    FindIsFirst(t, ']', close);
    assert t[open + 1..close] == b;
  }

  /** The title of an entry gives back its GeometryID, provided the description has
      no brackets and the GeometryID no closing bracket. */
  lemma TitleRoundTrip(desc: string, gid: string)
    requires '[' !in desc && ']' !in desc && ']' !in gid
    ensures TitleGeometryId(MenuTitle(desc, gid)) == gid
  {
    assert MenuTitle(desc, gid) == (desc + " ") + "[" + gid + "]" + "";
    BracketedPart(desc + " ", gid, "");
  }

  /** The same for the title of one sign. */
  lemma SignTitleRoundTrip(desc: string, gid: string)
    requires '[' !in desc && ']' !in desc && ']' !in gid
    ensures TitleGeometryId(SignMenuTitle(desc, gid)) == gid
  {
    var prefix := "Sign: ";
    var signDesc := prefix + desc;
    assert '[' !in prefix && ']' !in prefix;
    assert '[' !in signDesc && ']' !in signDesc;
    TitleRoundTrip(signDesc, gid);
    AppendAssoc(prefix, desc, " [");
    AppendAssoc(prefix, desc + " [", gid);
    AppendAssoc(prefix, desc + " [" + gid, "]");
  }

  /** A description that itself holds brackets hides the GeometryID: the menu hands
      back the bracketed part of the description. */
  lemma BracketedDescriptionMisleads()
    ensures TitleGeometryId(MenuTitle("Bay [old]", "G1")) == "old"
  {
    assert MenuTitle("Bay [old]", "G1") == "Bay " + "[" + "old" + "]" + " [G1]";
    BracketedPart("Bay ", "old", " [G1]");
  }

  /** A feature found under the click, as `getFeatureList` sees it. */
  datatype Identified = Identified(
    gid: string,           // str(GeometryID)
    layerType: int,        // the RestrictionLayers value of its layer
    hasTypeField: bool,    // the layer has a RestrictionTypeID field
    typeId: Value,         // RestrictionTypeID
    signTypes: seq<Value>) // SignType_1, SignType_2, ... up to the first field the layer lacks

  /** The lookup tables the titles read. */
  datatype Lookups = Lookups(bayLineTypes: seq<LookupRow>, signTypes: seq<LookupRow>, polygonTypes: seq<LookupRow>)

  /** The SignType fields the loop visits: `range(1, 10)` stops at the ninth. */
  function VisitedSigns(e: Identified): (vs: seq<Value>)
    ensures |vs| <= 9 && |vs| <= |e.signTypes| && vs == e.signTypes[..|vs|]
    ensures |e.signTypes| <= 9 ==> vs == e.signTypes
  {
    if |e.signTypes| <= 9 then e.signTypes else e.signTypes[..9]
  }

  function SignTitles(vs: seq<Value>, gid: string, table: seq<LookupRow>): (ts: seq<string>)
    ensures |ts| <= |vs|
    ensures forall k :: 0 <= k < |ts| ==> exists d :: (ts[k] == SignMenuTitle(DescriptionText(d), gid) &&
      (d.Some? ==> exists i :: 0 <= i < |table| && table[i].description == d.value))
  {
    if |vs| == 0 then []
    else
      var rest := SignTitles(vs[1..], gid, table);
      if Truthy(vs[0]) then
        var d := LookupDescription(table, vs[0]);
        [SignMenuTitle(DescriptionText(d), gid)] + rest
      else rest
  }

  /** The titles one feature contributes: one per set sign on a Signs feature, one
      for any other feature with a RestrictionTypeID field, none otherwise. */
  function EntryTitles(e: Identified, tables: Lookups): (ts: seq<string>)
    ensures e.layerType != LayerValue(Signs) ==> |ts| == (if e.hasTypeField then 1 else 0)
    ensures e.layerType == LayerValue(Signs) ==> |ts| <= |VisitedSigns(e)|
  {
    if e.layerType == LayerValue(Signs) then SignTitles(VisitedSigns(e), e.gid, tables.signTypes)
    else if !e.hasTypeField then []
    else
      var table := if e.layerType == LayerValue(RestrictionPolygons) then tables.polygonTypes else tables.bayLineTypes;
      [MenuTitle(DescriptionText(LookupDescription(table, e.typeId)), e.gid)]
  }

  /** `getFeatureList`: the titles of every feature, in the order found. */
  function FeatureList(es: seq<Identified>, tables: Lookups): (ts: seq<string>)
    ensures |es| == 0 ==> ts == []
    ensures |es| > 0 ==> ts == EntryTitles(es[0], tables) + FeatureList(es[1..], tables)
  {
    if |es| == 0 then [] else EntryTitles(es[0], tables) + FeatureList(es[1..], tables)
  }

  /** Every description in the lookup tables is free of brackets. */
  predicate PlainDescriptions(tables: Lookups)
  {
    && (forall i :: 0 <= i < |tables.bayLineTypes| ==> '[' !in tables.bayLineTypes[i].description && ']' !in tables.bayLineTypes[i].description)
    && (forall i :: 0 <= i < |tables.signTypes| ==> '[' !in tables.signTypes[i].description && ']' !in tables.signTypes[i].description)
    && (forall i :: 0 <= i < |tables.polygonTypes| ==> '[' !in tables.polygonTypes[i].description && ']' !in tables.polygonTypes[i].description)
  }

  /** `doSelectFeature`: the first found feature with that GeometryID. */
  function SelectFeature(es: seq<Identified>, gid: string): (r: Option<nat>)
    ensures r.Some? ==> (r.value < |es| && es[r.value].gid == gid &&
      forall k :: 0 <= k < r.value ==> es[k].gid != gid)
    ensures r.None? <==> forall k :: 0 <= k < |es| ==> es[k].gid != gid
  {
    if |es| == 0 then None
    else if es[0].gid == gid then Some(0)
    else
      var r := SelectFeature(es[1..], gid);
      assert forall k :: 1 <= k < |es| ==> es[k] == es[1..][k - 1];
      if r.None? then None else Some(r.value + 1)
  }

  /** Every title of one feature names that feature's GeometryID. */
  lemma EntryTitlesName(e: Identified, tables: Lookups, k: int)
    requires PlainDescriptions(tables) && ']' !in e.gid
    requires 0 <= k < |EntryTitles(e, tables)|
    ensures TitleGeometryId(EntryTitles(e, tables)[k]) == e.gid
  {
    var ts := EntryTitles(e, tables);
    if e.layerType == LayerValue(Signs) {
      var d :| ts[k] == SignMenuTitle(DescriptionText(d), e.gid) &&
        (d.Some? ==> exists i :: 0 <= i < |tables.signTypes| && tables.signTypes[i].description == d.value);
      SignTitleRoundTrip(DescriptionText(d), e.gid);
    } else {
      var table := if e.layerType == LayerValue(RestrictionPolygons) then tables.polygonTypes else tables.bayLineTypes;
      var d := LookupDescription(table, e.typeId);
      TitleRoundTrip(DescriptionText(d), e.gid);
    }
  }

  /** No found GeometryID holds a closing bracket. */
  predicate PlainIds(es: seq<Identified>)
  {
    forall i :: 0 <= i < |es| ==> ']' !in es[i].gid
  }

  /** Some found feature has the GeometryID. */
  predicate Found(es: seq<Identified>, gid: string)
  {
    exists i :: 0 <= i < |es| && es[i].gid == gid
  }

  lemma FoundInTail(es: seq<Identified>, gid: string)
    requires |es| > 0 && Found(es[1..], gid)
    ensures Found(es, gid)
  {
    var i :| 0 <= i < |es[1..]| && es[1..][i].gid == gid;
    assert es[i + 1].gid == gid;
  }

  /** Every title of the menu comes from some found feature and names its
      GeometryID. */
  lemma {:induction false} FeatureListNames(es: seq<Identified>, tables: Lookups, k: int)
    requires PlainDescriptions(tables) && PlainIds(es)
    requires 0 <= k < |FeatureList(es, tables)|
    ensures Found(es, TitleGeometryId(FeatureList(es, tables)[k]))
    decreases |es|
  {
    var n := |EntryTitles(es[0], tables)|;
    FeatureListAt(es, tables, k);
    if k < n {
      EntryTitlesName(es[0], tables, k);
      assert Found(es, es[0].gid);
    } else {
      PlainIdsTail(es);
      FeatureListNames(es[1..], tables, k - n);
      FoundInTail(es, TitleGeometryId(FeatureList(es[1..], tables)[k - n]));
    }
  }

  /** An entry of the menu is either one of the first feature's titles or an entry
      of the rest's menu. */
  lemma FeatureListAt(es: seq<Identified>, tables: Lookups, k: int)
    requires 0 <= k < |FeatureList(es, tables)|
    ensures |es| > 0
    ensures var n := |EntryTitles(es[0], tables)|;
      && (k < n ==> FeatureList(es, tables)[k] == EntryTitles(es[0], tables)[k])
      && (k >= n ==> (k - n < |FeatureList(es[1..], tables)| &&
                      FeatureList(es, tables)[k] == FeatureList(es[1..], tables)[k - n]))
  {
  }

  lemma PlainIdsTail(es: seq<Identified>)
    requires |es| > 0 && PlainIds(es)
    ensures PlainIds(es[1..])
  {
    assert forall i :: 0 <= i < |es[1..]| ==> es[1..][i] == es[i + 1];
  }

  /** Clicking any entry of the menu selects a found feature whose GeometryID is
      the one in the title. */
  lemma MenuSelectsListedFeature(es: seq<Identified>, tables: Lookups, k: int)
    requires PlainDescriptions(tables) && PlainIds(es)
    requires 0 <= k < |FeatureList(es, tables)|
    ensures var gid := TitleGeometryId(FeatureList(es, tables)[k]);
      SelectFeature(es, gid).Some? && es[SelectFeature(es, gid).value].gid == gid
  {
    FeatureListNames(es, tables, k);
  }

  // ------------------------------------------------------- create: capture

  /** A captured vertex; coordinates are kept opaque. */
  datatype Point = Point(x: int, y: int)

  /** The shape the capture builds for the layer's geometry type. */
  datatype Shape = PointShape(p: Point) | LineShape(ps: seq<Point>) | PolygonShape(ring: seq<Point>)

  /** The vertices a shape carries. */
  function Vertices(sh: Shape): seq<Point>
  {
    match sh
    case PointShape(p) => [p]
    case LineShape(ps) => ps
    case PolygonShape(ring) => ring
  }

  /** The outcome of `getPointsCaptured` before the feature is filled in. */
  datatype Capture = NothingCaptured | LineWithOnePoint | NoGeometryType | Captured(shape: Shape)

  /** Geometry-type codes of a QGIS layer: 0 point, 1 line, 2 polygon. */
  function CaptureShape(geometryType: int, points: seq<Point>): (r: Capture)
    ensures r.Captured? <==> (|points| > 0 &&
      (geometryType == 0 || (geometryType == 1 && |points| >= 2) || geometryType == 2))
    ensures r == LineWithOnePoint <==> geometryType == 1 && |points| == 1
    ensures r.Captured? ==> Vertices(r.shape) == (if geometryType == 0 then points[..1] else points)
    ensures r.Captured? ==> (r.shape.PointShape? <==> geometryType == 0) && (r.shape.LineShape? <==> geometryType == 1)
  {
    if |points| == 0 then NothingCaptured
    else if geometryType == 0 then Captured(PointShape(points[0]))
    else if geometryType == 1 then (if |points| < 2 then LineWithOnePoint else Captured(LineShape(points)))
    else if geometryType == 2 then Captured(PolygonShape(points))
    else NoGeometryType
  }

  // ------------------------------------------------------ create: defaults

  /** `QgsSettings().value(key, default)`: the stored value, else the default. */
  function Setting(settings: map<string, Value>, key: string, default: int): (v: Value)
    ensures key !in settings ==> v == IntV(default)
  {
    if key in settings then settings[key] else IntV(default)
  }

  /** Fields outside `written` keep their values, and no field is added. */
  predicate KeepsOthers(before: map<string, Value>, after: map<string, Value>, written: set<string>)
  {
    after.Keys == before.Keys && forall k :: k in before && k !in written ==> after[k] == before[k]
  }

  /** `setAttribute` by name: None when the feature has no such field, where
      PyQGIS raises KeyError. */
  function SetAttr(attrs: map<string, Value>, name: string, v: Value): (r: Option<map<string, Value>>)
    ensures r.Some? <==> name in attrs
    ensures r.Some? ==> KeepsOthers(attrs, r.value, {name}) && r.value[name] == v
  {
    if name in attrs then Some(attrs[name := v]) else None
  }

  /** The field names a list of writes touches. */
  function Names(ws: seq<(string, Value)>): set<string>
  {
    set i | 0 <= i < |ws| :: ws[i].0
  }

  /** A run of `setAttribute` calls, in order; the first missing field raises and
      ends the run. */
  function SetAll(attrs: map<string, Value>, ws: seq<(string, Value)>): (r: Option<map<string, Value>>)
    ensures r.Some? <==> Names(ws) <= attrs.Keys
    ensures r.Some? ==> KeepsOthers(attrs, r.value, Names(ws))
    ensures r.Some? ==> forall i :: 0 <= i < |ws| && (forall j :: i < j < |ws| ==> ws[j].0 != ws[i].0) ==>
      r.value[ws[i].0] == ws[i].1
    decreases |ws|
  {
    if |ws| == 0 then Some(attrs)
    else
      var a := SetAttr(attrs, ws[0].0, ws[0].1);
      assert Names(ws) == {ws[0].0} + Names(ws[1..]) by {
        assert forall i :: 1 <= i < |ws| ==> ws[i] == ws[1..][i - 1];
      }
      if a.None? then None
      else
        var r := SetAll(a.value, ws[1..]);
        assert r.Some? ==> forall i :: 0 <= i < |ws| && (forall j :: i < j < |ws| ==> ws[j].0 != ws[i].0) ==>
          r.value[ws[i].0] == ws[i].1 by {
          if r.Some? {
            forall i | 0 <= i < |ws| && (forall j :: i < j < |ws| ==> ws[j].0 != ws[i].0)
              ensures r.value[ws[i].0] == ws[i].1
            {
              if i == 0 {
                assert forall j :: 0 <= j < |ws| - 1 ==> ws[1..][j] == ws[j + 1];
              } else {
                assert ws[i] == ws[1..][i - 1];
                assert forall j :: i - 1 < j < |ws| - 1 ==> ws[1..][j] == ws[j + 1];
              }
            }
          }
        }
        r
  }

  /** `setAttribute` inside the pay-parking `try`: a missing field raises KeyError,
      which the handler swallows, so nothing is written. */
  function SetField(attrs: map<string, Value>, name: string, v: Value): (r: map<string, Value>)
    ensures KeepsOthers(attrs, r, {name})
    ensures name in attrs ==> r[name] == v
  {
    if name in attrs then attrs[name := v] else attrs
  }

  /** What the (not modelled) geometry utilities report for the captured shape:
      the CPZ, event-day zone and tariff area under it with their time periods,
      and the pay-parking area, None when that lookup raises. */
  datatype Surroundings = Surroundings(
    cpz: Value, cpzWaitingTime: Value, eventDay: Value, eventDayWaitingTime: Value,
    pta: Value, ptaMaxStay: Value, ptaNoReturn: Value, payParkingArea: Option<Value>)

  /** The zone fields every layer but Signs receives. */
  const ZoneFields: set<string> := {"CPZ", "MatchDayEventDayZone"}

  /** The fields each layer's own branch writes outside the pay-parking `try`. */
  function LayerFields(layerName: string): set<string>
  {
    if layerName == "Lines" then {"RestrictionTypeID", "GeomShapeID", "NoWaitingTimeID", "MatchDayTimePeriodID"}
    else if layerName == "Bays" then {"RestrictionTypeID", "GeomShapeID", "NrBays", "TimePeriodID", "MatchDayTimePeriodID",
                                      "MaxStayID", "NoReturnID", "ParkingTariffArea"}
    else if layerName == "Signs" then {"SignType_1"}
    else if layerName == "RestrictionPolygons" then {"RestrictionTypeID", "MatchDayTimePeriodID"}
    else {}
  }

  /** The fields the layer must have for `setDefaultRestrictionDetails` not to raise. */
  function RequiredFields(layerName: string): set<string>
  {
    (if layerName != "Signs" then ZoneFields else {}) + LayerFields(layerName)
  }

  /** The fields `setDefaultRestrictionDetails` may write on a layer. */
  function DefaultedFields(layerName: string): set<string>
  {
    RequiredFields(layerName) + (if layerName == "Bays" then {"PayParkingAreaID"} else {})
  }

  function ZoneWrites(env: Surroundings): seq<(string, Value)>
  {
    [("CPZ", env.cpz), ("MatchDayEventDayZone", env.eventDay)]
  }

  /** The layer's own branch of the defaults, as writes in source order. */
  function LayerWrites(layerName: string, settings: map<string, Value>, env: Surroundings): seq<(string, Value)>
  {
    if layerName == "Lines" then
      [("RestrictionTypeID", Setting(settings, "Lines/RestrictionTypeID", 224)),
       ("GeomShapeID", Setting(settings, "Lines/GeomShapeID", 10)),
       ("NoWaitingTimeID", env.cpzWaitingTime),
       ("MatchDayTimePeriodID", env.eventDayWaitingTime)]
    else if layerName == "Bays" then
      [("RestrictionTypeID", Setting(settings, "Bays/RestrictionTypeID", 101)),
       ("GeomShapeID", Setting(settings, "Bays/GeomShapeID", 21)),
       ("NrBays", IntV(-1)),
       ("TimePeriodID", env.cpzWaitingTime),
       ("MatchDayTimePeriodID", env.eventDayWaitingTime),
       ("MaxStayID", env.ptaMaxStay),
       ("NoReturnID", env.ptaNoReturn),
       ("ParkingTariffArea", env.pta)]
    else if layerName == "Signs" then
      [("SignType_1", Setting(settings, "Signs/SignType_1", 28))]
    else if layerName == "RestrictionPolygons" then
      [("RestrictionTypeID", Setting(settings, "RestrictionPolygons/RestrictionTypeID", 4)),
       ("MatchDayTimePeriodID", env.eventDayWaitingTime)]
    else []
  }

  /** The writes of `setDefaultRestrictionDetails` before the pay-parking `try`. */
  function DefaultWrites(layerName: string, settings: map<string, Value>, env: Surroundings): seq<(string, Value)>
  {
    (if layerName != "Signs" then ZoneWrites(env) else []) + LayerWrites(layerName, settings, env)
  }

  /** The names of two write lists, one after the other. */
  lemma NamesConcat(a: seq<(string, Value)>, b: seq<(string, Value)>)
    ensures Names(a + b) == Names(a) + Names(b)
  {
    assert forall i :: 0 <= i < |a| ==> (a + b)[i] == a[i];
    assert forall i :: 0 <= i < |b| ==> (a + b)[|a| + i] == b[i];
  }

  /** The writes touch exactly the required fields. */
  lemma WritesCover(layerName: string, settings: map<string, Value>, env: Surroundings)
    ensures Names(DefaultWrites(layerName, settings, env)) == RequiredFields(layerName)
  {
    var z := if layerName != "Signs" then ZoneWrites(env) else [];
    var w := LayerWrites(layerName, settings, env);
    NamesConcat(z, w);
    assert Names(z) == (if layerName != "Signs" then ZoneFields else {}) by {
      if layerName != "Signs" {
        assert z[0].0 == "CPZ" && z[1].0 == "MatchDayEventDayZone";
      }
    }
    LayerWritesNames(layerName, settings, env);
  }

  /** A layer's own writes touch exactly its layer fields. */
  lemma LayerWritesNames(layerName: string, settings: map<string, Value>, env: Surroundings)
    ensures Names(LayerWrites(layerName, settings, env)) == LayerFields(layerName)
  {
    var w := LayerWrites(layerName, settings, env);
    if layerName == "Lines" {
      assert Names(w) == {w[0].0, w[1].0, w[2].0, w[3].0};
    } else if layerName == "Bays" {
      assert Names(w) == {w[0].0, w[1].0, w[2].0, w[3].0, w[4].0, w[5].0, w[6].0, w[7].0};
    } else if layerName == "Signs" {
      assert Names(w) == {w[0].0};
    } else if layerName == "RestrictionPolygons" {
      assert Names(w) == {w[0].0, w[1].0};
    }
  }

  /** `setDefaultRestrictionDetails` (less the road name and azimuth, which the
      geometry utilities set): None when a field it writes outside the
      pay-parking `try` is missing (KeyError); otherwise exactly the defaulted
      fields may change. */
  function DefaultDetails(layerName: string, attrs: map<string, Value>, settings: map<string, Value>,
                          env: Surroundings): (r: Option<map<string, Value>>)
    ensures r.Some? <==> RequiredFields(layerName) <= attrs.Keys
    ensures r.Some? ==> KeepsOthers(attrs, r.value, DefaultedFields(layerName))
    ensures r.Some? && layerName == "Bays" && "PayParkingAreaID" in attrs ==>
      r.value["PayParkingAreaID"] == (if env.payParkingArea.Some? then env.payParkingArea.value else attrs["PayParkingAreaID"])
  {
    WritesCover(layerName, settings, env);
    var a := SetAll(attrs, DefaultWrites(layerName, settings, env));
    if a.None? then None
    else
      PayParkingOptional();
      if layerName == "Bays" && env.payParkingArea.Some? then
        var r := SetField(a.value, "PayParkingAreaID", env.payParkingArea.value);
        KeepsOthersThen(attrs, a.value, r, RequiredFields(layerName), {"PayParkingAreaID"});
        Some(r)
      else a
  }

  /** Two runs of writes in a row keep every field outside either's set. */
  lemma KeepsOthersThen(a: map<string, Value>, b: map<string, Value>, c: map<string, Value>, w1: set<string>, w2: set<string>)
    requires KeepsOthers(a, b, w1) && KeepsOthers(b, c, w2)
    ensures KeepsOthers(a, c, w1 + w2)
  {
  }

  /** The pay-parking area is written only inside the `try`: it is no required
      field of Bays, but a defaulted one. */
  lemma PayParkingOptional()
    ensures "PayParkingAreaID" !in RequiredFields("Bays")
    ensures DefaultedFields("Bays") == RequiredFields("Bays") + {"PayParkingAreaID"}
  {
  }

  /** No layer's own branch writes a zone field. */
  lemma ZoneFieldsApart(layerName: string)
    ensures ZoneFields !! LayerFields(layerName)
  {
  }

  /** A write that no later write in the run overrides is what the run leaves,
      whatever writes come after it in a second run. */
  lemma WriteSurvives(attrs: map<string, Value>, a: seq<(string, Value)>, b: seq<(string, Value)>, i: int)
    requires SetAll(attrs, a + b).Some? && 0 <= i < |a|
    requires forall j :: i < j < |a| ==> a[j].0 != a[i].0
    requires a[i].0 !in Names(b)
    ensures a[i].0 in SetAll(attrs, a + b).value && SetAll(attrs, a + b).value[a[i].0] == a[i].1
  {
    var ws := a + b;
    assert ws[i] == a[i];
    forall j | i < j < |ws| ensures ws[j].0 != ws[i].0 {
      if j >= |a| {
        assert ws[j] == b[j - |a|];
      }
    }
  }

  /** No field is written twice in the run. */
  predicate DistinctNames(ws: seq<(string, Value)>)
  {
    forall i, j :: 0 <= i < j < |ws| ==> ws[i].0 != ws[j].0
  }

  /** Each layer's own branch writes a field at most once. */
  lemma LayerWritesDistinct(layerName: string, settings: map<string, Value>, env: Surroundings)
    ensures DistinctNames(LayerWrites(layerName, settings, env))
  {
  }

  /** Every write of a second run without repeated fields is what the two runs
      leave. */
  lemma LaterWriteSurvives(attrs: map<string, Value>, a: seq<(string, Value)>, b: seq<(string, Value)>, i: int)
    requires SetAll(attrs, a + b).Some? && 0 <= i < |b|
    requires DistinctNames(b)
    ensures b[i].0 in SetAll(attrs, a + b).value && SetAll(attrs, a + b).value[b[i].0] == b[i].1
  {
    var ws := a + b;
    assert ws[|a| + i] == b[i];
    assert forall j :: |a| + i < j < |ws| ==> ws[j] == b[j - |a|];
  }

  /** The zone fields come from the surroundings on every layer but Signs, which
      keeps them. */
  lemma ZoneValues(layerName: string, attrs: map<string, Value>, settings: map<string, Value>, env: Surroundings)
    ensures var r := DefaultDetails(layerName, attrs, settings, env);
      r.Some? && layerName != "Signs" ==> r.value["CPZ"] == env.cpz && r.value["MatchDayEventDayZone"] == env.eventDay
    ensures var r := DefaultDetails(layerName, attrs, settings, env);
      r.Some? && layerName == "Signs" && "CPZ" in attrs ==> r.value["CPZ"] == attrs["CPZ"]
  {
    var r := DefaultDetails(layerName, attrs, settings, env);
    PayParkingOptional();
    if r.Some? && layerName != "Signs" {
      var z := ZoneWrites(env);
      var w := LayerWrites(layerName, settings, env);
      LayerWritesNames(layerName, settings, env);
      ZoneFieldsApart(layerName);
      assert z[0].0 == "CPZ" && z[1].0 == "MatchDayEventDayZone";
      WriteSurvives(attrs, z, w, 0);
      WriteSurvives(attrs, z, w, 1);
    }
  }

  /** Lines: type and shape from the settings, the waiting and match-day periods
      from the surroundings. */
  lemma LineValues(attrs: map<string, Value>, settings: map<string, Value>, env: Surroundings)
    ensures var r := DefaultDetails("Lines", attrs, settings, env);
      r.Some? ==>
        && r.value["RestrictionTypeID"] == Setting(settings, "Lines/RestrictionTypeID", 224)
        && r.value["GeomShapeID"] == Setting(settings, "Lines/GeomShapeID", 10)
        && r.value["NoWaitingTimeID"] == env.cpzWaitingTime
        && r.value["MatchDayTimePeriodID"] == env.eventDayWaitingTime
  {
    var r := DefaultDetails("Lines", attrs, settings, env);
    if r.Some? {
      var z := ZoneWrites(env);
      var w := LayerWrites("Lines", settings, env);
      LayerWritesDistinct("Lines", settings, env);
      assert w[0].0 == "RestrictionTypeID" && w[1].0 == "GeomShapeID";
      assert w[2].0 == "NoWaitingTimeID" && w[3].0 == "MatchDayTimePeriodID";
      LaterWriteSurvives(attrs, z, w, 0);
      LaterWriteSurvives(attrs, z, w, 1);
      LaterWriteSurvives(attrs, z, w, 2);
      LaterWriteSurvives(attrs, z, w, 3);
    }
  }

  /** Each write of the Bays branch survives the pay-parking write after it. */
  lemma BayWriteSurvives(attrs: map<string, Value>, settings: map<string, Value>, env: Surroundings, i: int)
    requires DefaultDetails("Bays", attrs, settings, env).Some? && 0 <= i < |LayerWrites("Bays", settings, env)|
    ensures LayerWrites("Bays", settings, env)[i].0 in DefaultDetails("Bays", attrs, settings, env).value
    ensures var w := LayerWrites("Bays", settings, env);
      DefaultDetails("Bays", attrs, settings, env).value[w[i].0] == w[i].1
  {
    var z := ZoneWrites(env);
    var w := LayerWrites("Bays", settings, env);
    LayerWritesDistinct("Bays", settings, env);
    LaterWriteSurvives(attrs, z, w, i);
    PayParkingOptional();
    LayerWritesNames("Bays", settings, env);
    assert w[i].0 in Names(w);
  }

  /** The Bays branch writes its fields in this order. */
  lemma BayWriteOrder(settings: map<string, Value>, env: Surroundings)
    ensures var w := LayerWrites("Bays", settings, env);
      && |w| == 8
      && w[0] == ("RestrictionTypeID", Setting(settings, "Bays/RestrictionTypeID", 101))
      && w[1] == ("GeomShapeID", Setting(settings, "Bays/GeomShapeID", 21))
      && w[2] == ("NrBays", IntV(-1))
      && w[3] == ("TimePeriodID", env.cpzWaitingTime)
      && w[5] == ("MaxStayID", env.ptaMaxStay)
      && w[6] == ("NoReturnID", env.ptaNoReturn)
      && w[7] == ("ParkingTariffArea", env.pta)
  {
  }

  /** Bays: type and shape from the settings, NrBays -1 (not counted yet), the
      periods, stay limits and tariff area from the surroundings. */
  lemma BayValues(attrs: map<string, Value>, settings: map<string, Value>, env: Surroundings)
    ensures var r := DefaultDetails("Bays", attrs, settings, env);
      r.Some? ==>
        && r.value["RestrictionTypeID"] == Setting(settings, "Bays/RestrictionTypeID", 101)
        && r.value["GeomShapeID"] == Setting(settings, "Bays/GeomShapeID", 21)
        && r.value["NrBays"] == IntV(-1)
        && r.value["TimePeriodID"] == env.cpzWaitingTime
        && r.value["MatchDayTimePeriodID"] == env.eventDayWaitingTime
        && r.value["MaxStayID"] == env.ptaMaxStay
        && r.value["NoReturnID"] == env.ptaNoReturn
        && r.value["ParkingTariffArea"] == env.pta
  {
    var r := DefaultDetails("Bays", attrs, settings, env);
    if r.Some? {
      BayWriteOrder(settings, env);
      BayWriteSurvives(attrs, settings, env, 0);
      BayWriteSurvives(attrs, settings, env, 1);
      BayWriteSurvives(attrs, settings, env, 2);
      BayWriteSurvives(attrs, settings, env, 3);
      BayWriteSurvives(attrs, settings, env, 4);
      BayWriteSurvives(attrs, settings, env, 5);
      BayWriteSurvives(attrs, settings, env, 6);
      BayWriteSurvives(attrs, settings, env, 7);
    }
  }

  /** Signs: the sign type from the settings; RestrictionPolygons: the type from
      the settings and the match-day period from the surroundings. */
  lemma SignAndPolygonValues(attrs: map<string, Value>, settings: map<string, Value>, env: Surroundings)
    ensures var r := DefaultDetails("Signs", attrs, settings, env);
      r.Some? ==> r.value["SignType_1"] == Setting(settings, "Signs/SignType_1", 28)
    ensures var r := DefaultDetails("RestrictionPolygons", attrs, settings, env);
      r.Some? ==>
        && r.value["RestrictionTypeID"] == Setting(settings, "RestrictionPolygons/RestrictionTypeID", 4)
        && r.value["MatchDayTimePeriodID"] == env.eventDayWaitingTime
  {
    var ws := LayerWrites("Signs", settings, env);
    LayerWritesDistinct("Signs", settings, env);
    if DefaultDetails("Signs", attrs, settings, env).Some? {
      assert [] + ws == DefaultWrites("Signs", settings, env);
      LaterWriteSurvives(attrs, [], ws, 0);
    }
    var wp := LayerWrites("RestrictionPolygons", settings, env);
    LayerWritesDistinct("RestrictionPolygons", settings, env);
    assert wp[0].0 == "RestrictionTypeID" && wp[1].0 == "MatchDayTimePeriodID";
    if DefaultDetails("RestrictionPolygons", attrs, settings, env).Some? {
      LaterWriteSurvives(attrs, ZoneWrites(env), wp, 0);
      LaterWriteSurvives(attrs, ZoneWrites(env), wp, 1);
    }
  }

  /** With nothing stored in the settings, the defaults are the built-in codes:
      224 on Lines, 101 with 21 on Bays, 28 on Signs, 4 on RestrictionPolygons;
      Signs keeps its RestrictionTypeID. */
  lemma BuiltInDefaults(attrs: map<string, Value>, env: Surroundings)
    ensures var r := DefaultDetails("Lines", attrs, map[], env);
      r.Some? ==> "RestrictionTypeID" in r.value && r.value["RestrictionTypeID"] == IntV(224)
    ensures var r := DefaultDetails("Bays", attrs, map[], env);
      r.Some? ==> "RestrictionTypeID" in r.value && r.value["RestrictionTypeID"] == IntV(101) &&
                  "GeomShapeID" in r.value && r.value["GeomShapeID"] == IntV(21)
    ensures var r := DefaultDetails("Signs", attrs, map[], env);
      r.Some? ==> "SignType_1" in r.value && r.value["SignType_1"] == IntV(28)
    ensures var r := DefaultDetails("RestrictionPolygons", attrs, map[], env);
      r.Some? ==> "RestrictionTypeID" in r.value && r.value["RestrictionTypeID"] == IntV(4)
    ensures var r := DefaultDetails("Signs", attrs, map[], env);
      r.Some? && "RestrictionTypeID" in attrs ==> r.value["RestrictionTypeID"] == attrs["RestrictionTypeID"]
  {
    LineValues(attrs, map[], env);
    BayValues(attrs, map[], env);
    SignAndPolygonValues(attrs, map[], env);
    assert "RestrictionTypeID" !in DefaultedFields("Signs");
  }

  // ------------------------------------------------- last selected value

  /** What a form's attribute change leaves: the feature's fields, the settings,
      and whether a failed write was reported in a message box. */
  datatype SavedValue = SavedValue(attrs: map<string, Value>, settings: map<string, Value>, reported: bool)

  /** The settings key under which a layer's last chosen value of a field is kept. */
  function SettingKey(layerName: string, fieldName: string): string
  {
    layerName + "/" + fieldName
  }

  /** `saveLastSelectedValue`: the value is written to the feature's field; a
      write that fails (the feature has no such field) is reported and skipped;
      in either case the value is saved as the setting `<layer>/<field>`. */
  function SaveLastSelectedValue(attrs: map<string, Value>, layerName: string, fieldName: string, value: Value,
                                 settings: map<string, Value>): (r: SavedValue)
    ensures r.reported <==> fieldName !in attrs
    ensures KeepsOthers(attrs, r.attrs, {fieldName})
    ensures fieldName in attrs ==> r.attrs[fieldName] == value
    ensures r.settings.Keys == settings.Keys + {SettingKey(layerName, fieldName)}
    ensures r.settings[SettingKey(layerName, fieldName)] == value
    ensures forall k :: k in settings && k != SettingKey(layerName, fieldName) ==> r.settings[k] == settings[k]
  {
    SavedValue(SetField(attrs, fieldName, value), settings[SettingKey(layerName, fieldName) := value], fieldName !in attrs)
  }

  /** The value last chosen in a form is the default of the next restriction
      captured on that layer: the type on Lines, Bays and RestrictionPolygons, the
      sign type on Signs.  Whether the form's feature had the field does not
      matter. */
  lemma SavedValueIsNextDefault(attrs: map<string, Value>, value: Value, settings: map<string, Value>,
                                captured: map<string, Value>, env: Surroundings)
    ensures var s := SaveLastSelectedValue(attrs, "Lines", "RestrictionTypeID", value, settings).settings;
      var r := DefaultDetails("Lines", captured, s, env);
      r.Some? ==> "RestrictionTypeID" in r.value && r.value["RestrictionTypeID"] == value
    ensures var s := SaveLastSelectedValue(attrs, "Bays", "RestrictionTypeID", value, settings).settings;
      var r := DefaultDetails("Bays", captured, s, env);
      r.Some? ==> "RestrictionTypeID" in r.value && r.value["RestrictionTypeID"] == value
    ensures var s := SaveLastSelectedValue(attrs, "Signs", "SignType_1", value, settings).settings;
      var r := DefaultDetails("Signs", captured, s, env);
      r.Some? ==> "SignType_1" in r.value && r.value["SignType_1"] == value
    ensures var s := SaveLastSelectedValue(attrs, "RestrictionPolygons", "RestrictionTypeID", value, settings).settings;
      var r := DefaultDetails("RestrictionPolygons", captured, s, env);
      r.Some? ==> "RestrictionTypeID" in r.value && r.value["RestrictionTypeID"] == value
  {
    SavedLinesDefault(attrs, value, settings, captured, env);
    SavedBaysDefault(attrs, value, settings, captured, env);
    SavedSignAndPolygonDefaults(attrs, value, settings, captured, env);
  }

  // The cases of SavedValueIsNextDefault, by the value lemma each rests on.

  lemma SavedLinesDefault(attrs: map<string, Value>, value: Value, settings: map<string, Value>,
                          captured: map<string, Value>, env: Surroundings)
    ensures var s := SaveLastSelectedValue(attrs, "Lines", "RestrictionTypeID", value, settings).settings;
      var r := DefaultDetails("Lines", captured, s, env);
      r.Some? ==> "RestrictionTypeID" in r.value && r.value["RestrictionTypeID"] == value
  {
    assert SettingKey("Lines", "RestrictionTypeID") == "Lines/RestrictionTypeID";
    LineValues(captured, SaveLastSelectedValue(attrs, "Lines", "RestrictionTypeID", value, settings).settings, env);
  }

  lemma SavedBaysDefault(attrs: map<string, Value>, value: Value, settings: map<string, Value>,
                         captured: map<string, Value>, env: Surroundings)
    ensures var s := SaveLastSelectedValue(attrs, "Bays", "RestrictionTypeID", value, settings).settings;
      var r := DefaultDetails("Bays", captured, s, env);
      r.Some? ==> "RestrictionTypeID" in r.value && r.value["RestrictionTypeID"] == value
  {
    assert SettingKey("Bays", "RestrictionTypeID") == "Bays/RestrictionTypeID";
    BayValues(captured, SaveLastSelectedValue(attrs, "Bays", "RestrictionTypeID", value, settings).settings, env);
  }

  lemma SavedSignAndPolygonDefaults(attrs: map<string, Value>, value: Value, settings: map<string, Value>,
                                    captured: map<string, Value>, env: Surroundings)
    ensures var s := SaveLastSelectedValue(attrs, "Signs", "SignType_1", value, settings).settings;
      var r := DefaultDetails("Signs", captured, s, env);
      r.Some? ==> "SignType_1" in r.value && r.value["SignType_1"] == value
    ensures var s := SaveLastSelectedValue(attrs, "RestrictionPolygons", "RestrictionTypeID", value, settings).settings;
      var r := DefaultDetails("RestrictionPolygons", captured, s, env);
      r.Some? ==> "RestrictionTypeID" in r.value && r.value["RestrictionTypeID"] == value
  {
    assert SettingKey("Signs", "SignType_1") == "Signs/SignType_1";
    assert SettingKey("RestrictionPolygons", "RestrictionTypeID") == "RestrictionPolygons/RestrictionTypeID";
    SignAndPolygonValues(captured, SaveLastSelectedValue(attrs, "Signs", "SignType_1", value, settings).settings, env);
    SignAndPolygonValues(captured, SaveLastSelectedValue(attrs, "RestrictionPolygons", "RestrictionTypeID", value, settings).settings, env);
  }

  // ------------------------------------------------------- create: outcome

  /** Where `getPointsCaptured` ends: nothing made, a construction line added to
      its own layer (outside any proposal), a KeyError from a field the layer
      lacks (no form opens), or a restriction handed to the restriction form. */
  datatype Created =
    | NotCreated(why: Capture)
    | ConstructionLine(shape: Shape)
    | FieldMissing
    | OpenForm(feature: Restriction)

  /** `getPointsCaptured` after the capture stops.  `fields` are the layer's fields,
      all NULL on a new feature; `newRid` is the uuid4 the tool draws and writes
      to the RestrictionID field; `toGeometry` builds the QGIS geometry of a shape. */
  function FinishCapture(layerName: string, geometryType: int, points: seq<Point>, fields: map<string, Value>,
                         settings: map<string, Value>, env: Surroundings, toGeometry: Shape -> Geometry,
                         newRid: string): (r: Created)
    ensures r.NotCreated? <==> !CaptureShape(geometryType, points).Captured?
    ensures r.ConstructionLine? <==> CaptureShape(geometryType, points).Captured? && layerName == "ConstructionLines"
    ensures r.FieldMissing? <==> (CaptureShape(geometryType, points).Captured? && layerName != "ConstructionLines" &&
      !(RequiredFields(layerName) + {"RestrictionID"} <= fields.Keys))
    ensures r.OpenForm? ==>
      && r.feature.restrictionId == newRid
      && r.feature.openDate.None? && r.feature.closeDate.None? && r.feature.geometryId.None?
      && r.feature.geometry == toGeometry(CaptureShape(geometryType, points).shape)
      && r.feature.attrs == DefaultDetails(layerName, fields, settings, env).value
  {
    var c := CaptureShape(geometryType, points);
    if !c.Captured? then NotCreated(c)
    else if layerName == "ConstructionLines" then ConstructionLine(c.shape)
    else
      var attrs := DefaultDetails(layerName, fields, settings, env);
      if attrs.None? || "RestrictionID" !in fields then FieldMissing
      else OpenForm(Restriction(newRid, None, None, None, toGeometry(c.shape), attrs.value))
  }

  /** A restriction drawn with a fresh RestrictionID is in no proposal, so the
      form's OK stages it as a new restriction: one OPEN row and the feature
      written, and nothing closed. */
  lemma CreatedRestrictionOpens(tx: Tx, layerName: string, geometryType: int, points: seq<Point>,
                                fields: map<string, Value>, settings: map<string, Value>, env: Surroundings,
                                toGeometry: Shape -> Geometry, newRid: string, fid: Fid, formRid: string,
                                newFid: Fid, tid: int, pid: int)
    requires FreshRid(tx, newRid)
    requires newFid !in tx.current.features && newFid != fid
    ensures var r := FinishCapture(layerName, geometryType, points, fields, settings, env, toGeometry, newRid);
      r.OpenForm? ==>
        var form := Form(fid, r.feature, r.feature);
        && BranchOf(tx.current, form, tid, pid) == NewRestriction
        && StageForm(tx.current, form, tid, pid, formRid, newFid, {}).ledger
             == tx.current.ledger + [ProposalRow(formRid, tid, pid, RestrictionAction.Open)]
  {
    var r := FinishCapture(layerName, geometryType, points, fields, settings, env, toGeometry, newRid);
    if r.OpenForm? {
      FreshRidUnstaged(tx.current, newRid, tid, pid);
    }
  }
}
