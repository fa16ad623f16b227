/** Project configuration: the label-layer name tables, the TOMs.conf lookups,
    the edit-form path rewriting of `TOMsLayers`, and the project-variable scan
    of `TOMsParams`. */
module LayerConfig {
  import opened Wrappers
  import opened Text
  import opened PosixPath
  import opened Schema
  import opened Constants
  import opened Ledger

  // ---------------------------------------------------------------- label layers

  /** The restriction layer names that have label layers. */
  const LabelSourceNames: set<string> :=
    {"Bays", "Lines", "Signs", "RestrictionPolygons", "CPZs", "ParkingTariffAreas"}

  /** `TOMsLabelLayerNames.setCurrLabelLayerNames`: the label-position layers of a
      restriction layer.  Signs has none and gets `[""]`; any other layer name
      leaves the local unbound (UnboundLocalError), modelled as None. */
  function LabelLayerNames(layerName: string): (r: Option<seq<string>>)
    ensures r.Some? ==> |r.value| >= 1
    ensures r.Some? <==> layerName in LabelSourceNames
    ensures layerName == "Signs" ==> r == Some([""])
  {
    if layerName == "Bays" then Some(["Bays.label_pos"])
    else if layerName == "Lines" then Some(["Lines.label_pos", "Lines.label_loading_pos"])
    else if layerName == "Signs" then Some([""])
    else if layerName == "RestrictionPolygons" then Some(["RestrictionPolygons.label_pos"])
    else if layerName == "CPZs" then Some(["CPZs.label_pos"])
    else if layerName == "ParkingTariffAreas" then Some(["ParkingTariffAreas.label_pos"])
    else None
  }

  /** `setCurrLabelLeaderLayerNames`: the leader-line layers, with the same shape. */
  function LabelLeaderLayerNames(layerName: string): (r: Option<seq<string>>)
    ensures r.Some? ==> |r.value| >= 1
    ensures r.Some? <==> layerName in LabelSourceNames
    ensures layerName == "Signs" ==> r == Some([""])
  {
    if layerName == "Bays" then Some(["Bays.label_ldr"])
    else if layerName == "Lines" then Some(["Lines.label_ldr", "Lines.label_loading_ldr"])
    else if layerName == "Signs" then Some([""])
    else if layerName == "RestrictionPolygons" then Some(["RestrictionPolygons.label_ldr"])
    else if layerName == "CPZs" then Some(["CPZs.label_ldr"])
    else if layerName == "ParkingTariffAreas" then Some(["ParkingTariffAreas.label_ldr"])
    else None
  }

  /** The name `layerName + "." + suffix` of a table of that layer. */
  predicate OfLayer(layerName: string, name: string)
  {
    |layerName| + 1 < |name| && name[..|layerName| + 1] == layerName + "."
  }

  /** Every label and leader layer but the Signs placeholder is a table of the
      restriction layer, named `<layer>.<suffix>`. */
  lemma {:induction false} LabelNamesOfLayer(layerName: string)
    requires layerName in LabelSourceNames - {"Signs"}
    ensures forall i :: 0 <= i < |LabelLayerNames(layerName).value| ==>
      OfLayer(layerName, LabelLayerNames(layerName).value[i])
    ensures forall i :: 0 <= i < |LabelLeaderLayerNames(layerName).value| ==>
      OfLayer(layerName, LabelLeaderLayerNames(layerName).value[i])
  {
    if layerName == "Bays" {
      assert OfLayer("Bays", "Bays.label_pos") && OfLayer("Bays", "Bays.label_ldr");
    } else if layerName == "Lines" {
      assert OfLayer("Lines", "Lines.label_pos") && OfLayer("Lines", "Lines.label_loading_pos");
      assert OfLayer("Lines", "Lines.label_ldr") && OfLayer("Lines", "Lines.label_loading_ldr");
    } else if layerName == "RestrictionPolygons" {
      assert OfLayer("RestrictionPolygons", "RestrictionPolygons.label_pos");
      assert OfLayer("RestrictionPolygons", "RestrictionPolygons.label_ldr");
    } else if layerName == "CPZs" {
      assert OfLayer("CPZs", "CPZs.label_pos") && OfLayer("CPZs", "CPZs.label_ldr");
    } else {
      assert OfLayer("ParkingTariffAreas", "ParkingTariffAreas.label_pos");
      assert OfLayer("ParkingTariffAreas", "ParkingTariffAreas.label_ldr");
    }
  }

  /** The layer names the label tables know, with the RestrictionLayers member each
      stands for. */
  const LabelledLayers: seq<(RestrictionLayer, string)> := [
    (Bays, "Bays"), (Lines, "Lines"), (RestrictionPolygons, "RestrictionPolygons"),
    (Cpzs, "CPZs"), (Ptas, "ParkingTariffAreas")]

  /** Pairs each name with `code`. */
  function Tag(code: int, names: seq<string>): (r: seq<(int, string)>)
    ensures |r| == |names| && forall i :: 0 <= i < |names| ==> r[i] == (code, names[i])
  {
    if |names| == 0 then [] else [(code, names[0])] + Tag(code, names[1..])
  }

  /** The (code, label layer) pairs the two tables give for one restriction layer. */
  function LabelEntriesOf(layer: RestrictionLayer, name: string): seq<(int, string)>
  {
    var pos := LabelLayerNames(name);
    var ldr := LabelLeaderLayerNames(name);
    if pos.None? || ldr.None? then [] else Tag(LayerValue(layer), pos.value + ldr.value)
  }

  /** The label tables and the label rows of `getRestrictionLayersList` agree: each
      label layer of Bays, Lines, RestrictionPolygons, CPZs and ParkingTariffAreas is
      listed under that layer's RestrictionLayers code and nothing else is listed;
      Signs has only the empty placeholder name, which is not listed. */
  lemma LabelTablesMatchLayerList()
    ensures forall e :: e in LabelLayerEntries <==>
      (e in LabelEntriesOf(Bays, "Bays") || e in LabelEntriesOf(Lines, "Lines") ||
       e in LabelEntriesOf(RestrictionPolygons, "RestrictionPolygons") ||
       e in LabelEntriesOf(Cpzs, "CPZs") || e in LabelEntriesOf(Ptas, "ParkingTariffAreas"))
    ensures LabelLayerNames("Signs") == Some([""]) && LabelLeaderLayerNames("Signs") == Some([""])
    ensures forall e :: e in LabelLayerEntries ==> e.0 != LayerValue(Signs) && e.1 != ""
  {
    LabelEntriesValues();
    LabelEntriesSkipSigns();
  }

  /** No label row carries the Signs code or the empty placeholder name. */
  lemma LabelEntriesSkipSigns()
    ensures forall e :: e in LabelLayerEntries ==> e.0 != LayerValue(Signs) && e.1 != ""
  {
    forall i | 0 <= i < |LabelLayerEntries|
      ensures LabelLayerEntries[i].0 != LayerValue(Signs) && |LabelLayerEntries[i].1| > 0
    {
    }
  }

  /** The entries the two tables give, layer by layer. */
  lemma LabelEntriesValues()
    ensures LabelEntriesOf(Bays, "Bays") == [(2, "Bays.label_pos"), (2, "Bays.label_ldr")]
    ensures LabelEntriesOf(Lines, "Lines") ==
      [(3, "Lines.label_pos"), (3, "Lines.label_loading_pos"), (3, "Lines.label_ldr"), (3, "Lines.label_loading_ldr")]
    ensures LabelEntriesOf(RestrictionPolygons, "RestrictionPolygons") ==
      [(4, "RestrictionPolygons.label_pos"), (4, "RestrictionPolygons.label_ldr")]
    ensures LabelEntriesOf(Cpzs, "CPZs") == [(6, "CPZs.label_pos"), (6, "CPZs.label_ldr")]
    ensures LabelEntriesOf(Ptas, "ParkingTariffAreas") ==
      [(7, "ParkingTariffAreas.label_pos"), (7, "ParkingTariffAreas.label_ldr")]
  {
    OneLabelLayer(Bays, "Bays", "Bays.label_pos", "Bays.label_ldr");
    OneLabelLayer(RestrictionPolygons, "RestrictionPolygons", "RestrictionPolygons.label_pos", "RestrictionPolygons.label_ldr");
    OneLabelLayer(Cpzs, "CPZs", "CPZs.label_pos", "CPZs.label_ldr");
    OneLabelLayer(Ptas, "ParkingTariffAreas", "ParkingTariffAreas.label_pos", "ParkingTariffAreas.label_ldr");
    var names := ["Lines.label_pos", "Lines.label_loading_pos", "Lines.label_ldr", "Lines.label_loading_ldr"];
    assert LabelEntriesOf(Lines, "Lines") == Tag(3, names);
  }

  /** A layer with one label-position layer and one leader layer. */
  lemma OneLabelLayer(layer: RestrictionLayer, name: string, pos: string, ldr: string)
    requires LabelLayerNames(name) == Some([pos]) && LabelLeaderLayerNames(name) == Some([ldr])
    ensures LabelEntriesOf(layer, name) == [(LayerValue(layer), pos), (LayerValue(layer), ldr)]
  {
    assert [pos] + [ldr] == [pos, ldr];
  }

  // ---------------------------------------------------------------- TOMs.conf

  /** A parsed configuration file: section -> key -> value. */
  type Config = map<string, map<string, string>>

  /** `TOMsConfigFile.getTOMsConfigElement`: the value, or None when the section or
      the key is missing. */
  function GetConfigElement(cfg: Config, section: string, key: string): (r: Option<string>)
    ensures r.Some? <==> section in cfg && key in cfg[section]
    ensures r.Some? ==> r.value == cfg[section][key]
  {
    if section in cfg && key in cfg[section] then Some(cfg[section][key]) else None
  }

  /** `getTOMsLayerListFromConfigFile`: the "layers" entry of [TOMsLayers] split on
      new lines; a missing or empty entry is a failure (None). */
  function LayerListFromConfig(cfg: Config): (r: Option<seq<string>>)
    ensures r.Some? <==> GetConfigElement(cfg, "TOMsLayers", "layers").Some? &&
                         |GetConfigElement(cfg, "TOMsLayers", "layers").value| > 0
    ensures r.Some? ==> JoinWith(r.value, '\n') == cfg["TOMsLayers"]["layers"]
    ensures r.Some? ==> forall i :: 0 <= i < |r.value| ==> '\n' !in r.value[i]
  {
    var layers := GetConfigElement(cfg, "TOMsLayers", "layers");
    if layers.Some? && |layers.value| > 0 then Some(SplitOn(layers.value, '\n')) else None
  }

  /** A layer list written one name per line is read back as the same list. */
  lemma LayerListRoundTrip(cfg: Config, names: seq<string>)
    requires |names| >= 1 && forall i :: 0 <= i < |names| ==> '\n' !in names[i]
    requires "TOMsLayers" in cfg && cfg["TOMsLayers"] == map["layers" := JoinWith(names, '\n')]
    requires JoinWith(names, '\n') != ""
    ensures LayerListFromConfig(cfg) == Some(names)
  {
    SplitJoin(names, '\n');
  }

  // ---------------------------------------------------------------- form paths

  /** The edit-form configuration of one project layer. */
  datatype FormConfig = FormConfig(initFilePath: string, uiForm: string)

  /** The open project: its file name (empty when no project is open) and the
      form configuration of each layer it holds, by layer name. */
  datatype Project = Project(fileName: string, layers: map<string, FormConfig>)

  /** The state `TOMsLayers` keeps between calls. */
  datatype LayerSetup = LayerSetup(layerList: Option<seq<string>>, formPath: string)

  /** The process environment the path code consults: the working directory,
      `os.path.expandvars`, `os.path.isdir` and `os.path.isfile`. */
  datatype Env = Env(cwd: string, expandVars: string -> string, isDir: string -> bool, isFile: string -> bool)

  /** The absolute form file `setLayers` looks for: the form's file name under the
      configured form directory. */
  function FormFile(env: Env, formPath: string, ui: string): string
  {
    AbsPath(env.cwd, JoinPath(formPath, Basename(ui)))
  }

  /** The index of the first listed layer the project does not hold, or `|list|`. */
  function FirstMissing(list: seq<string>, layers: map<string, FormConfig>): (k: nat)
    ensures k <= |list|
    ensures forall j :: 0 <= j < k ==> list[j] in layers
    ensures k < |list| ==> list[k] !in layers
  {
    if |list| == 0 || list[0] !in layers then 0
    else 1 + FirstMissing(list[1..], layers)
  }

  /** `after` is what the form rewriting may leave of `before`: no init file,
      the form either kept or replaced by an existing file, emptiness kept, and a
      plain form file name kept as the basename. */
  predicate Rebased(before: FormConfig, after: FormConfig, env: Env)
  {
    && after.initFilePath == ""
    && (after.uiForm == before.uiForm || env.isFile(after.uiForm))
    && (|after.uiForm| > 0 <==> |before.uiForm| > 0)
    && (PlainName(Basename(before.uiForm)) ==> Basename(after.uiForm) == Basename(before.uiForm))
  }

  /** Rewriting twice is still a rewriting (a layer listed twice is rebased twice). */
  lemma RebasedTwice(a: FormConfig, b: FormConfig, c: FormConfig, env: Env)
    requires Rebased(a, b, env) && Rebased(b, c, env)
    ensures Rebased(a, c, env)
  {
  }

  /** What `setLayers` does to one layer's form configuration: the init file is
      dropped and a non-empty form is moved under the form directory when that
      file exists. */
  function Rebase(fc: FormConfig, env: Env, formPath: string): (r: FormConfig)
    ensures Rebased(fc, r, env)
    ensures |fc.uiForm| > 0 && env.isFile(FormFile(env, formPath, fc.uiForm)) ==>
      r.uiForm == FormFile(env, formPath, fc.uiForm)
  {
    var ui := fc.uiForm;
    FormPathRoundTrip(env.cwd, formPath, ui);
    if |ui| > 0 && env.isFile(FormFile(env, formPath, ui)) then FormConfig("", FormFile(env, formPath, ui))
    else FormConfig("", ui)
  }

  /** `f` applied `m` times. */
  function Iterate(f: FormConfig -> FormConfig, x: FormConfig, m: nat): FormConfig
    decreases m
  {
    if m == 0 then x else Iterate(f, f(x), m - 1)
  }

  /** The layer loop shared by `setLayers` and `removePathFromLayerForms`: applies `f`
      to each listed layer in turn and stops at the first one the project does not
      hold; the flag says whether the whole list was present. */
  function ApplyToListed(list: seq<string>, layers: map<string, FormConfig>, f: FormConfig -> FormConfig)
    : (r: (bool, map<string, FormConfig>))
    ensures r.1.Keys == layers.Keys
    ensures r.0 <==> FirstMissing(list, layers) == |list|
    decreases |list|
  {
    if |list| == 0 || list[0] !in layers then (|list| == 0, layers)
    else
      var layers1 := layers[list[0] := f(layers[list[0]])];
      FirstMissingSameKeys(list[1..], layers, layers1);
      ApplyToListed(list[1..], layers1, f)
  }

  /** The reached prefix of a list whose head is present is the head followed by
      the reached prefix of the tail, against any map with the same names. */
  lemma ReachedAfterHead(list: seq<string>, layers: map<string, FormConfig>, layers1: map<string, FormConfig>)
    requires |list| > 0 && list[0] in layers && layers1.Keys == layers.Keys
    ensures list[..FirstMissing(list, layers)] == [list[0]] + list[1..][..FirstMissing(list[1..], layers1)]
  {
    FirstMissingSameKeys(list[1..], layers, layers1);
    var k := FirstMissing(list[1..], layers);
    assert list[..1 + k] == [list[0]] + list[1..][..k];
  }

  /** Putting `h` in front adds one occurrence of `h` and none of any other name. */
  lemma HeadCounts(h: string, done: seq<string>)
    ensures multiset([h] + done)[h] == multiset(done)[h] + 1
    ensures forall n :: n != h ==> multiset([h] + done)[n] == multiset(done)[n]
  {
    assert multiset([h] + done) == multiset{h} + multiset(done);
  }

  /** One step of the loop seen from one layer: applying `f` to `h` first and then
      the rest's count is applying it the whole count. */
  lemma EffectAt(f: FormConfig -> FormConfig, layers: map<string, FormConfig>, h: string, done: seq<string>,
                 r: map<string, FormConfig>, n: string)
    requires h in layers && n in layers
    requires forall k :: k in layers[h := f(layers[h])] ==>
      k in r && r[k] == Iterate(f, layers[h := f(layers[h])][k], multiset(done)[k])
    ensures n in r && r[n] == Iterate(f, layers[n], multiset([h] + done)[n])
  {
    HeadCounts(h, done);
    assert n in layers[h := f(layers[h])];
  }

  /** Each layer ends up with `f` applied once per time its name occurs before the
      first missing layer: layers the loop does not reach are untouched. */
  lemma {:induction false} ApplyToListedEffect(list: seq<string>, layers: map<string, FormConfig>, f: FormConfig -> FormConfig)
    ensures forall n :: n in layers ==>
      ApplyToListed(list, layers, f).1[n] == Iterate(f, layers[n], multiset(list[..FirstMissing(list, layers)])[n])
    decreases |list|
  {
    if |list| > 0 && list[0] in layers {
      var h := list[0];
      var layers1 := layers[h := f(layers[h])];
      assert ApplyToListed(list, layers, f) == ApplyToListed(list[1..], layers1, f);
      ReachedAfterHead(list, layers, layers1);
      var done := list[1..][..FirstMissing(list[1..], layers1)];
      var reached := list[..FirstMissing(list, layers)];
      ApplyToListedEffect(list[1..], layers1, f);
      assert reached == [h] + done;
      var r := ApplyToListed(list[1..], layers1, f).1;
      forall n | n in layers
        ensures r[n] == Iterate(f, layers[n], multiset(reached)[n])
      {
        EffectAt(f, layers, h, done, r, n);
      }
    }
  }

  /** `f` applied to each layer of `list` the project holds, up to the first missing one. */
  function RebaseFn(env: Env, formPath: string): FormConfig -> FormConfig
  {
    fc => Rebase(fc, env, formPath)
  }

  /** The first of several rebasings. */
  lemma RebaseFirst(x: FormConfig, env: Env, formPath: string, m: nat)
    requires m >= 1
    ensures Rebased(x, RebaseFn(env, formPath)(x), env)
    ensures Iterate(RebaseFn(env, formPath), x, m) ==
      Iterate(RebaseFn(env, formPath), RebaseFn(env, formPath)(x), m - 1)
  {
    assert RebaseFn(env, formPath)(x) == Rebase(x, env, formPath);
  }

  /** Rebasing any positive number of times is a rewriting. */
  lemma {:induction false} RebasedIterate(x: FormConfig, env: Env, formPath: string, m: nat)
    requires m >= 1
    ensures Rebased(x, Iterate(RebaseFn(env, formPath), x, m), env)
    decreases m
  {
    var f := RebaseFn(env, formPath);
    RebaseFirst(x, env, formPath, m);
    if m > 1 {
      RebasedIterate(f(x), env, formPath, m - 1);
      RebasedTwice(x, f(x), Iterate(f, f(x), m - 1), env);
    }
  }

  /** `FirstMissing` only looks at which names are present. */
  lemma {:induction false} FirstMissingSameKeys(list: seq<string>, a: map<string, FormConfig>, b: map<string, FormConfig>)
    requires a.Keys == b.Keys
    ensures FirstMissing(list, a) == FirstMissing(list, b)
    decreases |list|
  {
    if |list| > 0 && list[0] in a {
      FirstMissingSameKeys(list[1..], a, b);
    }
  }

  /** Rebasing the listed layers: each reached layer is rewritten, every other
      layer keeps its form configuration. */
  lemma RebaseListedEffect(list: seq<string>, layers: map<string, FormConfig>, env: Env, formPath: string)
    ensures forall n :: n in layers && n !in list[..FirstMissing(list, layers)] ==>
      ApplyToListed(list, layers, RebaseFn(env, formPath)).1[n] == layers[n]
    ensures forall n :: n in layers && n in list[..FirstMissing(list, layers)] ==>
      Rebased(layers[n], ApplyToListed(list, layers, RebaseFn(env, formPath)).1[n], env)
  {
    var f := RebaseFn(env, formPath);
    var done := list[..FirstMissing(list, layers)];
    ApplyToListedEffect(list, layers, f);
    forall n | n in layers && n in done
      ensures Rebased(layers[n], ApplyToListed(list, layers, f).1[n], env)
    {
      RebasedIterate(layers[n], env, formPath, multiset(done)[n]);
    }
  }

  /** The form-path loop of `setLayers` runs: a project is open, the layer list and
      the form directory are configured, and the directory exists. */
  predicate FormsReady(cfg: Config, project: Project, env: Env)
  {
    && |project.fileName| > 0
    && LayerListFromConfig(cfg).Some?
    && GetConfigElement(cfg, "TOMsLayers", "form_path").Some?
    && env.isDir(env.expandVars(cfg["TOMsLayers"]["form_path"]))
  }

  /** `TOMsLayers.setLayers`: returns whether every listed layer was found (the
      signal it emits), the updated layer list and form directory, and the
      project with rewritten edit forms.  A missing form_path entry makes
      `expandvars(None)` raise TypeError. */
  function SetLayers(setup: LayerSetup, cfg: Config, project: Project, env: Env)
    : (r: Result<(bool, LayerSetup, Project), string>)
    ensures |project.fileName| == 0 ==> r == Success((false, setup, project))
    ensures r.Failure? <==> |project.fileName| > 0 && GetConfigElement(cfg, "TOMsLayers", "form_path").None?
    ensures r.Success? && |project.fileName| > 0 ==>
      && r.value.1.formPath == env.expandVars(cfg["TOMsLayers"]["form_path"])
      && r.value.1.layerList == (if LayerListFromConfig(cfg).Some? then LayerListFromConfig(cfg) else setup.layerList)
    ensures r.Success? ==> r.value.2.fileName == project.fileName && r.value.2.layers.Keys == project.layers.Keys
    ensures r.Success? && !FormsReady(cfg, project, env) ==> !r.value.0 && r.value.2 == project
    ensures r.Success? && FormsReady(cfg, project, env) ==>
      var list := LayerListFromConfig(cfg).value;
      && (r.value.0 <==> FirstMissing(list, project.layers) == |list|)
      && (forall n :: n in project.layers && n !in list[..FirstMissing(list, project.layers)] ==>
            r.value.2.layers[n] == project.layers[n])
      && (forall n :: n in project.layers && n in list[..FirstMissing(list, project.layers)] ==>
            Rebased(project.layers[n], r.value.2.layers[n], env))
  {
    if |project.fileName| == 0 then Success((false, setup, project))
    else
      var list := LayerListFromConfig(cfg);
      var formPath := GetConfigElement(cfg, "TOMsLayers", "form_path");
      if formPath.None? then Failure("TypeError: expandvars of a missing form_path")
      else
        var setup1 := LayerSetup(if list.Some? then list else setup.layerList, env.expandVars(formPath.value));
        if list.None? || !env.isDir(setup1.formPath) then Success((false, setup1, project))
        else
          RebaseListedEffect(list.value, project.layers, env, setup1.formPath);
          var (ok, layers) := ApplyToListed(list.value, project.layers, RebaseFn(env, setup1.formPath));
          Success((ok, setup1, project.(layers := layers)))
  }

  /** What `removePathFromLayerForms` does to one layer: the form is reduced to its
      file name when both the form directory and the form are set. */
  function StripFn(formPath: string): FormConfig -> FormConfig
  {
    (fc: FormConfig) => if |formPath| > 0 && |fc.uiForm| > 0 then fc.(uiForm := Basename(fc.uiForm)) else fc
  }

  /** Stripping is idempotent, so a layer listed twice is stripped once. */
  lemma {:induction false} StripIterate(x: FormConfig, formPath: string, m: nat)
    requires m >= 1
    ensures Iterate(StripFn(formPath), x, m) == StripFn(formPath)(x)
    decreases m
  {
    var f := StripFn(formPath);
    if m > 1 {
      BasenameOfLast("", Basename(x.uiForm));
      assert f(f(x)) == f(x);
      StripIterate(f(x), formPath, m - 1);
    }
  }

  /** `TOMsLayers.removePathFromLayerForms`: with a project open, every listed layer up
      to the first missing one gets its form reduced to the file name; iterating a
      layer list that was never read raises TypeError. */
  function RemovePathFromLayerForms(setup: LayerSetup, project: Project): (r: Result<Project, string>)
    ensures |project.fileName| == 0 ==> r == Success(project)
    ensures r.Failure? <==> |project.fileName| > 0 && setup.layerList.None?
    ensures r.Success? ==> r.value.fileName == project.fileName && r.value.layers.Keys == project.layers.Keys
    ensures r.Success? && |project.fileName| > 0 ==>
      var list := setup.layerList.value;
      && (forall n :: n in project.layers && n !in list[..FirstMissing(list, project.layers)] ==>
            r.value.layers[n] == project.layers[n])
      && (forall n :: n in project.layers && n in list[..FirstMissing(list, project.layers)] ==>
            && r.value.layers[n].initFilePath == project.layers[n].initFilePath
            && (|setup.formPath| > 0 && |project.layers[n].uiForm| > 0 ==>
                  r.value.layers[n].uiForm == Basename(project.layers[n].uiForm))
            && (|setup.formPath| == 0 || |project.layers[n].uiForm| == 0 ==>
                  r.value.layers[n] == project.layers[n]))
  {
    if |project.fileName| == 0 then Success(project)
    else if setup.layerList.None? then Failure("TypeError: 'NoneType' object is not iterable")
    else
      var list := setup.layerList.value;
      var f := StripFn(setup.formPath);
      ApplyToListedEffect(list, project.layers, f);
      assert forall n :: n in project.layers && n in list[..FirstMissing(list, project.layers)] ==>
        ApplyToListed(list, project.layers, f).1[n] == f(project.layers[n]) by {
        forall n | n in project.layers && n in list[..FirstMissing(list, project.layers)] {
          StripIterate(project.layers[n], setup.formPath, multiset(list[..FirstMissing(list, project.layers)])[n]);
        }
      }
      Success(project.(layers := ApplyToListed(list, project.layers, f).1))
  }

  /** Setting the form paths and removing them again leaves each listed layer with
      the bare file name of its original form, whenever that name is a plain file
      name and a form directory is configured. */
  lemma FormPathsRoundTrip(setup: LayerSetup, cfg: Config, project: Project, env: Env, n: string)
    requires SetLayers(setup, cfg, project, env).Success? && SetLayers(setup, cfg, project, env).value.0
    requires |SetLayers(setup, cfg, project, env).value.1.formPath| > 0
    requires n in project.layers && n in LayerListFromConfig(cfg).value
    requires PlainName(Basename(project.layers[n].uiForm))
    ensures
      var applied := SetLayers(setup, cfg, project, env).value;
      var removed := RemovePathFromLayerForms(applied.1, applied.2);
      removed.Success? && removed.value.layers[n].uiForm == Basename(project.layers[n].uiForm)
  {
    var applied := SetLayers(setup, cfg, project, env).value;
    var list := LayerListFromConfig(cfg).value;
    SetLayersComplete(setup, cfg, project, env, n);
    RemoveReachesListed(applied.1, applied.2, list, n);
  }

  /** A complete `setLayers` rewrote every listed layer and recorded the list. */
  lemma SetLayersComplete(setup: LayerSetup, cfg: Config, project: Project, env: Env, n: string)
    requires SetLayers(setup, cfg, project, env).Success? && SetLayers(setup, cfg, project, env).value.0
    requires n in project.layers && n in LayerListFromConfig(cfg).value
    ensures FormsReady(cfg, project, env)
    ensures
      var applied := SetLayers(setup, cfg, project, env).value;
      var list := LayerListFromConfig(cfg).value;
      && |applied.2.fileName| > 0
      && applied.1.layerList == Some(list)
      && (forall i :: 0 <= i < |list| ==> list[i] in applied.2.layers)
      && Rebased(project.layers[n], applied.2.layers[n], env)
  {
    var list := LayerListFromConfig(cfg).value;
    assert list[..|list|] == list;
  }

  /** After a complete `setLayers`, removing the form paths reaches every listed layer. */
  lemma RemoveReachesListed(setup: LayerSetup, project: Project, list: seq<string>, n: string)
    requires |project.fileName| > 0 && setup.layerList == Some(list) && |setup.formPath| > 0
    requires forall i :: 0 <= i < |list| ==> list[i] in project.layers
    requires n in list && |project.layers[n].uiForm| > 0
    ensures RemovePathFromLayerForms(setup, project).Success?
    ensures RemovePathFromLayerForms(setup, project).value.layers[n].uiForm == Basename(project.layers[n].uiForm)
  {
    assert list[..|list|] == list;
    assert FirstMissing(list, project.layers) == |list|;
  }

  // ---------------------------------------------------------------- project variables

  /** The project variables `TOMsParams.getParams` reads, in order. */
  const TomsParamsList: seq<string> := [
    "BayWidth", "BayLength", "BayOffsetFromKerb", "LineOffsetFromKerb", "CrossoverShapeWidth",
    "PhotoPath", "MinimumTextDisplayScale", "TOMsDebugLevel", "AllowZoneEditing"]

  /** What `projectScope(...).variable(name)` returns: None for an unset variable. */
  function Variable(vars: map<string, Value>, name: string): (r: Option<Value>)
    ensures r.Some? <==> name in vars
  {
    if name in vars then Some(vars[name]) else None
  }

  /** The index of the first name whose value `accept` refuses, or `|names|`. */
  function FirstRejected(names: seq<string>, vars: map<string, Value>, accept: Option<Value> -> bool): (k: nat)
    ensures k <= |names|
    ensures forall j :: 0 <= j < k ==> accept(Variable(vars, names[j]))
    ensures k < |names| ==> !accept(Variable(vars, names[k]))
  {
    if |names| == 0 || !accept(Variable(vars, names[0])) then 0
    else 1 + FirstRejected(names[1..], vars, accept)
  }

  /** The parameter loop: stores each accepted value and stops at the first refused one. */
  function ScanParams(names: seq<string>, vars: map<string, Value>, dict: map<string, Option<Value>>,
                      accept: Option<Value> -> bool)
    : (r: (bool, map<string, Option<Value>>))
    ensures r.0 <==> FirstRejected(names, vars, accept) == |names|
    ensures r.0 <==> forall i :: 0 <= i < |names| ==> accept(Variable(vars, names[i]))
    ensures r.0 ==> forall i :: 0 <= i < |names| ==> names[i] in r.1 && r.1[names[i]] == Variable(vars, names[i])
    ensures forall j :: 0 <= j < FirstRejected(names, vars, accept) ==>
      names[j] in r.1 && r.1[names[j]] == Variable(vars, names[j])
    ensures forall key :: key !in names[..FirstRejected(names, vars, accept)] ==>
      (key in r.1 <==> key in dict) && (key in dict ==> r.1[key] == dict[key])
    decreases |names|
  {
    if |names| == 0 || !accept(Variable(vars, names[0])) then (|names| == 0, dict)
    else
      var d1 := dict[names[0] := Variable(vars, names[0])];
      var r := ScanParams(names[1..], vars, d1, accept);
      var k := FirstRejected(names[1..], vars, accept);
      assert FirstRejected(names, vars, accept) == 1 + k;
      assert names[..1 + k] == [names[0]] + names[1..][..k];
      ScanHeadRecorded(names, vars, d1, r.1, k);
      r
  }

  /** The step of the parameter loop: the head's value survives the rest of the
      scan, so the first `1 + k` names are all recorded. */
  lemma ScanHeadRecorded(names: seq<string>, vars: map<string, Value>, d1: map<string, Option<Value>>,
                         m: map<string, Option<Value>>, k: nat)
    requires 0 < |names| && k < |names| && names[0] in d1 && d1[names[0]] == Variable(vars, names[0])
    requires forall j :: 0 <= j < k ==> names[1..][j] in m && m[names[1..][j]] == Variable(vars, names[1..][j])
    requires forall key :: key !in names[1..][..k] ==> (key in m <==> key in d1) && (key in d1 ==> m[key] == d1[key])
    ensures forall j :: 0 <= j < 1 + k ==> names[j] in m && m[names[j]] == Variable(vars, names[j])
  {
    forall j | 0 <= j < 1 + k
      ensures names[j] in m && m[names[j]] == Variable(vars, names[j])
    {
      if j > 0 {
        assert names[j] == names[1..][j - 1];
      } else if names[0] !in names[1..][..k] {
        assert m[names[0]] == d1[names[0]];
      } else {
        var i :| 0 <= i < k && names[1..][..k][i] == names[0];
        assert names[1..][i] == names[0];
      }
    }
  }

  /** A complete scan holds an accepted value under every name. */
  lemma ScanParamsAccepted(names: seq<string>, vars: map<string, Value>, dict: map<string, Option<Value>>,
                           accept: Option<Value> -> bool)
    ensures var r := ScanParams(names, vars, dict, accept);
      r.0 ==> forall i :: 0 <= i < |names| ==> names[i] in r.1 && accept(r.1[names[i]])
  {
  }

  /** Every name's variable passes the test. */
  predicate AllAccepted(names: seq<string>, vars: map<string, Value>, accept: Option<Value> -> bool)
  {
    forall i :: 0 <= i < |names| ==> accept(Variable(vars, names[i]))
  }

  /** Every name is in the dictionary with its variable's value, which passes the test. */
  predicate AllRecorded(names: seq<string>, vars: map<string, Value>, m: map<string, Option<Value>>,
                        accept: Option<Value> -> bool)
  {
    forall i :: 0 <= i < |names| ==> names[i] in m && m[names[i]] == Variable(vars, names[i]) && accept(m[names[i]])
  }

  /** The body of `getParams` for a given acceptance test: nothing is read without
      an open project, otherwise the names are scanned. */
  function ScanIfOpen(fileName: string, names: seq<string>, vars: map<string, Value>, dict: map<string, Option<Value>>,
                      accept: Option<Value> -> bool)
    : (r: (bool, map<string, Option<Value>>))
    ensures |fileName| == 0 ==> r == (false, dict)
    ensures |fileName| > 0 ==> (r.0 <==> AllAccepted(names, vars, accept))
    ensures r.0 ==> AllRecorded(names, vars, r.1, accept)
  {
    if |fileName| == 0 then (false, dict)
    else
      ScanParamsAccepted(names, vars, dict, accept);
      ScanParams(names, vars, dict, accept)
  }

  /** `len(str(v)) > 0`, the test `getParams` applies: `str(None)` is "None", so an
      unset variable passes. */
  predicate StrNonEmpty(v: Option<Value>)
  {
    match v
    case None => true
    case Some(Null) => true
    case Some(IntV(_)) => true
    case Some(StrV(s)) => |s| > 0
  }

  /** A variable that is set to a non-empty value. */
  predicate ParamPresent(v: Option<Value>)
  {
    v.Some? && v.value != Null && (v.value.StrV? ==> |v.value.s| > 0)
  }

  /** `TOMsParams.getParams` as written: `found` and the parameter dictionary.  No
      open project means not found; otherwise the scan stops at the first variable
      whose string form is empty. */
  function GetParamsAsWritten(fileName: string, vars: map<string, Value>, dict: map<string, Option<Value>>)
    : (r: (bool, map<string, Option<Value>>))
    ensures |fileName| == 0 ==> r == (false, dict)
    ensures |fileName| > 0 ==> (r.0 <==> AllAccepted(TomsParamsList, vars, StrNonEmpty))
    ensures r.0 ==> AllRecorded(TomsParamsList, vars, r.1, StrNonEmpty)
  {
    ScanIfOpen(fileName, TomsParamsList, vars, dict, StrNonEmpty)
  }

  /** An open project with none of the TOMs variables set: the scan as written
      reports every parameter found, holding None. */
  lemma GetParamsAcceptsUnset()
    ensures GetParamsAsWritten("project.qgz", map[], map[]).0
    ensures GetParamsAsWritten("project.qgz", map[], map[]).1["BayWidth"] == None
  {
    assert forall i :: 0 <= i < |TomsParamsList| ==> StrNonEmpty(Variable(map[], TomsParamsList[i]));
  }

  /** `getParams` with the intended test: a parameter counts only when the variable
      is set to a non-empty value. */
  function GetParams(fileName: string, vars: map<string, Value>, dict: map<string, Option<Value>>)
    : (r: (bool, map<string, Option<Value>>))
    ensures |fileName| == 0 ==> r == (false, dict)
    ensures |fileName| > 0 ==> (r.0 <==> AllAccepted(TomsParamsList, vars, ParamPresent))
    ensures r.0 ==> AllRecorded(TomsParamsList, vars, r.1, ParamPresent)
  {
    ScanIfOpen(fileName, TomsParamsList, vars, dict, ParamPresent)
  }

  /** With the intended test the same unset project is reported as not found. */
  lemma GetParamsRejectsUnset()
    ensures !GetParams("project.qgz", map[], map[]).0
  {
    assert !ParamPresent(Variable(map[], TomsParamsList[0]));
  }
}
