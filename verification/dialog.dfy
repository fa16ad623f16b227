/** `RestrictionDialogWrapper`: the restriction form's OK and Cancel.  OK stages
    the form's values as the proposal requires (in place, as a new restriction,
    or as a CLOSE of the old restriction plus an OPENed clone) and commits the
    transaction group; Cancel rolls it back. */
module RestrictionDialog {
  import opened Wrappers
  import opened Schema
  import opened Constants
  import opened Ledger
  import opened Store
  import opened LayerConfig

  /** The exceptions OK can raise after staging, when it reloads the label layers
      of the restriction's layer: the layer has no label layers defined
      (UnboundLocalError), or a label layer is not in the project (IndexError). */
  datatype DialogError = LabelLayersUnknown | LabelLayerMissing(name: string)

  /** The transaction after OK, and the exception it raised, if any (then nothing
      was committed). */
  datatype AcceptOutcome = AcceptOutcome(tx: Tx, raised: Option<DialogError>)

  /** What the form holds: the feature id, the feature as it was when the form
      opened (`origFeature`) and the feature with the form's changes (`feature`). */
  datatype Form = Form(fid: Fid, orig: Restriction, edited: Restriction)

  /** The branch OK takes. */
  datatype Branch = InPlace | NewRestriction | CloseAndClone

  function BranchOf(s: State, form: Form, tid: int, pid: int): Branch
  {
    if InProposal(s.ledger, form.edited.restrictionId, tid, pid) then InPlace
    else if form.edited.openDate.None? then NewRestriction
    else CloseAndClone
  }

  /** The writes OK makes inside the group, before any label layer is touched.
      The answers of the store are not looked at; a refused write is simply
      missing from the result.  The form's own save of a new restriction and the
      `addFeature` that follows it are one write of the feature at its id. */
  function StageForm(s: State, form: Form, tid: int, pid: int, newRid: string, newFid: Fid, faults: set<Fault>): (r: State)
    requires newFid !in s.features && newFid != form.fid
    ensures BranchOf(s, form, tid, pid) == InPlace ==> r.ledger == s.ledger
    ensures BranchOf(s, form, tid, pid) == InPlace && faults == {} && form.fid in s.features ==>
      r.features == s.features[form.fid := form.edited]
    ensures BranchOf(s, form, tid, pid) == NewRestriction && faults == {} ==>
      && r.ledger == s.ledger + [ProposalRow(newRid, tid, pid, RestrictionAction.Open)]
      && r.features == s.features[form.fid := form.edited.(restrictionId := newRid)]
    ensures BranchOf(s, form, tid, pid) == CloseAndClone && faults == {} ==>
      && r.ledger == s.ledger + [ProposalRow(form.edited.restrictionId, tid, pid, RestrictionAction.Close),
                                 ProposalRow(newRid, tid, pid, RestrictionAction.Open)]
      && (form.fid in s.features ==>
            r.features == s.features[newFid := Clone(form.edited, newRid)][form.fid := form.orig])
  {
    match BranchOf(s, form, tid, pid)
    case InPlace =>
      UpdateFeature(s, form.fid, form.edited, faults).1
    case NewRestriction =>
      var ledger := AddRestrictionToProposal(s.ledger, newRid, tid, pid, RestrictionAction.Open, faults).1;
      var s1 := s.(ledger := ledger);
      var saved := form.edited.(restrictionId := newRid);
      if form.fid in s1.features then UpdateFeature(s1, form.fid, saved, faults).1
      else AddFeature(s1, form.fid, saved, faults).1
    case CloseAndClone =>
      var rid := form.edited.restrictionId;
      var closed := AddRestrictionToProposal(s.ledger, rid, tid, pid, RestrictionAction.Close, faults).1;
      var s1 := AddFeature(s.(ledger := closed), newFid, Clone(form.edited, newRid), faults).1;
      var reopened := AddRestrictionToProposal(s1.ledger, newRid, tid, pid, RestrictionAction.Open, faults).1;
      var s2 := s1.(ledger := reopened);
      assert faults == {} ==> reopened == s.ledger + [ProposalRow(rid, tid, pid, RestrictionAction.Close),
                                                    ProposalRow(newRid, tid, pid, RestrictionAction.Open)];
      UpdateFeature(s2, form.fid, form.orig, faults).1
  }

  /** The label-layer reload at the end of the clone branch, as written: every
      label layer name must name a layer of the project. */
  function ReloadLabelLayersAsWritten(layerName: string, projectLayers: set<string>): (r: Option<DialogError>)
    ensures r.None? <==> (LabelLayerNames(layerName).Some? &&
      forall i :: 0 <= i < |LabelLayerNames(layerName).value| ==> LabelLayerNames(layerName).value[i] in projectLayers)
  {
    var names := LabelLayerNames(layerName);
    if names.None? then Some(LabelLayersUnknown)
    else FirstMissingLayer(names.value, projectLayers)
  }

  /** The first name that is not a layer of the project, as an IndexError. */
  function FirstMissingLayer(names: seq<string>, projectLayers: set<string>): (r: Option<DialogError>)
    ensures r.None? <==> forall i :: 0 <= i < |names| ==> names[i] in projectLayers
    ensures r.Some? ==> exists i :: (0 <= i < |names| && r.value == LabelLayerMissing(names[i]) && names[i] !in projectLayers)
  {
    if |names| == 0 then None
    else if names[0] !in projectLayers then Some(LabelLayerMissing(names[0]))
    else
      var r := FirstMissingLayer(names[1..], projectLayers);
      assert forall i :: 1 <= i < |names| ==> names[i] == names[1..][i - 1];
      r
  }

  /** The reload as `checkEditedGeometries` does it: a label layer that is not in
      the project is skipped. */
  function ReloadLabelLayers(layerName: string, projectLayers: set<string>): (r: Option<DialogError>)
    ensures r.None? <==> LabelLayerNames(layerName).Some?
    ensures r.Some? ==> r.value == LabelLayersUnknown
  {
    if LabelLayerNames(layerName).None? then Some(LabelLayersUnknown) else None
  }

  /** OK with a given label-layer reload: nothing without WRITE permission or
      outside a proposal; otherwise stage the form and commit, unless the reload of
      the clone branch raises, which leaves the staged group uncommitted. */
  function AcceptWith(reload: Option<DialogError>, tx: Tx, perms: Permissions, pid: int, tid: int, form: Form,
                      newRid: string, newFid: Fid, faults: set<Fault>): (r: AcceptOutcome)
    requires newFid !in tx.current.features && newFid != form.fid
    ensures !perms.write || pid <= 0 ==> r == AcceptOutcome(tx, None)
    ensures r.raised.Some? ==> (r.raised == reload && r.tx.committed == tx.committed &&
      BranchOf(tx.current, form, tid, pid) == CloseAndClone)
    ensures perms.write && pid > 0 && r.raised.None? ==>
      !Modified(r.tx) && r.tx.current == StageForm(tx.current, form, tid, pid, newRid, newFid, faults)
    ensures r.raised.Some? <==> perms.write && pid > 0 && BranchOf(tx.current, form, tid, pid) == CloseAndClone && reload.Some?
    ensures perms.write && pid > 0 && BranchOf(tx.current, form, tid, pid) == CloseAndClone && reload.Some? ==>
      r == AcceptOutcome(Tx(tx.committed, StageForm(tx.current, form, tid, pid, newRid, newFid, faults)), reload)
  {
    if !perms.write || pid <= 0 then AcceptOutcome(tx, None)
    else
      var s := StageForm(tx.current, form, tid, pid, newRid, newFid, faults);
      if BranchOf(tx.current, form, tid, pid) == CloseAndClone && reload.Some? then
        AcceptOutcome(Tx(tx.committed, s), reload)
      else AcceptOutcome(Commit(Tx(tx.committed, s)), None)
  }

  /** `accept` as written. */
  function AcceptAsWritten(tx: Tx, perms: Permissions, pid: int, tid: int, form: Form, layerName: string,
                           projectLayers: set<string>, newRid: string, newFid: Fid, faults: set<Fault>): (r: AcceptOutcome)
    requires newFid !in tx.current.features && newFid != form.fid
    ensures r.raised.Some? ==> r.tx.committed == tx.committed
  {
    AcceptWith(ReloadLabelLayersAsWritten(layerName, projectLayers), tx, perms, pid, tid, form, newRid, newFid, faults)
  }

  /** `accept` with missing label layers skipped. */
  function Accept(tx: Tx, perms: Permissions, pid: int, tid: int, form: Form, layerName: string,
                  projectLayers: set<string>, newRid: string, newFid: Fid, faults: set<Fault>): (r: AcceptOutcome)
    requires newFid !in tx.current.features && newFid != form.fid
    ensures r.raised.Some? ==> r.raised == Some(LabelLayersUnknown) && LabelLayerNames(layerName).None?
    ensures LabelLayerNames(layerName).Some? ==> r.raised.None?
  {
    AcceptWith(ReloadLabelLayers(layerName, projectLayers), tx, perms, pid, tid, form, newRid, newFid, faults)
  }

  /** A Sign has no label layers, which the label table writes as the one name "";
      no layer of the project has that name, so OK on a Sign created before the
      proposal raises after staging and commits nothing, where the corrected OK
      commits the CLOSE row and the clone. */
  lemma AcceptSignRaises(tx: Tx, perms: Permissions, pid: int, tid: int, form: Form, projectLayers: set<string>,
                         newRid: string, newFid: Fid, faults: set<Fault>)
    requires perms.write && pid > 0 && "" !in projectLayers
    requires newFid !in tx.current.features && newFid != form.fid
    requires BranchOf(tx.current, form, tid, pid) == CloseAndClone
    ensures AcceptAsWritten(tx, perms, pid, tid, form, "Signs", projectLayers, newRid, newFid, faults)
      == AcceptOutcome(Tx(tx.committed, StageForm(tx.current, form, tid, pid, newRid, newFid, faults)), Some(LabelLayerMissing("")))
    ensures var r := Accept(tx, perms, pid, tid, form, "Signs", projectLayers, newRid, newFid, faults);
      r.raised.None? && r.tx.committed == StageForm(tx.current, form, tid, pid, newRid, newFid, faults)
  {
    LabelTablesMatchLayerList();
    assert LabelLayerNames("Signs").value[0] == "";
  }

  /** OK on a restriction already in the proposal saves the form's values over the
      feature and writes no row. */
  lemma AcceptInPlace(tx: Tx, perms: Permissions, pid: int, tid: int, form: Form, layerName: string,
                      projectLayers: set<string>, newRid: string, newFid: Fid)
    requires perms.write && pid > 0 && form.fid in tx.current.features
    requires newFid !in tx.current.features && newFid != form.fid
    requires InProposal(tx.current.ledger, form.edited.restrictionId, tid, pid)
    ensures var r := Accept(tx, perms, pid, tid, form, layerName, projectLayers, newRid, newFid, {});
      && r.raised.None? && !Modified(r.tx)
      && r.tx.committed == State(tx.current.features[form.fid := form.edited], tx.current.ledger)
  {
  }

  /** OK on a restriction drawn in this session gives it a fresh RestrictionID and
      OPENs it, which puts it in the proposal. */
  lemma AcceptNewOpens(tx: Tx, perms: Permissions, pid: int, tid: int, form: Form, layerName: string,
                       projectLayers: set<string>, newRid: string, newFid: Fid)
    requires perms.write && pid > 0 && form.edited.openDate.None?
    requires newFid !in tx.current.features && newFid != form.fid
    requires !InProposal(tx.current.ledger, form.edited.restrictionId, tid, pid)
    requires RidUnused(tx.current, newRid)
    ensures var r := Accept(tx, perms, pid, tid, form, layerName, projectLayers, newRid, newFid, {});
      && r.raised.None? && !Modified(r.tx)
      && r.tx.committed.features == tx.current.features[form.fid := form.edited.(restrictionId := newRid)]
      && r.tx.committed.ledger == tx.current.ledger + [ProposalRow(newRid, tid, pid, RestrictionAction.Open)]
      && InProposal(r.tx.committed.ledger, newRid, tid, pid)
  {
    var l := tx.current.ledger;
    var row := ProposalRow(newRid, tid, pid, RestrictionAction.Open);
    FreshRidUnstaged(tx.current, newRid, tid, pid);
    CountConcat(l, [row], newRid, tid, pid);
    assert [row][1..] == [];
  }

  /** OK on a restriction created before this proposal leaves that restriction as
      it was and CLOSEs it, and puts the form's values in a clone that is OPENed. */
  lemma AcceptExistingForks(tx: Tx, perms: Permissions, pid: int, tid: int, form: Form, layerName: string,
                            projectLayers: set<string>, newRid: string, newFid: Fid)
    requires perms.write && pid > 0 && form.edited.openDate.Some? && form.fid in tx.current.features
    requires newFid !in tx.current.features && newFid != form.fid
    requires !InProposal(tx.current.ledger, form.edited.restrictionId, tid, pid)
    requires RidUnused(tx.current, newRid) && form.edited.restrictionId != newRid
    requires LabelLayerNames(layerName).Some?
    ensures var r := Accept(tx, perms, pid, tid, form, layerName, projectLayers, newRid, newFid, {});
      && r.raised.None? && !Modified(r.tx)
      && r.tx.committed.features == tx.current.features[newFid := Clone(form.edited, newRid)][form.fid := form.orig]
      && |r.tx.committed.ledger| == |tx.current.ledger| + 2
      && r.tx.committed.ledger[|tx.current.ledger|] ==
           LedgerRow(form.edited.restrictionId, tid, pid, ActionValue(RestrictionAction.Close))
      && InProposal(r.tx.committed.ledger, newRid, tid, pid)
  {
    var l := tx.current.ledger;
    var pair := [ProposalRow(form.edited.restrictionId, tid, pid, RestrictionAction.Close),
                 ProposalRow(newRid, tid, pid, RestrictionAction.Open)];
    FreshRidUnstaged(tx.current, newRid, tid, pid);
    CountConcat(l, pair, newRid, tid, pid);
    assert pair[1..] == [pair[1]] && [pair[1]][1..] == [];
    assert CountMatching([pair[1]], newRid, tid, pid) == 1;
    assert !Matches(pair[0], newRid, tid, pid);
    assert CountMatching(pair, newRid, tid, pid) == 1;
  }

  /** Cancel: the group is rolled back. */
  function Reject(tx: Tx): (r: Tx)
    ensures !Modified(r) && r.committed == tx.committed && r.current == tx.committed
  {
    Rollback(tx)
  }

  /** `checkElectricVehicleChargingPlace`: the ParkingTariffArea box is enabled only
      for restriction type 124, and otherwise is reset to the default area. */
  function EvChargingPta(typeId: Value, shown: string, defaultPta: string): (r: (bool, string))
    ensures r.0 <==> typeId == IntV(124)
    ensures r.0 ==> r.1 == shown
    ensures !r.0 ==> r.1 == defaultPta
  {
    (typeId == IntV(124), if typeId != IntV(124) then defaultPta else shown)
  }

  /** Re-running the check on its own result changes nothing, so the handler can
      fire on every type change. */
  lemma EvChargingPtaStable(typeId: Value, shown: string, defaultPta: string)
    ensures EvChargingPta(typeId, EvChargingPta(typeId, shown, defaultPta).1, defaultPta) == EvChargingPta(typeId, shown, defaultPta)
  {
  }
}
