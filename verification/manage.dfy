/** `ManageRestrictionDetails`: the toolbar actions that remove, create, edit and
    split restrictions.  Every action runs inside the restriction transaction
    group (`Tx`): it rolls back, stages its changes, and commits them or rolls
    them back. */
module ManageRestrictions {
  import opened Wrappers
  import opened Text
  import opened Schema
  import opened Constants
  import opened Ledger
  import opened Store
  import opened LayerConfig
  import opened GeometryChecks

  // --------------------------------------------------------------- remove

  /** `onRemoveRestriction`: a restriction already in the proposal is deleted
      outright (ledger row and feature) unless it carries an OpenDate, which is
      refused; any other restriction gets a CLOSE row.  `tid` is the table id
      `getRestrictionLayerTableID` found for the layer. */
  function OnRemoveRestriction(s: State, fid: Fid, tid: int, pid: int, faults: set<Fault>): (r: (bool, State))
    requires fid in s.features
    ensures var m := s.features[fid];
      InProposal(s.ledger, m.restrictionId, tid, pid) && m.openDate.Some? ==> r == (false, s)
    ensures var m := s.features[fid];
      InProposal(s.ledger, m.restrictionId, tid, pid) && r.0 ==>
        && r.1.features == s.features - {fid}
        && |r.1.ledger| == |s.ledger| - 1
        && CountMatching(r.1.ledger, m.restrictionId, tid, pid) == 0
    ensures var m := s.features[fid];
      !InProposal(s.ledger, m.restrictionId, tid, pid) ==>
        && (r.0 <==> LedgerAddFails(ProposalRow(m.restrictionId, tid, pid, RestrictionAction.Close)) !in faults)
        && (r.0 ==> r.1 == State(s.features, s.ledger + [ProposalRow(m.restrictionId, tid, pid, RestrictionAction.Close)]))
    ensures var m := s.features[fid];
      faults == {} ==> (r.0 <==> !(InProposal(s.ledger, m.restrictionId, tid, pid) && m.openDate.Some?))
    ensures r.1.features.Keys <= s.features.Keys
    ensures forall f :: f in s.features && f != fid ==> f in r.1.features && r.1.features[f] == s.features[f]
  {
    var m := s.features[fid];
    if InProposal(s.ledger, m.restrictionId, tid, pid) then
      if m.openDate.Some? then (false, s)
      else
        var deleted := DeleteRestrictionInProposal(s.ledger, m.restrictionId, tid, pid, faults);
        if !deleted.0 then (false, s)
        else
          var s1 := s.(ledger := deleted.1);
          DeleteFeature(s1, fid, faults)
    else
      var added := AddRestrictionToProposal(s.ledger, m.restrictionId, tid, pid, RestrictionAction.Close, faults);
      if !added.0 then (false, s)
      else (true, s.(ledger := added.1))
  }

  /** Removing a committed restriction twice in one proposal: the first removal
      CLOSEs it, which puts it in the proposal with its OpenDate, so the second
      is refused and changes nothing. */
  lemma RemoveTwiceRefused(s: State, fid: Fid, tid: int, pid: int, faults: set<Fault>)
    requires fid in s.features && s.features[fid].openDate.Some?
    requires CountMatching(s.ledger, s.features[fid].restrictionId, tid, pid) == 0
    requires OnRemoveRestriction(s, fid, tid, pid, faults).0
    ensures var s1 := OnRemoveRestriction(s, fid, tid, pid, faults).1;
      fid in s1.features && OnRemoveRestriction(s1, fid, tid, pid, faults) == (false, s1)
  {
    var m := s.features[fid];
    CountZeroIffNone(s.ledger, m.restrictionId, tid, pid);
  }

  /** A restriction created in this proposal (one OPEN row, no OpenDate) is removed
      without trace: the feature goes and no row for it is left. */
  lemma RemoveCreatedLeavesNoTrace(s: State, fid: Fid, tid: int, pid: int)
    requires fid in s.features && s.features[fid].openDate.None?
    requires InProposal(s.ledger, s.features[fid].restrictionId, tid, pid)
    ensures var r := OnRemoveRestriction(s, fid, tid, pid, {});
      r.0 && fid !in r.1.features && CountMatching(r.1.ledger, s.features[fid].restrictionId, tid, pid) == 0
  {
  }

  /** The loop of `doRemoveRestriction` over the selected features: it stops at the
      first removal that returns False. */
  function RemoveAll(s: State, fids: seq<Fid>, tid: int, pid: int, faults: set<Fault>): (r: (bool, State))
    requires forall i :: 0 <= i < |fids| ==> fids[i] in s.features
    requires forall i, j :: 0 <= i < j < |fids| ==> fids[i] != fids[j]
    ensures r.1.features.Keys <= s.features.Keys
    ensures forall f :: f in s.features && f !in fids ==> f in r.1.features && r.1.features[f] == s.features[f]
    decreases |fids|
  {
    if |fids| == 0 then (true, s)
    else
      var one := OnRemoveRestriction(s, fids[0], tid, pid, faults);
      if !one.0 then (false, one.1)
      else
        assert forall i :: 1 <= i < |fids| ==> fids[i] != fids[0];
        var rest := RemoveAll(one.1, fids[1..], tid, pid, faults);
        assert forall f :: f !in fids ==> f != fids[0] && f !in fids[1..];
        rest
  }

  /** Removing restrictions none of which is in the proposal, with distinct
      RestrictionIDs and no refused write, keeps every feature and appends one
      CLOSE row per restriction, in selection order. */
  lemma {:induction false} RemoveAllCloses(s: State, fids: seq<Fid>, tid: int, pid: int)
    requires forall i :: 0 <= i < |fids| ==> fids[i] in s.features
    requires forall i, j :: 0 <= i < j < |fids| ==> fids[i] != fids[j]
    requires forall i, j :: 0 <= i < j < |fids| ==> s.features[fids[i]].restrictionId != s.features[fids[j]].restrictionId
    requires forall i :: 0 <= i < |fids| ==> CountMatching(s.ledger, s.features[fids[i]].restrictionId, tid, pid) == 0
    ensures RemoveAll(s, fids, tid, pid, {}) == (true, State(s.features, s.ledger + ProposalRows(RidsOf(s, fids), tid, pid, RestrictionAction.Close)))
    decreases |fids|
  {
    if |fids| == 0 {
      assert s.ledger + [] == s.ledger;
    } else {
      var row := ProposalRow(s.features[fids[0]].restrictionId, tid, pid, RestrictionAction.Close);
      var s1 := State(s.features, s.ledger + [row]);
      RemoveOneCloses(s, fids[0], tid, pid);
      TailArgs(s, s1, fids, tid, pid);
      RemoveAllCloses(s1, fids[1..], tid, pid);
      RemoveAllStep(s, s1, fids, tid, pid);
      ClosesAppend(s, s1, fids, tid, pid);
    }
  }

  /** The ledger after the first CLOSE row and the rest's is the ledger with all
      the selection's CLOSE rows. */
  lemma ClosesAppend(s: State, s1: State, fids: seq<Fid>, tid: int, pid: int)
    requires |fids| > 0
    requires forall i :: 0 <= i < |fids| ==> fids[i] in s.features
    requires s1 == State(s.features, s.ledger + [ProposalRow(s.features[fids[0]].restrictionId, tid, pid, RestrictionAction.Close)])
    ensures s1.ledger + ProposalRows(RidsOf(s1, fids[1..]), tid, pid, RestrictionAction.Close) == s.ledger + ProposalRows(RidsOf(s, fids), tid, pid, RestrictionAction.Close)
  {
    var row := ProposalRow(s.features[fids[0]].restrictionId, tid, pid, RestrictionAction.Close);
    var c1 := ProposalRows(RidsOf(s1, fids[1..]), tid, pid, RestrictionAction.Close);
    CloseRowsCons(s, s1, fids, tid, pid);
    AppendAssoc(s.ledger, [row], c1);
  }


  /** After the first CLOSE row, the remaining selections still meet the
      conditions of `RemoveAllCloses`. */
  lemma TailStaysUnstaged(s: State, fids: seq<Fid>, tid: int, pid: int)
    requires |fids| > 0
    requires forall i :: 0 <= i < |fids| ==> fids[i] in s.features
    requires forall i, j :: 0 <= i < j < |fids| ==> s.features[fids[i]].restrictionId != s.features[fids[j]].restrictionId
    requires forall i :: 0 <= i < |fids| ==> CountMatching(s.ledger, s.features[fids[i]].restrictionId, tid, pid) == 0
    ensures var row := ProposalRow(s.features[fids[0]].restrictionId, tid, pid, RestrictionAction.Close);
      forall i :: 1 <= i < |fids| ==> CountMatching(s.ledger + [row], s.features[fids[i]].restrictionId, tid, pid) == 0
  {
    var row := ProposalRow(s.features[fids[0]].restrictionId, tid, pid, RestrictionAction.Close);
    forall i | 1 <= i < |fids|
      ensures CountMatching(s.ledger + [row], s.features[fids[i]].restrictionId, tid, pid) == 0
    {
      OtherRowKeepsCount(s.ledger, row, s.features[fids[i]].restrictionId, tid, pid);
    }
  }

  /** The rest of the selection, after the first CLOSE row, meets the conditions
      of `RemoveAllCloses` again. */
  lemma TailArgs(s: State, s1: State, fids: seq<Fid>, tid: int, pid: int)
    requires |fids| > 0
    requires forall i :: 0 <= i < |fids| ==> fids[i] in s.features
    requires s1 == State(s.features, s.ledger + [ProposalRow(s.features[fids[0]].restrictionId, tid, pid, RestrictionAction.Close)])
    requires forall i, j :: 0 <= i < j < |fids| ==> fids[i] != fids[j]
    requires forall i, j :: 0 <= i < j < |fids| ==> s.features[fids[i]].restrictionId != s.features[fids[j]].restrictionId
    requires forall i :: 0 <= i < |fids| ==> CountMatching(s.ledger, s.features[fids[i]].restrictionId, tid, pid) == 0
    ensures var tail := fids[1..];
      && (forall i :: 0 <= i < |tail| ==> tail[i] in s1.features)
      && (forall i, j :: 0 <= i < j < |tail| ==> tail[i] != tail[j])
      && (forall i, j :: 0 <= i < j < |tail| ==> s1.features[tail[i]].restrictionId != s1.features[tail[j]].restrictionId)
      && (forall i :: 0 <= i < |tail| ==> CountMatching(s1.ledger, s1.features[tail[i]].restrictionId, tid, pid) == 0)
  {
    var tail := fids[1..];
    TailStaysUnstaged(s, fids, tid, pid);
    assert forall i :: 0 <= i < |tail| ==> tail[i] == fids[i + 1];
  }

  /** A first removal that succeeds hands the rest of the selection to the loop. */
  lemma RemoveAllStep(s: State, s1: State, fids: seq<Fid>, tid: int, pid: int)
    requires |fids| > 0 && s1.features == s.features
    requires forall i :: 0 <= i < |fids| ==> fids[i] in s.features
    requires forall i, j :: 0 <= i < j < |fids| ==> fids[i] != fids[j]
    requires OnRemoveRestriction(s, fids[0], tid, pid, {}) == (true, s1)
    ensures RemoveAll(s, fids, tid, pid, {}) == RemoveAll(s1, fids[1..], tid, pid, {})
  {
  }

  /** The CLOSE rows of a selection are the first one's row followed by the rest's. */
  lemma CloseRowsCons(s: State, s1: State, fids: seq<Fid>, tid: int, pid: int)
    requires |fids| > 0 && s1.features == s.features
    requires forall i :: 0 <= i < |fids| ==> fids[i] in s.features
    ensures ProposalRows(RidsOf(s, fids), tid, pid, RestrictionAction.Close) ==
      [ProposalRow(s.features[fids[0]].restrictionId, tid, pid, RestrictionAction.Close)]
        + ProposalRows(RidsOf(s1, fids[1..]), tid, pid, RestrictionAction.Close)
  {
    var rest := ProposalRows(RidsOf(s1, fids[1..]), tid, pid, RestrictionAction.Close);
    assert forall i :: 0 <= i < |rest| ==> rest[i] == ProposalRows(RidsOf(s, fids), tid, pid, RestrictionAction.Close)[i + 1];
  }

  /** Removing one restriction that has no row in the proposal appends its CLOSE row. */
  lemma RemoveOneCloses(s: State, fid: Fid, tid: int, pid: int)
    requires fid in s.features && CountMatching(s.ledger, s.features[fid].restrictionId, tid, pid) == 0
    ensures OnRemoveRestriction(s, fid, tid, pid, {}) ==
      (true, State(s.features, s.ledger + [ProposalRow(s.features[fid].restrictionId, tid, pid, RestrictionAction.Close)]))
  {
  }

  /** A row for another RestrictionID leaves a RestrictionID without rows. */
  lemma OtherRowKeepsCount(l: seq<LedgerRow>, row: LedgerRow, rid: string, tid: int, pid: int)
    requires row.restrictionId != rid && CountMatching(l, rid, tid, pid) == 0
    ensures CountMatching(l + [row], rid, tid, pid) == 0
  {
    CountConcat(l, [row], rid, tid, pid);
    assert [row][1..] == [];
  }

  /** `doRemoveRestriction`: roll back, then (in a proposal, with a selection) remove
      every selected restriction and commit; the first failure rolls everything
      back before the commit, so the removal is all or nothing. */
  function DoRemoveRestriction(tx: Tx, selected: seq<Fid>, tid: int, pid: int, faults: set<Fault>): (r: Tx)
    requires forall i :: 0 <= i < |selected| ==> selected[i] in tx.committed.features
    requires forall i, j :: 0 <= i < j < |selected| ==> selected[i] != selected[j]
    ensures !Modified(r)
    ensures r.committed == tx.committed ||
      (pid > 0 && |selected| > 0 && RemoveAll(tx.committed, selected, tid, pid, faults) == (true, r.committed))
    ensures pid <= 0 || |selected| == 0 ==> r == Rollback(tx)
    ensures pid > 0 && |selected| > 0 && !RemoveAll(tx.committed, selected, tid, pid, faults).0 ==> r == Rollback(tx)
  {
    var tx0 := Rollback(tx);
    if pid <= 0 || |selected| == 0 then tx0
    else
      var all := RemoveAll(tx0.current, selected, tid, pid, faults);
      if !all.0 then Commit(Rollback(Tx(tx0.committed, all.1)))
      else Commit(Tx(tx0.committed, all.1))
  }

  /** Removing committed restrictions that are not in the proposal commits exactly
      their CLOSE rows and keeps every feature. */
  lemma DoRemoveCommitsCloses(tx: Tx, selected: seq<Fid>, tid: int, pid: int)
    requires pid > 0 && |selected| > 0
    requires forall i :: 0 <= i < |selected| ==> selected[i] in tx.committed.features
    requires forall i, j :: 0 <= i < j < |selected| ==> selected[i] != selected[j]
    requires forall i, j :: 0 <= i < j < |selected| ==>
      tx.committed.features[selected[i]].restrictionId != tx.committed.features[selected[j]].restrictionId
    requires forall i :: 0 <= i < |selected| ==>
      CountMatching(tx.committed.ledger, tx.committed.features[selected[i]].restrictionId, tid, pid) == 0
    ensures var r := DoRemoveRestriction(tx, selected, tid, pid, {});
      r.committed.features == tx.committed.features &&
      r.committed.ledger == tx.committed.ledger + ProposalRows(RidsOf(tx.committed, selected), tid, pid, RestrictionAction.Close)
  {
    RemoveAllCloses(tx.committed, selected, tid, pid);
  }

  // --------------------------------------------------------------- create

  /** The create actions of the toolbar. */
  datatype CreateAction = CreateSign | CreateBay | CreateLine | CreatePolygon | CreateConstructionLine

  /** The layer a create action edits. */
  function CreateLayer(a: CreateAction): (name: string)
    ensures a != CreateConstructionLine <==> LabelLayerNames(name).Some?
  {
    match a
    case CreateSign => "Signs"
    case CreateBay => "Bays"
    case CreateLine => "Lines"
    case CreatePolygon => "RestrictionPolygons"
    case CreateConstructionLine => "ConstructionLines"
  }

  /** `doCreateRestriction`: the transaction is rolled back first; outside a
      proposal only construction lines may be drawn, otherwise the tool is
      unchecked.  The result is the transaction and the layer the tool is
      activated on, if any. */
  function DoCreateRestriction(tx: Tx, a: CreateAction, pid: int): (r: (Tx, Option<string>))
    ensures r.0 == Rollback(tx) && !Modified(r.0)
    ensures r.1.None? <==> pid == 0 && a != CreateConstructionLine
    ensures r.1.Some? ==> r.1.value == CreateLayer(a)
  {
    var tx0 := Rollback(tx);
    if pid == 0 && a != CreateConstructionLine then (tx0, None)
    else (tx0, Some(CreateLayer(a)))
  }

  // -------------------------------------------------------------- details

  /** `doRestrictionDetails`: with a selection, the transaction is rolled back when
      no proposal is current (so the dialogs cannot change anything) and one
      dialog is opened per selected feature. */
  function DoRestrictionDetails(tx: Tx, selected: seq<Fid>, pid: int): (r: (Tx, seq<Fid>))
    ensures |selected| == 0 ==> r == (tx, [])
    ensures |selected| > 0 ==> r.1 == selected
    ensures |selected| > 0 && pid == 0 ==> r.0.committed == tx.committed && !Modified(r.0)
    ensures pid != 0 ==> r.0 == tx
  {
    if |selected| == 0 then (tx, [])
    else if pid == 0 then (Rollback(tx), selected)
    else (tx, selected)
  }

  // -------------------------------------------------------- edit and split

  /** What toggling the edit or split tool on leaves: the transaction and whether
      the tool stays checked. */
  datatype Toggle = Toggle(tx: Tx, checked: bool)

  /** The question `doEditRestriction` asks when the group has unsaved changes;
      `keep` is the answer (No discards them). */
  function AskToKeep(tx: Tx, keep: bool): (r: Tx)
    ensures r.committed == tx.committed
    ensures keep || !Modified(tx) ==> r == tx
    ensures !keep ==> !Modified(r)
  {
    if Modified(tx) && !keep then Rollback(tx) else tx
  }

  /** Toggling the edit (`ask`) or split tool on: refused outside a proposal and
      without a selection; the transaction group is (re)started otherwise. */
  function ActivateTool(tx: Tx, ask: bool, keep: bool, pid: int, hasSelection: bool): (r: Toggle)
    ensures r.checked <==> pid > 0 && hasSelection
    ensures r.tx.committed == tx.committed
    ensures r.tx == (if ask then AskToKeep(tx, keep) else tx)
  {
    var tx1 := if ask then AskToKeep(tx, keep) else tx;
    if pid <= 0 || !hasSelection then Toggle(tx1, false) else Toggle(tx1, true)
  }

  /** What toggling the tool off leaves: the transaction, and the exception the
      geometry check raised, if any (then nothing is committed). */
  datatype Deactivation = Deactivation(tx: Tx, raised: Option<CheckError>)

  /** Toggling the edit tool off: after the question, a modified group runs
      `checkEditedGeometries`; when it completes, the group is committed. */
  function FinishEdit(tx: Tx, keep: bool, layerName: string, layers: seq<LayerRow>, buf: Buffer, pid: int,
                      newRid: string, newFid: Fid, baseline: Option<Geometry>, faults: set<Fault>): (r: Deactivation)
    requires CheckInputs(tx, buf, newRid, newFid, baseline)
    ensures r.tx.committed == tx.committed || r.raised.None?
    ensures r.raised.None? ==> !Modified(r.tx)
    ensures r.raised.Some? ==> Modified(tx) && keep && r.tx.committed == tx.committed
    ensures !keep || !Modified(tx) ==> r == Deactivation(Rollback(tx), None)
    ensures keep && Modified(tx) ==>
      match CheckEditedGeometries(tx, layerName, layers, buf, pid, newRid, newFid, baseline, faults)
      case Done(s) => r == Deactivation(Tx(s, s), None)
      case Raised(e, partial) => r == Deactivation(Tx(tx.committed, partial), Some(e))
  {
    var tx1 := AskToKeep(tx, keep);
    if !Modified(tx1) then Deactivation(Commit(tx1), None)
    else
      var step := CheckEditedGeometries(tx1, layerName, layers, buf, pid, newRid, newFid, baseline, faults);
      match step
      case Done(s) => Deactivation(Commit(Tx(tx1.committed, s)), None)
      case Raised(e, partial) => Deactivation(Tx(tx1.committed, partial), Some(e))
  }

  /** Toggling the split tool off: a modified group runs `checkSplitGeometries`;
      when it completes, the group is committed. */
  function FinishSplit(tx: Tx, layerName: string, layers: seq<LayerRow>, buf: Buffer, pid: int,
                       newRid: string, newFid: Fid, baseline: Option<Geometry>, faults: set<Fault>): (r: Deactivation)
    requires CheckInputs(tx, buf, newRid, newFid, baseline)
    ensures r.raised.None? ==> !Modified(r.tx)
    ensures r.raised.Some? ==> Modified(tx) && r.tx.committed == tx.committed
    ensures !Modified(tx) ==> r == Deactivation(tx, None)
    ensures Modified(tx) ==>
      match CheckSplitGeometries(tx, layerName, layers, buf, pid, newRid, newFid, baseline, faults)
      case Done(s) => r == Deactivation(Tx(s, s), None)
      case Raised(e, partial) => r == Deactivation(Tx(tx.committed, partial), Some(e))
  {
    if !Modified(tx) then Deactivation(Commit(tx), None)
    else
      var step := CheckSplitGeometries(tx, layerName, layers, buf, pid, newRid, newFid, baseline, faults);
      match step
      case Done(s) => Deactivation(Commit(Tx(tx.committed, s)), None)
      case Raised(e, partial) => Deactivation(Tx(tx.committed, partial), Some(e))
  }

  /** Editing the geometry of a restriction already in the proposal commits the
      edit as it is: no fork, no new row. */
  lemma FinishEditStagedCommitsAsIs(tx: Tx, layerName: string, layers: seq<LayerRow>, buf: Buffer, pid: int,
                                    newRid: string, newFid: Fid, baseline: Option<Geometry>, faults: set<Fault>)
    requires CheckInputs(tx, buf, newRid, newFid, baseline) && PastGuards(tx, layerName, layers, buf)
    requires Modified(tx)
    requires InProposal(tx.current.ledger, tx.current.features[buf.changed[0]].restrictionId,
                        FirstLayerCode(layers, LayerNamePrefix(layerName)).value, pid)
    ensures FinishEdit(tx, true, layerName, layers, buf, pid, newRid, newFid, baseline, faults)
      == Deactivation(Commit(tx), None)
  {
  }

  /** Switching the edit tool off after editing a restriction that is not in the
      proposal, with every write accepted, the committed geometry known and the
      layer's label layers defined: the fork is committed, so the committed ledger
      gains CLOSE(old) and OPEN(new), the new RestrictionID is in the proposal, and
      the committed layer holds the copy and the original with its committed
      geometry back. */
  lemma FinishEditUnstagedForks(tx: Tx, layerName: string, layers: seq<LayerRow>, buf: Buffer, pid: int,
                                newRid: string, newFid: Fid, baseline: Option<Geometry>)
    requires CheckInputs(tx, buf, newRid, newFid, baseline) && PastGuards(tx, layerName, layers, buf)
    requires Modified(tx) && baseline.Some? && LabelLayerNames(layerName).Some?
    requires !InProposal(tx.current.ledger, tx.current.features[buf.changed[0]].restrictionId,
                         FirstLayerCode(layers, LayerNamePrefix(layerName)).value, pid)
    ensures var r := FinishEdit(tx, true, layerName, layers, buf, pid, newRid, newFid, baseline, {});
      var fid := buf.changed[0];
      var m := tx.current.features[fid];
      var tid := FirstLayerCode(layers, LayerNamePrefix(layerName)).value;
      && r.raised.None? && !Modified(r.tx)
      && r.tx.committed.ledger == tx.current.ledger + [ProposalRow(m.restrictionId, tid, pid, RestrictionAction.Close),
                                                      ProposalRow(newRid, tid, pid, RestrictionAction.Open)]
      && InProposal(r.tx.committed.ledger, newRid, tid, pid)
      && r.tx.committed.features == tx.current.features[newFid := Clone(m, newRid)][fid := m.(geometry := baseline.value)]
  {
    EditUnstaged(tx, layerName, layers, buf, pid, newRid, newFid, baseline, {});
  }

  /** Switching the split tool off after splitting a restriction that is not in the
      proposal (and that no fragment shares its RestrictionID with), with every
      write accepted and the committed geometry known: the split is committed, so
      the committed ledger gains the fragments' OPEN rows followed by CLOSE(old)
      and OPEN(new), and the new RestrictionID is in the proposal. */
  lemma FinishSplitUnstagedForks(tx: Tx, layerName: string, layers: seq<LayerRow>, buf: Buffer, pid: int,
                                 newRid: string, newFid: Fid, baseline: Option<Geometry>)
    requires CheckInputs(tx, buf, newRid, newFid, baseline) && PastGuards(tx, layerName, layers, buf)
    requires Modified(tx) && baseline.Some?
    requires !StagedAfterFragments(tx.current, buf.changed[0], buf.added,
                                   FirstLayerCode(layers, LayerNamePrefix(layerName)).value, pid)
    ensures var r := FinishSplit(tx, layerName, layers, buf, pid, newRid, newFid, baseline, {});
      var m := tx.current.features[buf.changed[0]];
      var tid := FirstLayerCode(layers, LayerNamePrefix(layerName)).value;
      var n := |tx.current.ledger| + |buf.added|;
      && r.raised.None? && !Modified(r.tx)
      && |r.tx.committed.ledger| == n + 2
      && r.tx.committed.ledger[n] == LedgerRow(m.restrictionId, tid, pid, ActionValue(RestrictionAction.Close))
      && r.tx.committed.ledger[n + 1] == LedgerRow(newRid, tid, pid, ActionValue(RestrictionAction.Open))
      && InProposal(r.tx.committed.ledger, newRid, tid, pid)
      && newFid in r.tx.committed.features && r.tx.committed.features[newFid] == SplitCopy(m, newRid)
  {
    var s := tx.current;
    var fid := buf.changed[0];
    var tid := FirstLayerCode(layers, LayerNamePrefix(layerName)).value;
    assert SplitArgs(s, fid, buf.added, newRid, newFid);
    SplitWithoutFaults(s, fid, buf.added, tid, pid, newRid, newFid, baseline);
    SplitUnstagedLedger(s, fid, buf.added, tid, pid, newRid, newFid, baseline, {});
    SplitUnstagedFeatures(s, fid, buf.added, tid, pid, newRid, newFid, baseline, {});
  }
}
