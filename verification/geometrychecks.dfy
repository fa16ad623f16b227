/** `checkSplitGeometries` and `checkEditedGeometries`: what the end of a split or
    of a geometry edit does to the edit buffer and the RestrictionsInProposals
    ledger.  An exception leaves the buffer as far as it got (`Raised`); the
    caller then does not commit, so the database state is untouched. */
module GeometryChecks {
  import opened Wrappers
  import opened Text
  import opened Schema
  import opened Constants
  import opened Ledger
  import opened Store
  import opened LayerConfig

  /** The exceptions the two checks can raise. */
  datatype CheckError =
    | MoreThanOneChanged   // ValueError: more than one feature split / edited
    | NothingChanged       // IndexError: `featList[0]` on an empty list
    | NoLayerRow           // StopIteration: no RestrictionLayers row for the layer
    | AddFailed            // Exception: a layer or ledger `addFeature` returned False
    | NoBaseline           // IndexError: no committed row with the RestrictionID
    | NoLabelLayers        // UnboundLocalError in TOMsLabelLayerNames

  datatype Step = Done(state: State) | Raised(error: CheckError, partial: State)

  /** The edit buffer of the active layer: features whose geometry changed, and
      features added (the split fragments), in the buffer's order. */
  datatype Buffer = Buffer(changed: seq<Fid>, added: seq<Fid>)

  /** What the buffer guarantees about the layer: its ids are features of the
      layer, and a fragment is never also a changed feature. */
  predicate BufferOf(s: State, buf: Buffer)
  {
    && (forall i :: 0 <= i < |buf.changed| ==> buf.changed[i] in s.features)
    && (forall i :: 0 <= i < |buf.added| ==> buf.added[i] in s.features && buf.added[i] !in buf.changed)
  }

  /** The layer name up to its first '.', as the RestrictionLayers filter uses it. */
  function LayerNamePrefix(name: string): (r: string)
    ensures '.' !in r
    ensures r == name || (|r| < |name| && name[..|r| + 1] == r + ".")
  {
    var parts := SplitOn(name, '.');
    if |parts| == 1 then parts[0]
    else
      assert JoinWith(parts, '.') == parts[0] + "." + JoinWith(parts[1..], '.');
      parts[0]
  }

  /** `next(restrictionsLayers.getFeatures(name filter))["code"]`: the code of the
      first row with that name, or None (StopIteration). */
  function FirstLayerCode(rows: seq<LayerRow>, name: string): (r: Option<int>)
    ensures r.None? <==> forall i :: 0 <= i < |rows| ==> rows[i].name != name
    ensures r.Some? ==> exists i :: (0 <= i < |rows| && rows[i].name == name && rows[i].code == r.value &&
      forall j :: 0 <= j < i ==> rows[j].name != name)
  {
    if |rows| == 0 then None
    else if rows[0].name == name then Some(rows[0].code)
    else
      var r := FirstLayerCode(rows[1..], name);
      if r.Some? then
        var i :| 0 <= i < |rows[1..]| && rows[1..][i].name == name && rows[1..][i].code == r.value &&
          forall j :: 0 <= j < i ==> rows[1..][j].name != name;
        assert rows[i + 1].name == name && forall j :: 0 <= j < i + 1 ==> rows[j].name != name by {
          forall j | 0 <= j < i + 1 ensures rows[j].name != name {
            if j > 0 { assert rows[j] == rows[1..][j - 1]; }
          }
        }
        r
      else
        assert forall i :: 0 <= i < |rows| ==> rows[i].name != name by {
          forall i | 0 <= i < |rows| ensures rows[i].name != name {
            if i > 0 { assert rows[i] == rows[1..][i - 1]; }
          }
        }
        r
  }

  /** When every row with a name carries the same code, the first-row lookup of the
      geometry checks and the last-row lookup of `getRestrictionLayerTableID` agree. */
  lemma LayerCodeLookupsAgree(rows: seq<LayerRow>, name: string, code: int)
    requires exists i :: 0 <= i < |rows| && rows[i].name == name
    requires forall i :: 0 <= i < |rows| && rows[i].name == name ==> rows[i].code == code
    ensures FirstLayerCode(rows, name) == Some(code)
    ensures LayerTableId(rows, name) == code
  {
    var k :| 0 <= k < |rows| && rows[k].name == name;
    var i := |rows| - 1;
    while rows[i].name != name
      invariant k <= i < |rows|
      invariant forall j :: i < j < |rows| ==> rows[j].name != name
      decreases i
    {
      i := i - 1;
    }
  }

  /** A fragment with its dates cleared. */
  function Cleared(x: Restriction): Restriction
  {
    x.(openDate := None, closeDate := None)
  }

  /** The fragment loop of `checkSplitGeometries`: each fragment's dates are cleared
      and it gets one OPEN row; a refused row raises. */
  function StageFragments(s: State, frags: seq<Fid>, rids: seq<string>, tid: int, pid: int, faults: set<Fault>): (r: Step)
    requires |rids| == |frags|
    ensures r.Raised? ==> r.error == AddFailed
    decreases |frags|
  {
    if |frags| == 0 then Done(s)
    else
      var s1 := ClearDates(s, frags[0]);
      var added := AddRestrictionToProposal(s1.ledger, rids[0], tid, pid, RestrictionAction.Open, faults);
      if !added.0 then Raised(AddFailed, s1)
      else StageFragments(s1.(ledger := added.1), frags[1..], rids[1..], tid, pid, faults)
  }

  /** The fragment loop completes exactly when no fragment row is refused. */
  lemma {:induction false} StageFragmentsDone(s: State, frags: seq<Fid>, rids: seq<string>, tid: int, pid: int, faults: set<Fault>)
    requires |rids| == |frags|
    ensures StageFragments(s, frags, rids, tid, pid, faults).Done? <==>
      forall i :: 0 <= i < |rids| ==> LedgerAddFails(ProposalRows(rids, tid, pid, RestrictionAction.Open)[i]) !in faults
    decreases |frags|
  {
    if |frags| > 0 {
      var rows := ProposalRows(rids, tid, pid, RestrictionAction.Open);
      var s1 := ClearDates(s, frags[0]);
      StageFragmentsDone(s1.(ledger := s1.ledger + [rows[0]]), frags[1..], rids[1..], tid, pid, faults);
      assert ProposalRows(rids[1..], tid, pid, RestrictionAction.Open) == rows[1..];
      assert forall i :: 0 < i < |rids| ==> rows[i] == rows[1..][i - 1];
    }
  }

  /** A completed fragment loop has appended one OPEN row per fragment, in order. */
  lemma {:induction false} StageFragmentsLedger(s: State, frags: seq<Fid>, rids: seq<string>, tid: int, pid: int, faults: set<Fault>)
    requires |rids| == |frags|
    ensures var r := StageFragments(s, frags, rids, tid, pid, faults);
      r.Done? ==> r.state.ledger == s.ledger + ProposalRows(rids, tid, pid, RestrictionAction.Open)
    decreases |frags|
  {
    if |frags| > 0 {
      var row := ProposalRow(rids[0], tid, pid, RestrictionAction.Open);
      var s2 := ClearDates(s, frags[0]).(ledger := s.ledger + [row]);
      if LedgerAddFails(row) !in faults {
        StageFragmentsStep(s, frags, rids, tid, pid, faults);
        StageFragmentsLedger(s2, frags[1..], rids[1..], tid, pid, faults);
        ProposalRowsCons(rids, tid, pid, RestrictionAction.Open);
        AppendAssoc(s.ledger, [row], ProposalRows(rids[1..], tid, pid, RestrictionAction.Open));
      }
    }
  }

  /** One accepted fragment row: the loop continues on the rest with that row added. */
  lemma StageFragmentsStep(s: State, frags: seq<Fid>, rids: seq<string>, tid: int, pid: int, faults: set<Fault>)
    requires |rids| == |frags| > 0
    requires LedgerAddFails(ProposalRow(rids[0], tid, pid, RestrictionAction.Open)) !in faults
    ensures StageFragments(s, frags, rids, tid, pid, faults) ==
      StageFragments(ClearDates(s, frags[0]).(ledger := s.ledger + [ProposalRow(rids[0], tid, pid, RestrictionAction.Open)]),
                     frags[1..], rids[1..], tid, pid, faults)
  {
    AddAppends(ClearDates(s, frags[0]).ledger, rids[0], tid, pid, RestrictionAction.Open, faults);
  }

  /** A completed fragment loop has cleared the fragments' dates and changed no
      other feature. */
  lemma {:induction false} StageFragmentsFeatures(s: State, frags: seq<Fid>, rids: seq<string>, tid: int, pid: int, faults: set<Fault>)
    requires |rids| == |frags|
    requires forall i :: 0 <= i < |frags| ==> frags[i] in s.features
    ensures var r := StageFragments(s, frags, rids, tid, pid, faults);
      r.Done? ==> (r.state.features.Keys == s.features.Keys &&
        forall f :: f in s.features ==>
          r.state.features[f] == if f in frags then Cleared(s.features[f]) else s.features[f])
    decreases |frags|
  {
    if |frags| > 0 {
      var f := frags[0];
      var rows := ProposalRows(rids, tid, pid, RestrictionAction.Open);
      var s1 := ClearDates(s, f);
      var s2 := s1.(ledger := s1.ledger + [rows[0]]);
      StageFragmentsFeatures(s2, frags[1..], rids[1..], tid, pid, faults);
      var r := StageFragments(s2, frags[1..], rids[1..], tid, pid, faults);
      if r.Done? && LedgerAddFails(rows[0]) !in faults {
        forall g | g in s.features
          ensures r.state.features[g] == if g in frags then Cleared(s.features[g]) else s.features[g]
        {
          assert g in frags <==> g == f || g in frags[1..];
        }
      }
    }
  }

  /** A ledger add that is not refused appends its row. */
  lemma AddAppends(ledger: seq<LedgerRow>, rid: string, tid: int, pid: int, action: RestrictionAction, faults: set<Fault>)
    requires LedgerAddFails(ProposalRow(rid, tid, pid, action)) !in faults
    ensures AddRestrictionToProposal(ledger, rid, tid, pid, action, faults) == (true, ledger + [ProposalRow(rid, tid, pid, action)])
  {
  }

  // ---------------------------------------------------------------- split

  /** The copy a split forks off the split feature: a new RestrictionID, no dates,
      everything else (GeometryID included) kept. */
  function SplitCopy(m: Restriction, newRid: string): (c: Restriction)
    ensures c.restrictionId == newRid && c.openDate.None? && c.closeDate.None?
    ensures c.geometryId == m.geometryId && c.geometry == m.geometry && c.attrs == m.attrs
  {
    m.(restrictionId := newRid, openDate := None, closeDate := None)
  }

  /** The unstaged branch of `checkSplitGeometries`: add the copy, write CLOSE(old)
      and OPEN(new), then give the split feature its committed geometry back. */
  function ForkSplit(s: State, fid: Fid, m: Restriction, newRid: string, newFid: Fid, tid: int, pid: int,
                     baseline: Option<Geometry>, faults: set<Fault>): (r: Step)
    requires fid in s.features && newFid !in s.features
    ensures r.Raised? ==> r.error == AddFailed || r.error == NoBaseline
    ensures r.Raised? && r.error == NoBaseline ==> baseline.None?
    ensures r.Done? <==> && baseline.Some? && FeatureAddFails(newFid) !in faults
                         && LedgerAddFails(ProposalRow(m.restrictionId, tid, pid, RestrictionAction.Close)) !in faults
                         && LedgerAddFails(ProposalRow(newRid, tid, pid, RestrictionAction.Open)) !in faults
    ensures r.Done? ==> (r.state.ledger ==
      s.ledger + [ProposalRow(m.restrictionId, tid, pid, RestrictionAction.Close), ProposalRow(newRid, tid, pid, RestrictionAction.Open)])
    ensures r.Done? ==> (r.state.features ==
      s.features[newFid := SplitCopy(m, newRid)][fid := s.features[fid].(geometry := baseline.value)])
  {
    var added := AddFeature(s, newFid, SplitCopy(m, newRid), faults);
    if !added.0 then Raised(AddFailed, s)
    else
      var s2 := added.1;
      var close := AddRestrictionToProposal(s2.ledger, m.restrictionId, tid, pid, RestrictionAction.Close, faults);
      if !close.0 then Raised(AddFailed, s2)
      else
        var open := AddRestrictionToProposal(close.1, newRid, tid, pid, RestrictionAction.Open, faults);
        if !open.0 then Raised(AddFailed, s2.(ledger := close.1))
        else
          var s3 := s2.(ledger := open.1);
          if baseline.None? then Raised(NoBaseline, s3)
          else
            assert open.1 == s.ledger + [ProposalRow(m.restrictionId, tid, pid, RestrictionAction.Close),
                                         ProposalRow(newRid, tid, pid, RestrictionAction.Open)];
            Done(ChangeGeometry(s3, fid, baseline.value))
  }

  /** Whether the split feature counts as staged: the check runs on the ledger
      after the fragment rows have been written. */
  predicate StagedAfterFragments(s: State, fid: Fid, frags: seq<Fid>, tid: int, pid: int)
    requires fid in s.features && forall i :: 0 <= i < |frags| ==> frags[i] in s.features
  {
    CountMatching(s.ledger + ProposalRows(RidsOf(s, frags), tid, pid, RestrictionAction.Open), s.features[fid].restrictionId, tid, pid) == 1
  }

  /** `checkSplitGeometries` once the layer code is known. */
  function SplitWithCode(s: State, fid: Fid, frags: seq<Fid>, tid: int, pid: int, newRid: string, newFid: Fid,
                         baseline: Option<Geometry>, faults: set<Fault>): (r: Step)
    requires fid in s.features && newFid !in s.features
    requires forall i :: 0 <= i < |frags| ==> frags[i] in s.features && frags[i] != fid
  {
    var m := s.features[fid];
    var staged := StageFragments(s, frags, RidsOf(s, frags), tid, pid, faults);
    if staged.Raised? then staged
    else
      StageFragmentsLedger(s, frags, RidsOf(s, frags), tid, pid, faults);
      StageFragmentsFeatures(s, frags, RidsOf(s, frags), tid, pid, faults);
      var s1 := staged.state;
      if CountMatching(s1.ledger, m.restrictionId, tid, pid) == 1 then Done(s1)
      else ForkSplit(s1, fid, m, newRid, newFid, tid, pid, baseline, faults)
  }

  /** The preconditions the split and edit checks rely on: the buffer describes the
      layer, the new RestrictionID and feature id are fresh, and `baseline` is what
      the database holds for the changed feature's RestrictionID. */
  predicate CheckInputs(tx: Tx, buf: Buffer, newRid: string, newFid: Fid, baseline: Option<Geometry>)
  {
    && BufferOf(tx.current, buf)
    && FreshRid(tx, newRid)
    && newFid !in tx.current.features
    && (|buf.changed| == 1 ==>
          IsCommittedGeometry(tx.committed, tx.current.features[buf.changed[0]].restrictionId, baseline))
  }

  /** `checkSplitGeometries(currentProposal)` on the active layer `layerName`. */
  function CheckSplitGeometries(tx: Tx, layerName: string, layers: seq<LayerRow>, buf: Buffer, pid: int,
                                newRid: string, newFid: Fid, baseline: Option<Geometry>, faults: set<Fault>): (r: Step)
    requires CheckInputs(tx, buf, newRid, newFid, baseline)
    ensures |buf.changed| > 1 ==> r == Raised(MoreThanOneChanged, tx.current)
    ensures |buf.changed| == 0 ==> r == Raised(NothingChanged, tx.current)
    ensures |buf.changed| == 1 && FirstLayerCode(layers, LayerNamePrefix(layerName)).None? ==>
      r == Raised(NoLayerRow, tx.current)
    ensures r.Raised? && r.error == NoBaseline ==>
      forall f :: f in tx.committed.features ==> tx.committed.features[f].restrictionId != tx.current.features[buf.changed[0]].restrictionId
  {
    var s := tx.current;
    if |buf.changed| > 1 then Raised(MoreThanOneChanged, s)
    else if |buf.changed| == 0 then Raised(NothingChanged, s)
    else
      var code := FirstLayerCode(layers, LayerNamePrefix(layerName));
      if code.None? then Raised(NoLayerRow, s)
      else SplitWithCode(s, buf.changed[0], buf.added, code.value, pid, newRid, newFid, baseline, faults)
  }

  /** A check gets past its guards: one changed feature and a RestrictionLayers row. */
  predicate PastGuards(tx: Tx, layerName: string, layers: seq<LayerRow>, buf: Buffer)
  {
    |buf.changed| == 1 && buf.changed[0] in tx.current.features &&
    FirstLayerCode(layers, LayerNamePrefix(layerName)).Some?
  }

  /** What `SplitWithCode` needs: the split feature and fragments are features of
      the layer, the fragments are not the split feature, and the new ids are fresh. */
  predicate SplitArgs(s: State, fid: Fid, frags: seq<Fid>, newRid: string, newFid: Fid)
  {
    && fid in s.features && newFid !in s.features
    && (forall i :: 0 <= i < |frags| ==> frags[i] in s.features && frags[i] != fid)
    && RidUnused(s, newRid)
  }

  /** The fork writes after the existing rows and touches no feature other than
      the split feature and the copy. */
  lemma ForkSplitFrame(s: State, fid: Fid, m: Restriction, newRid: string, newFid: Fid, tid: int, pid: int,
                       baseline: Option<Geometry>, faults: set<Fault>)
    requires fid in s.features && newFid !in s.features
    ensures var r := ForkSplit(s, fid, m, newRid, newFid, tid, pid, baseline, faults);
      r.Done? ==>
        && |r.state.ledger| == |s.ledger| + 2 && r.state.ledger[..|s.ledger|] == s.ledger
        && (forall f :: f in s.features && f != fid ==> f in r.state.features && r.state.features[f] == s.features[f])
  {
    var r := ForkSplit(s, fid, m, newRid, newFid, tid, pid, baseline, faults);
    if r.Done? {
      var pair := [ProposalRow(m.restrictionId, tid, pid, RestrictionAction.Close), ProposalRow(newRid, tid, pid, RestrictionAction.Open)];
      assert (s.ledger + pair)[..|s.ledger|] == s.ledger;
    }
  }

  /** A completed split has written one OPEN row per fragment right after the
      existing rows, cleared the fragments' dates, and touched no feature other
      than the fragments, the split feature and the new copy. */
  lemma SplitFragmentsEffect(s: State, fid: Fid, frags: seq<Fid>, tid: int, pid: int, newRid: string, newFid: Fid,
                             baseline: Option<Geometry>, faults: set<Fault>)
    requires SplitArgs(s, fid, frags, newRid, newFid)
    ensures var r := SplitWithCode(s, fid, frags, tid, pid, newRid, newFid, baseline, faults);
      var n := |s.ledger| + |frags|;
      r.Done? ==>
        && |r.state.ledger| >= n
        && r.state.ledger[..n] == s.ledger + ProposalRows(RidsOf(s, frags), tid, pid, RestrictionAction.Open)
        && (forall i :: 0 <= i < |frags| ==>
              frags[i] in r.state.features && r.state.features[frags[i]] == Cleared(s.features[frags[i]]))
        && (forall f :: f in s.features && f !in frags && f != fid ==>
              f in r.state.features && r.state.features[f] == s.features[f])
  {
    var m := s.features[fid];
    var rids := RidsOf(s, frags);
    StageFragmentsLedger(s, frags, rids, tid, pid, faults);
    StageFragmentsFeatures(s, frags, rids, tid, pid, faults);
    var staged := StageFragments(s, frags, rids, tid, pid, faults);
    var r := SplitWithCode(s, fid, frags, tid, pid, newRid, newFid, baseline, faults);
    if staged.Done? {
      var s1 := staged.state;
      var n := |s.ledger| + |frags|;
      var rows := ProposalRows(rids, tid, pid, RestrictionAction.Open);
      assert s1.ledger[..n] == s.ledger + rows;
      if CountMatching(s1.ledger, m.restrictionId, tid, pid) != 1 {
        ForkSplitFrame(s1, fid, m, newRid, newFid, tid, pid, baseline, faults);
        assert r == ForkSplit(s1, fid, m, newRid, newFid, tid, pid, baseline, faults);
        if r.Done? {
          assert r.state.ledger[..n] == r.state.ledger[..|s1.ledger|][..n];
          forall i | 0 <= i < |frags|
            ensures frags[i] in r.state.features && r.state.features[frags[i]] == Cleared(s.features[frags[i]])
          {
            assert frags[i] in frags;
          }
        }
      } else {
        assert r == Done(s1);
        forall i | 0 <= i < |frags|
          ensures frags[i] in r.state.features && r.state.features[frags[i]] == Cleared(s.features[frags[i]])
        {
          assert frags[i] in frags;
        }
      }
    }
  }

  /** A split of a feature that counts as staged writes only the fragment rows and
      leaves the split feature as it is: no copy and no CLOSE/OPEN pair. */
  lemma SplitStaged(s: State, fid: Fid, frags: seq<Fid>, tid: int, pid: int, newRid: string, newFid: Fid,
                    baseline: Option<Geometry>, faults: set<Fault>)
    requires SplitArgs(s, fid, frags, newRid, newFid)
    requires StagedAfterFragments(s, fid, frags, tid, pid)
    ensures var r := SplitWithCode(s, fid, frags, tid, pid, newRid, newFid, baseline, faults);
      r.Done? ==>
        && |r.state.ledger| == |s.ledger| + |frags|
        && r.state.features.Keys == s.features.Keys
        && r.state.features[fid] == s.features[fid]
  {
    var rids := RidsOf(s, frags);
    StageFragmentsLedger(s, frags, rids, tid, pid, faults);
    StageFragmentsFeatures(s, frags, rids, tid, pid, faults);
  }

  /** The state a split of an unstaged feature forks from: the fragment loop
      completed and the split feature's count stayed other than one. */
  lemma SplitUnstagedFork(s: State, fid: Fid, frags: seq<Fid>, tid: int, pid: int, newRid: string, newFid: Fid,
                          baseline: Option<Geometry>, faults: set<Fault>) returns (s1: State)
    requires SplitArgs(s, fid, frags, newRid, newFid)
    requires !StagedAfterFragments(s, fid, frags, tid, pid)
    requires SplitWithCode(s, fid, frags, tid, pid, newRid, newFid, baseline, faults).Done?
    ensures s1.ledger == s.ledger + ProposalRows(RidsOf(s, frags), tid, pid, RestrictionAction.Open)
    ensures s1.features.Keys == s.features.Keys && fid in s1.features && s1.features[fid] == s.features[fid]
    ensures newFid !in s1.features
    ensures SplitWithCode(s, fid, frags, tid, pid, newRid, newFid, baseline, faults) ==
      ForkSplit(s1, fid, s.features[fid], newRid, newFid, tid, pid, baseline, faults)
  {
    var rids := RidsOf(s, frags);
    StageFragmentsLedger(s, frags, rids, tid, pid, faults);
    StageFragmentsFeatures(s, frags, rids, tid, pid, faults);
    var staged := StageFragments(s, frags, rids, tid, pid, faults);
    s1 := staged.state;
    assert fid !in frags;
  }

  /** A split of an unstaged feature writes CLOSE(old) and OPEN(new) after the
      fragment rows, and the new RestrictionID is then in the proposal. */
  lemma SplitUnstagedLedger(s: State, fid: Fid, frags: seq<Fid>, tid: int, pid: int, newRid: string, newFid: Fid,
                            baseline: Option<Geometry>, faults: set<Fault>)
    requires SplitArgs(s, fid, frags, newRid, newFid)
    requires !StagedAfterFragments(s, fid, frags, tid, pid)
    ensures var r := SplitWithCode(s, fid, frags, tid, pid, newRid, newFid, baseline, faults);
      var n := |s.ledger| + |frags|;
      r.Done? ==>
        && |r.state.ledger| == n + 2
        && r.state.ledger[n] == LedgerRow(s.features[fid].restrictionId, tid, pid, ActionValue(RestrictionAction.Close))
        && r.state.ledger[n + 1] == LedgerRow(newRid, tid, pid, ActionValue(RestrictionAction.Open))
        && InProposal(r.state.ledger, newRid, tid, pid)
  {
    var r := SplitWithCode(s, fid, frags, tid, pid, newRid, newFid, baseline, faults);
    if r.Done? {
      var m := s.features[fid];
      var rids := RidsOf(s, frags);
      var s1 := SplitUnstagedFork(s, fid, frags, tid, pid, newRid, newFid, baseline, faults);
      var pair := [ProposalRow(m.restrictionId, tid, pid, RestrictionAction.Close), ProposalRow(newRid, tid, pid, RestrictionAction.Open)];
      assert r.state.ledger == s1.ledger + pair;
      assert forall i :: 0 <= i < |rids| ==> rids[i] != newRid;
      NewRidUnstaged(s, rids, newRid, tid, pid);
      assert m.restrictionId != newRid;
      ForkPairStages(s1.ledger, m.restrictionId, newRid, tid, pid);
    }
  }

  /** CLOSE(old) then OPEN(new) puts a RestrictionID that had no row into the proposal. */
  lemma ForkPairStages(l: seq<LedgerRow>, oldRid: string, newRid: string, tid: int, pid: int)
    requires oldRid != newRid && CountMatching(l, newRid, tid, pid) == 0
    ensures InProposal(l + [ProposalRow(oldRid, tid, pid, RestrictionAction.Close), ProposalRow(newRid, tid, pid, RestrictionAction.Open)], newRid, tid, pid)
  {
    var pair := [ProposalRow(oldRid, tid, pid, RestrictionAction.Close), ProposalRow(newRid, tid, pid, RestrictionAction.Open)];
    CountConcat(l, pair, newRid, tid, pid);
    assert pair[1..] == [pair[1]] && [pair[1]][1..] == [];
    assert CountMatching([pair[1]], newRid, tid, pid) == 1;
    assert CountMatching(pair, newRid, tid, pid) == 1;
  }

  /** A split of an unstaged feature forks it: the copy gets the fresh RestrictionID,
      no dates, the split geometry and everything else of the feature; the feature
      itself gets the committed geometry back and keeps everything else. */
  lemma SplitUnstagedFeatures(s: State, fid: Fid, frags: seq<Fid>, tid: int, pid: int, newRid: string, newFid: Fid,
                              baseline: Option<Geometry>, faults: set<Fault>)
    requires SplitArgs(s, fid, frags, newRid, newFid)
    requires !StagedAfterFragments(s, fid, frags, tid, pid)
    ensures var r := SplitWithCode(s, fid, frags, tid, pid, newRid, newFid, baseline, faults);
      var m := s.features[fid];
      r.Done? ==>
        && r.state.features.Keys == s.features.Keys + {newFid}
        && r.state.features[newFid] == SplitCopy(m, newRid)
        && Some(r.state.features[fid].geometry) == baseline
        && r.state.features[fid] == m.(geometry := r.state.features[fid].geometry)
  {
    var r := SplitWithCode(s, fid, frags, tid, pid, newRid, newFid, baseline, faults);
    if r.Done? {
      var s1 := SplitUnstagedFork(s, fid, frags, tid, pid, newRid, newFid, baseline, faults);
    }
  }

  /** A fresh RestrictionID matches none of the fragment rows or earlier rows. */
  lemma NewRidUnstaged(s: State, rids: seq<string>, newRid: string, tid: int, pid: int)
    requires RidUnused(s, newRid)
    requires forall i :: 0 <= i < |rids| ==> rids[i] != newRid
    ensures CountMatching(s.ledger + ProposalRows(rids, tid, pid, RestrictionAction.Open), newRid, tid, pid) == 0
  {
    var l := s.ledger + ProposalRows(rids, tid, pid, RestrictionAction.Open);
    CountZeroIffNone(l, newRid, tid, pid);
  }

  /** With no store write refused, a split can only fail for want of a committed
      row to take the geometry from, and only when it has to fork. */
  lemma SplitWithoutFaults(s: State, fid: Fid, frags: seq<Fid>, tid: int, pid: int, newRid: string, newFid: Fid,
                           baseline: Option<Geometry>)
    requires SplitArgs(s, fid, frags, newRid, newFid)
    ensures var r := SplitWithCode(s, fid, frags, tid, pid, newRid, newFid, baseline, {});
      r.Done? || (r.error == NoBaseline && baseline.None? && !StagedAfterFragments(s, fid, frags, tid, pid))
  {
    var rids := RidsOf(s, frags);
    StageFragmentsDone(s, frags, rids, tid, pid, {});
    StageFragmentsLedger(s, frags, rids, tid, pid, {});
    StageFragmentsFeatures(s, frags, rids, tid, pid, {});
    assert fid !in frags;
  }

  /** The staged test runs after the fragment rows are written, so a fragment that
      carries the split feature's RestrictionID makes an unstaged feature look
      staged: the split then forks nothing. */
  lemma SplitFragmentSharesRid(s: State, fid: Fid, g: Fid, tid: int, pid: int, newRid: string, newFid: Fid,
                               baseline: Option<Geometry>, faults: set<Fault>)
    requires SplitArgs(s, fid, [g], newRid, newFid) && g in s.features
    requires s.features[g].restrictionId == s.features[fid].restrictionId
    requires CountMatching(s.ledger, s.features[fid].restrictionId, tid, pid) == 0
    ensures StagedAfterFragments(s, fid, [g], tid, pid)
    ensures var r := SplitWithCode(s, fid, [g], tid, pid, newRid, newFid, baseline, faults);
      r.Done? ==> r.state.features.Keys == s.features.Keys && r.state.features[fid] == s.features[fid]
  {
    var rid := s.features[fid].restrictionId;
    var rows := ProposalRows(RidsOf(s, [g]), tid, pid, RestrictionAction.Open);
    CountConcat(s.ledger, rows, rid, tid, pid);
    assert rows[1..] == [];
    SplitStaged(s, fid, [g], tid, pid, newRid, newFid, baseline, faults);
  }

  // ----------------------------------------------------------------- edit

  /** The unstaged branch of `checkEditedGeometries`: add the copy (which carries the
      edited geometry), give the edited feature its committed geometry back, write
      CLOSE(old) and OPEN(new), then look up the layer's label layers. */
  function ForkEdit(s: State, fid: Fid, newRid: string, newFid: Fid, tid: int, pid: int, layerName: string,
                    baseline: Option<Geometry>, faults: set<Fault>): (r: Step)
    requires fid in s.features && newFid !in s.features
    ensures r.Raised? ==> r.error in {AddFailed, NoBaseline, NoLabelLayers}
    ensures r.Raised? && r.error == NoBaseline ==> baseline.None? && r.partial.ledger == s.ledger
    ensures r.Raised? && r.error == NoLabelLayers ==> LabelLayerNames(layerName).None?
    ensures r.Done? <==> && baseline.Some? && LabelLayerNames(layerName).Some? && FeatureAddFails(newFid) !in faults
                         && LedgerAddFails(ProposalRow(s.features[fid].restrictionId, tid, pid, RestrictionAction.Close)) !in faults
                         && LedgerAddFails(ProposalRow(newRid, tid, pid, RestrictionAction.Open)) !in faults
    ensures r.Done? ==> (r.state.ledger ==
      s.ledger + [ProposalRow(s.features[fid].restrictionId, tid, pid, RestrictionAction.Close), ProposalRow(newRid, tid, pid, RestrictionAction.Open)])
    ensures r.Done? ==> (r.state.features ==
      s.features[newFid := Clone(s.features[fid], newRid)][fid := s.features[fid].(geometry := baseline.value)])
  {
    var m := s.features[fid];
    var added := AddFeature(s, newFid, Clone(m, newRid), faults);
    if !added.0 then Raised(AddFailed, s)
    else
      var s2 := added.1;
      if baseline.None? then Raised(NoBaseline, s2)
      else
        var s3 := ChangeGeometry(s2, fid, baseline.value);
        var close := AddRestrictionToProposal(s3.ledger, m.restrictionId, tid, pid, RestrictionAction.Close, faults);
        if !close.0 then Raised(AddFailed, s3)
        else
          var open := AddRestrictionToProposal(close.1, newRid, tid, pid, RestrictionAction.Open, faults);
          if !open.0 then Raised(AddFailed, s3.(ledger := close.1))
          else
            var s4 := s3.(ledger := open.1);
            assert open.1 == s.ledger + [ProposalRow(m.restrictionId, tid, pid, RestrictionAction.Close),
                                         ProposalRow(newRid, tid, pid, RestrictionAction.Open)];
            if LabelLayerNames(layerName).None? then Raised(NoLabelLayers, s4)
            else Done(s4)
  }

  /** `checkEditedGeometries(currentProposal)` on the active layer `layerName`:
      a feature already in the proposal is left as edited; any other is forked. */
  function CheckEditedGeometries(tx: Tx, layerName: string, layers: seq<LayerRow>, buf: Buffer, pid: int,
                                 newRid: string, newFid: Fid, baseline: Option<Geometry>, faults: set<Fault>): (r: Step)
    requires CheckInputs(tx, buf, newRid, newFid, baseline)
    ensures |buf.changed| > 1 ==> r == Raised(MoreThanOneChanged, tx.current)
    ensures |buf.changed| == 0 ==> r == Raised(NothingChanged, tx.current)
    ensures |buf.changed| == 1 && FirstLayerCode(layers, LayerNamePrefix(layerName)).None? ==>
      r == Raised(NoLayerRow, tx.current)
    ensures (PastGuards(tx, layerName, layers, buf) &&
      InProposal(tx.current.ledger, tx.current.features[buf.changed[0]].restrictionId,
                 FirstLayerCode(layers, LayerNamePrefix(layerName)).value, pid)) ==> r == Done(tx.current)
    ensures r.Raised? && r.error == NoBaseline ==>
      forall f :: f in tx.committed.features ==> tx.committed.features[f].restrictionId != tx.current.features[buf.changed[0]].restrictionId
  {
    var s := tx.current;
    if |buf.changed| > 1 then Raised(MoreThanOneChanged, s)
    else if |buf.changed| == 0 then Raised(NothingChanged, s)
    else
      var fid := buf.changed[0];
      var code := FirstLayerCode(layers, LayerNamePrefix(layerName));
      if code.None? then Raised(NoLayerRow, s)
      else if InProposal(s.ledger, s.features[fid].restrictionId, code.value, pid) then Done(s)
      else ForkEdit(s, fid, newRid, newFid, code.value, pid, layerName, baseline, faults)
  }

  /** An edit of a feature not in the proposal forks it: the copy carries the new
      RestrictionID and the edited geometry and is OPENed, the original is CLOSEd and
      holds its committed geometry again, and no other feature changes. */
  lemma EditUnstaged(tx: Tx, layerName: string, layers: seq<LayerRow>, buf: Buffer, pid: int,
                     newRid: string, newFid: Fid, baseline: Option<Geometry>, faults: set<Fault>)
    requires CheckInputs(tx, buf, newRid, newFid, baseline) && PastGuards(tx, layerName, layers, buf)
    requires !InProposal(tx.current.ledger, tx.current.features[buf.changed[0]].restrictionId,
                         FirstLayerCode(layers, LayerNamePrefix(layerName)).value, pid)
    ensures var r := CheckEditedGeometries(tx, layerName, layers, buf, pid, newRid, newFid, baseline, faults);
      var s := tx.current;
      var fid := buf.changed[0];
      var m := s.features[fid];
      var tid := FirstLayerCode(layers, LayerNamePrefix(layerName)).value;
      r.Done? ==>
        && |r.state.ledger| == |s.ledger| + 2 && r.state.ledger[..|s.ledger|] == s.ledger
        && r.state.ledger[|s.ledger|] == LedgerRow(m.restrictionId, tid, pid, ActionValue(RestrictionAction.Close))
        && r.state.ledger[|s.ledger| + 1] == LedgerRow(newRid, tid, pid, ActionValue(RestrictionAction.Open))
        && InProposal(r.state.ledger, newRid, tid, pid)
        && r.state.features.Keys == s.features.Keys + {newFid}
        && r.state.features[newFid] == Clone(m, newRid)
        && r.state.features[fid] == m.(geometry := r.state.features[fid].geometry)
        && IsCommittedGeometry(tx.committed, m.restrictionId, Some(r.state.features[fid].geometry))
        && (forall f :: f in s.features && f != fid ==> r.state.features[f] == s.features[f])
  {
    var s := tx.current;
    var fid := buf.changed[0];
    var m := s.features[fid];
    var tid := FirstLayerCode(layers, LayerNamePrefix(layerName)).value;
    var r := CheckEditedGeometries(tx, layerName, layers, buf, pid, newRid, newFid, baseline, faults);
    if r.Done? {
      assert r == ForkEdit(s, fid, newRid, newFid, tid, pid, layerName, baseline, faults);
      var pair := [ProposalRow(m.restrictionId, tid, pid, RestrictionAction.Close), ProposalRow(newRid, tid, pid, RestrictionAction.Open)];
      assert (s.ledger + pair)[..|s.ledger|] == s.ledger;
      FreshRidUnstaged(s, newRid, tid, pid);
      assert m.restrictionId != newRid;
      ForkPairStages(s.ledger, m.restrictionId, newRid, tid, pid);
    }
  }

  /** An edit forks a feature at most once per proposal: when the feature had no row
      in the proposal, the CLOSE row the fork writes puts it in, so the next edit of
      the same feature takes the staged path and changes nothing further. */
  lemma EditForksOnce(tx: Tx, layerName: string, layers: seq<LayerRow>, buf: Buffer, pid: int,
                      newRid: string, newFid: Fid, baseline: Option<Geometry>, faults: set<Fault>,
                      newRid2: string, newFid2: Fid, baseline2: Option<Geometry>, faults2: set<Fault>)
    requires CheckInputs(tx, buf, newRid, newFid, baseline) && PastGuards(tx, layerName, layers, buf)
    requires CountMatching(tx.current.ledger, tx.current.features[buf.changed[0]].restrictionId,
                           FirstLayerCode(layers, LayerNamePrefix(layerName)).value, pid) == 0
    requires CheckEditedGeometries(tx, layerName, layers, buf, pid, newRid, newFid, baseline, faults).Done?
    requires var tx2 := Tx(tx.committed, CheckEditedGeometries(tx, layerName, layers, buf, pid, newRid, newFid, baseline, faults).state);
      CheckInputs(tx2, buf, newRid2, newFid2, baseline2)
    ensures var s2 := CheckEditedGeometries(tx, layerName, layers, buf, pid, newRid, newFid, baseline, faults).state;
      CheckEditedGeometries(Tx(tx.committed, s2), layerName, layers, buf, pid, newRid2, newFid2, baseline2, faults2) == Done(s2)
  {
    var s := tx.current;
    var fid := buf.changed[0];
    var m := s.features[fid];
    var tid := FirstLayerCode(layers, LayerNamePrefix(layerName)).value;
    var s2 := CheckEditedGeometries(tx, layerName, layers, buf, pid, newRid, newFid, baseline, faults).state;
    EditUnstaged(tx, layerName, layers, buf, pid, newRid, newFid, baseline, faults);
    var pair := [ProposalRow(m.restrictionId, tid, pid, RestrictionAction.Close), ProposalRow(newRid, tid, pid, RestrictionAction.Open)];
    assert s2.ledger == s.ledger + pair by {
      assert s2.ledger == s2.ledger[..|s.ledger|] + s2.ledger[|s.ledger|..];
      assert s2.ledger[|s.ledger|..] == pair;
    }
    FreshRidUnstaged(s, newRid, tid, pid);
    assert m.restrictionId != newRid;
    CloseOpenPairCounts(s.ledger, m.restrictionId, newRid, tid, pid);
    assert s2.features[fid].restrictionId == m.restrictionId;
  }

  /** After a CLOSE row for `rid` and an OPEN row for another id, a ledger without
      `rid` in the proposal has it exactly once. */
  lemma CloseOpenPairCounts(ledger: seq<LedgerRow>, rid: string, newRid: string, tid: int, pid: int)
    requires CountMatching(ledger, rid, tid, pid) == 0 && rid != newRid
    ensures CountMatching(ledger + [ProposalRow(rid, tid, pid, RestrictionAction.Close),
                                    ProposalRow(newRid, tid, pid, RestrictionAction.Open)], rid, tid, pid) == 1
  {
    var pair := [ProposalRow(rid, tid, pid, RestrictionAction.Close), ProposalRow(newRid, tid, pid, RestrictionAction.Open)];
    CountConcat(ledger, pair, rid, tid, pid);
    assert pair[1..] == [pair[1]] && [pair[1]][1..] == [];
    assert CountMatching([pair[1]], rid, tid, pid) == 0;
  }
}
