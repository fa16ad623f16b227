/** The layer store and the transaction group around it.  A `State` is one
    restriction layer plus the RestrictionsInProposals ledger; a `Tx` pairs the
    committed database state with the edit buffer a gesture works on. */
module Store {
  import opened Wrappers
  import opened Schema
  import opened Ledger

  datatype State = State(features: map<Fid, Restriction>, ledger: seq<LedgerRow>)

  /** The transaction group: `committed` is what the database holds (and what a
      fresh provider connection reads back), `current` is the edit buffer. */
  datatype Tx = Tx(committed: State, current: State)

  /** `currTransactionGroup.modified()`. */
  predicate Modified(tx: Tx)
  {
    tx.current != tx.committed
  }

  /** `commitTransactionGroup`: the buffer becomes the database state. */
  function Commit(tx: Tx): (r: Tx)
    ensures !Modified(r) && r.current == tx.current
  {
    Tx(tx.current, tx.current)
  }

  /** `rollBackTransactionGroup`: the buffer is discarded. */
  function Rollback(tx: Tx): (r: Tx)
    ensures !Modified(r) && r.committed == tx.committed
  {
    Tx(tx.committed, tx.committed)
  }

  /** Commit right after a rollback commits nothing, and rolling back a committed
      group changes nothing. */
  lemma CommitAfterRollback(tx: Tx)
    ensures Commit(Rollback(tx)) == Rollback(tx)
    ensures Rollback(Commit(tx)) == Commit(tx)
    ensures !Modified(tx) ==> Commit(tx) == tx && Rollback(tx) == tx
  {
  }

  /** `layer.addFeature(f)` with the id the provider assigns. */
  function AddFeature(s: State, fid: Fid, f: Restriction, faults: set<Fault>): (r: (bool, State))
    requires fid !in s.features
    ensures r.0 <==> FeatureAddFails(fid) !in faults
    ensures r.0 ==> r.1 == State(s.features[fid := f], s.ledger)
    ensures !r.0 ==> r.1 == s
  {
    if FeatureAddFails(fid) in faults then (false, s)
    else (true, s.(features := s.features[fid := f]))
  }

  /** `layer.updateFeature(f)`: fails for an id the layer does not hold. */
  function UpdateFeature(s: State, fid: Fid, f: Restriction, faults: set<Fault>): (r: (bool, State))
    ensures r.0 <==> fid in s.features && FeatureUpdateFails(fid) !in faults
    ensures r.0 ==> r.1 == State(s.features[fid := f], s.ledger)
    ensures !r.0 ==> r.1 == s
  {
    if fid !in s.features || FeatureUpdateFails(fid) in faults then (false, s)
    else (true, s.(features := s.features[fid := f]))
  }

  /** `layer.deleteFeature(fid)`. */
  function DeleteFeature(s: State, fid: Fid, faults: set<Fault>): (r: (bool, State))
    ensures r.0 <==> fid in s.features && FeatureDeleteFails(fid) !in faults
    ensures r.0 ==> r.1 == State(s.features - {fid}, s.ledger)
    ensures !r.0 ==> r.1 == s
  {
    if fid !in s.features || FeatureDeleteFails(fid) in faults then (false, s)
    else (true, s.(features := s.features - {fid}))
  }

  /** `layer.changeGeometry(fid, g)`; the engine ignores its result. */
  function ChangeGeometry(s: State, fid: Fid, g: Geometry): (r: State)
    ensures r.ledger == s.ledger && r.features.Keys == s.features.Keys
    ensures fid in s.features ==> r.features[fid] == s.features[fid].(geometry := g)
    ensures forall f :: f in s.features && f != fid ==> r.features[f] == s.features[f]
  {
    if fid in s.features then s.(features := s.features[fid := s.features[fid].(geometry := g)])
    else s
  }

  /** The RestrictionIDs of the given features, in the given order (the fragments
      of a split, the selection of a remove). */
  function RidsOf(s: State, fids: seq<Fid>): (rids: seq<string>)
    requires forall i :: 0 <= i < |fids| ==> fids[i] in s.features
    ensures |rids| == |fids| && forall i :: 0 <= i < |fids| ==> rids[i] == s.features[fids[i]].restrictionId
  {
    seq(|fids|, i requires 0 <= i < |fids| => s.features[fids[i]].restrictionId)
  }

  /** The copy that replaces a restriction created before the proposal, made by
      both the edit tool and the form's OK: the same values under a new
      RestrictionID, with no OpenDate and no GeometryID; the CloseDate is kept. */
  function Clone(m: Restriction, newRid: string): (c: Restriction)
    ensures c.restrictionId == newRid && c.openDate.None? && c.geometryId.None?
    ensures c.closeDate == m.closeDate && c.geometry == m.geometry && c.attrs == m.attrs
  {
    m.(restrictionId := newRid, openDate := None, geometryId := None)
  }

  /** `layer.changeAttributeValues(fid, {OpenDate: None, CloseDate: None})`. */
  function ClearDates(s: State, fid: Fid): (r: State)
    ensures r.ledger == s.ledger && r.features.Keys == s.features.Keys
    ensures fid in s.features ==> r.features[fid] == s.features[fid].(openDate := None, closeDate := None)
    ensures forall f :: f in s.features && f != fid ==> r.features[f] == s.features[f]
  {
    if fid in s.features then s.(features := s.features[fid := s.features[fid].(openDate := None, closeDate := None)])
    else s
  }

  /** No feature and no ledger row of `s` carries `rid`. */
  predicate RidUnused(s: State, rid: string)
  {
    && (forall f :: f in s.features ==> s.features[f].restrictionId != rid)
    && (forall i :: 0 <= i < |s.ledger| ==> s.ledger[i].restrictionId != rid)
  }

  /** The fresh-id oracle's promise: a new RestrictionID (a uuid4) collides with nothing
      in the buffer or the database. */
  predicate FreshRid(tx: Tx, rid: string)
  {
    RidUnused(tx.current, rid) && RidUnused(tx.committed, rid)
  }

  /** A fresh RestrictionID has no ledger row under any layer code or proposal. */
  lemma FreshRidUnstaged(s: State, rid: string, tid: int, pid: int)
    requires RidUnused(s, rid)
    ensures CountMatching(s.ledger, rid, tid, pid) == 0
  {
    CountZeroIffNone(s.ledger, rid, tid, pid);
  }

  /** `baseline` is what `list(unmodifiedLayer.getFeatures(RestrictionID = rid))[0].geometry()`
      reads from the database: some committed row's geometry, or None when no
      committed row carries `rid` (the source then raises IndexError). */
  predicate IsCommittedGeometry(s: State, rid: string, baseline: Option<Geometry>)
  {
    && (baseline.Some? ==>
          (exists f :: f in s.features && s.features[f].restrictionId == rid && s.features[f].geometry == baseline.value))
    && (baseline.None? ==> forall f :: f in s.features ==> s.features[f].restrictionId != rid)
  }
}
