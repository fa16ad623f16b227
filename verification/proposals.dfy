/** `ProposalsPanel`: the proposal list, the proposal form's OK handling, and
    pushing mapping updates and masks into the current proposal. */
module ProposalsPanel {
  import opened Wrappers
  import opened Text
  import opened Schema
  import opened Constants
  import opened Ledger
  import opened Store

  // -------------------------------------------------------- proposal list

  /** A proposal as the list and `getProposal` see it. */
  datatype Proposal = Proposal(id: int, title: string)

  /** The placeholder entry at the top of the list. */
  const NoProposalEntry := Proposal(0, "0 - No proposal shown")

  predicate SortedByTitle(ps: seq<Proposal>)
  {
    forall i, j :: 0 <= i < j < |ps| ==> LessEq(ps[i].title, ps[j].title)
  }

  /** Inserting into a title-sorted list, after every entry whose title is
      strictly smaller and before the first whose title is equal or greater. */
  function InsertByTitle(p: Proposal, ps: seq<Proposal>): (r: seq<Proposal>)
    requires SortedByTitle(ps)
    ensures SortedByTitle(r)
    ensures multiset(r) == multiset(ps) + multiset{p}
    ensures |r| == |ps| + 1
  {
    if |ps| == 0 then [p]
    else if Before(ps[0].title, p.title) then
      var rest := InsertByTitle(p, ps[1..]);
      assert ps == [ps[0]] + ps[1..];
      HeadBelowInsertion(p, ps, rest);
      [ps[0]] + rest
    else
      InsertionBelowAll(p, ps);
      [p] + ps
  }

  /** An entry sorting before `p` and before the rest of a sorted list sorts before
      everything the rest becomes with `p` inserted. */
  lemma HeadBelowInsertion(p: Proposal, ps: seq<Proposal>, rest: seq<Proposal>)
    requires SortedByTitle(ps) && |ps| > 0 && LessEq(ps[0].title, p.title)
    requires multiset(rest) == multiset(ps[1..]) + multiset{p}
    ensures forall k :: 0 <= k < |rest| ==> LessEq(ps[0].title, rest[k].title)
  {
    forall k | 0 <= k < |rest| ensures LessEq(ps[0].title, rest[k].title) {
      assert rest[k] in multiset(rest);
      if rest[k] != p {
        assert rest[k] in multiset(ps[1..]);
        var j :| 0 <= j < |ps[1..]| && ps[1..][j] == rest[k];
        assert ps[j + 1] == rest[k];
      }
    }
  }

  /** A proposal not sorting after the head of a sorted list sorts before all of it. */
  lemma InsertionBelowAll(p: Proposal, ps: seq<Proposal>)
    requires SortedByTitle(ps) && |ps| > 0 && !Before(ps[0].title, p.title)
    ensures forall k :: 0 <= k < |ps| ==> LessEq(p.title, ps[k].title)
  {
    LessEqTotal(ps[0].title, p.title);
    forall k | 0 <= k < |ps| ensures LessEq(p.title, ps[k].title) {
      if k > 0 { LessEqTransitive(p.title, ps[0].title, ps[k].title); }
    }
  }

  /** Title `a` sorts strictly before title `b`. */
  predicate Before(a: string, b: string)
  {
    LessEq(a, b) && a != b
  }

  /** `sorted(..., key=lambda f: f[1])`: the proposals ordered by title. */
  function SortByTitle(ps: seq<Proposal>): (r: seq<Proposal>)
    ensures SortedByTitle(r)
    ensures multiset(r) == multiset(ps)
    ensures |r| == |ps|
  {
    if |ps| == 0 then []
    else
      assert ps == [ps[0]] + ps[1..];
      InsertByTitle(ps[0], SortByTitle(ps[1..]))
  }

  /** The proposals titled `t`, in their order in `ps`. */
  function WithTitle(ps: seq<Proposal>, t: string): (r: seq<Proposal>)
    ensures forall k :: 0 <= k < |r| ==> r[k].title == t && r[k] in ps
  {
    if |ps| == 0 then []
    else (if ps[0].title == t then [ps[0]] else []) + WithTitle(ps[1..], t)
  }

  /** Inserting `p` puts it ahead of every proposal with the same title. */
  lemma {:induction false} InsertByTitleStable(p: Proposal, ps: seq<Proposal>, t: string)
    requires SortedByTitle(ps)
    ensures WithTitle(InsertByTitle(p, ps), t) == (if p.title == t then [p] else []) + WithTitle(ps, t)
    decreases |ps|
  {
    var hp := if p.title == t then [p] else [];
    if |ps| > 0 && Before(ps[0].title, p.title) {
      var rest := InsertByTitle(p, ps[1..]);
      var h0 := if ps[0].title == t then [ps[0]] else [];
      InsertByTitleStable(p, ps[1..], t);
      assert ([ps[0]] + rest)[0] == ps[0] && ([ps[0]] + rest)[1..] == rest;
      assert WithTitle([ps[0]] + rest, t) == h0 + (hp + WithTitle(ps[1..], t));
      assert h0 == [] || hp == [];
      AppendAssoc(h0, hp, WithTitle(ps[1..], t));
      AppendAssoc(hp, h0, WithTitle(ps[1..], t));
    } else {
      assert ([p] + ps)[0] == p && ([p] + ps)[1..] == ps;
    }
  }

  /** Sorting is stable, as Python's `sorted` is: the proposals sharing a title keep
      their relative order. */
  lemma {:induction false} SortByTitleStable(ps: seq<Proposal>, t: string)
    ensures WithTitle(SortByTitle(ps), t) == WithTitle(ps, t)
    decreases |ps|
  {
    if |ps| > 0 {
      SortByTitleStable(ps[1..], t);
      InsertByTitleStable(ps[0], SortByTitle(ps[1..]), t);
    }
  }

  /** Two proposals with the same title, listed first and second. */
  lemma EqualTitlesKeepOrder()
    ensures SortByTitle([Proposal(1, "a"), Proposal(2, "a")]) == [Proposal(1, "a"), Proposal(2, "a")]
  {
    var ps := [Proposal(1, "a"), Proposal(2, "a")];
    assert ps[1..] == [Proposal(2, "a")];
    assert SortByTitle(ps[1..]) == [Proposal(2, "a")];
    assert !Before("a", "a");
  }

  /** `createProposalcb`: the placeholder, then the proposals in preparation sorted
      by title.  `inPreparation` is what the proposals manager returns for the
      IN_PREPARATION status. */
  function ProposalList(inPreparation: seq<Proposal>): (r: seq<Proposal>)
    ensures |r| == |inPreparation| + 1 && r[0] == NoProposalEntry
    ensures SortedByTitle(r[1..])
    ensures multiset(r[1..]) == multiset(inPreparation)
    ensures forall t :: WithTitle(r[1..], t) == WithTitle(inPreparation, t)
  {
    var sorted := SortByTitle(inPreparation);
    assert ([NoProposalEntry] + sorted)[1..] == sorted;
    assert forall t :: WithTitle(sorted, t) == WithTitle(inPreparation, t) by {
      forall t ensures WithTitle(sorted, t) == WithTitle(inPreparation, t) {
        SortByTitleStable(inPreparation, t);
      }
    }
    [NoProposalEntry] + sorted
  }

  /** `onNewProposalCreated`: the index of the first list entry with the id, if any. */
  function IndexOfProposal(list: seq<Proposal>, id: int): (r: Option<nat>)
    ensures r.Some? ==> (r.value < |list| && list[r.value].id == id &&
      forall k :: 0 <= k < r.value ==> list[k].id != id)
    ensures r.None? ==> forall k :: 0 <= k < |list| ==> list[k].id != id
  {
    if |list| == 0 then None
    else if list[0].id == id then Some(0)
    else
      var r := IndexOfProposal(list[1..], id);
      assert forall k :: 1 <= k < |list| ==> list[k] == list[1..][k - 1];
      if r.None? then None else Some(r.value + 1)
  }

  /** A proposal in preparation, once created, can be selected in the rebuilt list,
      and never as the placeholder. */
  lemma NewProposalSelectable(inPreparation: seq<Proposal>, p: Proposal)
    requires p in inPreparation && p.id != 0
    ensures var list := ProposalList(inPreparation);
      var k := IndexOfProposal(list, p.id);
      k.Some? && k.value >= 1 && list[k.value].id == p.id
  {
    var list := ProposalList(inPreparation);
    assert p in multiset(list[1..]);
    var j :| 0 <= j < |list[1..]| && list[1..][j] == p;
    assert list[j + 1] == p;
  }

  /** `getProposal`: the first proposal with the id, or None. */
  function GetProposal(proposals: seq<Proposal>, id: int): (r: Option<Proposal>)
    ensures r.Some? ==> exists k :: (0 <= k < |proposals| && proposals[k] == r.value && r.value.id == id &&
      forall j :: 0 <= j < k ==> proposals[j].id != id)
    ensures r.None? <==> forall k :: 0 <= k < |proposals| ==> proposals[k].id != id
  {
    var k := IndexOfProposal(proposals, id);
    if k.None? then None else Some(proposals[k.value])
  }

  // ---------------------------------------------------------- form saving

  /** The OK button of the proposal form: enabled for users who can confirm
      orders, and otherwise only while the chosen status is neither ACCEPTED nor
      REJECTED. */
  function OkEnabled(perms: Permissions, statusId: Value): (r: bool)
    ensures r <==> (perms.confirmOrders ||
      (statusId != IntV(StatusValue(Accepted)) && statusId != IntV(StatusValue(Rejected))))
  {
    perms.confirmOrders || (statusId != IntV(2) && statusId != IntV(3))
  }

  /** Users without CONFIRM_ORDERS cannot accept or reject a proposal through the
      form. */
  lemma OkNeedsConfirm(e: string)
    requires e == WriteNoConfirmOperator || e == ReadOnlyOperator || e == Guest
    ensures Initialize(Some(e)).Success?
    ensures !OkEnabled(Initialize(Some(e)).value, IntV(2)) && !OkEnabled(Initialize(Some(e)).value, IntV(3))
  {
  }

  /** What follows the commit of the proposal form. */
  datatype Follow =
    | NoFollow                 // the accept/reject failed: rolled back, nothing else
    | ResetCurrent             // accepted or rejected: list rebuilt, current proposal 0
    | ProposalCreated(id: int) // `newProposalCreated` emitted with the id
    | TitleNotFound            // a new proposal whose title is not in the table (UnboundLocalError)

  datatype SaveOutcome = SaveOutcome(tx: Tx, follow: Follow)

  /** The proposal resolver and the form's save are not part of this model; they
      are given as what they do to the group: `accept(s)` and `reject(s)` are the
      answer of `acceptProposal` / `rejectProposal` and the state each leaves,
      `save(s)` the state after the form is saved. */
  datatype Handlers = Handlers(accept: State -> (bool, State), reject: State -> (bool, State), save: State -> State)

  /** The proposal's id among the proposals with that title: the loop keeps the
      last match. */
  function LastWithTitle(proposals: seq<Proposal>, title: string): (r: Option<int>)
    ensures r.None? <==> forall k :: 0 <= k < |proposals| ==> proposals[k].title != title
    ensures r.Some? ==> exists k :: (0 <= k < |proposals| && proposals[k].title == title && proposals[k].id == r.value &&
      forall j :: k < j < |proposals| ==> proposals[j].title != title)
  {
    if |proposals| == 0 then None
    else
      var last := proposals[|proposals| - 1];
      if last.title == title then Some(last.id)
      else
        var r := LastWithTitle(proposals[..|proposals| - 1], title);
        assert forall k :: 0 <= k < |proposals| - 1 ==> proposals[k] == proposals[..|proposals| - 1][k];
        r
  }

  /** `onSaveProposalFormDetails`.  `storedStatus` is the status the proposal object
      holds, `newStatus` the one in the form's record; `yes` the answer to the
      confirmation question; `proposalNr` is 0 for a new proposal; `proposalsAfter`
      is the proposals table read after the commit, for the title lookup. */
  function SaveProposalForm(tx: Tx, h: Handlers, storedStatus: int, newStatus: Value, yes: bool,
                            proposalNr: int, title: string, proposalsAfter: seq<Proposal>): (r: SaveOutcome)
    ensures r.follow == NoFollow ==> r.tx == Rollback(tx)
    ensures r.follow != NoFollow ==> !Modified(r.tx)
    ensures r.follow == ResetCurrent ==> yes && (newStatus == IntV(StatusValue(Accepted)) || storedStatus == StatusValue(Rejected))
    ensures newStatus == IntV(StatusValue(Accepted)) && yes ==>
      (r.follow == NoFollow <==> !h.accept(tx.current).0) &&
      (h.accept(tx.current).0 ==> r.tx.committed == h.save(h.accept(tx.current).1) && r.follow == ResetCurrent)
    ensures newStatus != IntV(StatusValue(Accepted)) && storedStatus == StatusValue(Rejected) && yes ==>
      (r.follow == NoFollow <==> !h.reject(tx.current).0) &&
      (h.reject(tx.current).0 ==> r.tx.committed == h.save(h.reject(tx.current).1) && r.follow == ResetCurrent)
    ensures (newStatus == IntV(StatusValue(Accepted)) || storedStatus == StatusValue(Rejected)) && !yes ==>
      r.tx.committed == tx.current && r.follow == ProposalCreated(proposalNr)
    ensures newStatus != IntV(StatusValue(Accepted)) && storedStatus != StatusValue(Rejected) ==>
      && r.tx.committed == h.save(tx.current)
      && (proposalNr != 0 ==> r.follow == ProposalCreated(proposalNr))
      && (proposalNr == 0 ==>
            && (r.follow == TitleNotFound <==> forall k :: 0 <= k < |proposalsAfter| ==> proposalsAfter[k].title != title)
            && (r.follow.ProposalCreated? ==> exists k :: (0 <= k < |proposalsAfter| && proposalsAfter[k].title == title &&
                  proposalsAfter[k].id == r.follow.id && forall j :: k < j < |proposalsAfter| ==> proposalsAfter[j].title != title)))
  {
    if newStatus == IntV(StatusValue(Accepted)) || storedStatus == StatusValue(Rejected) then
      if !yes then SaveOutcome(Commit(tx), ProposalCreated(proposalNr))
      else
        var resolved := if newStatus == IntV(StatusValue(Accepted)) then h.accept(tx.current) else h.reject(tx.current);
        if !resolved.0 then SaveOutcome(Rollback(Tx(tx.committed, resolved.1)), NoFollow)
        else SaveOutcome(Commit(Tx(tx.committed, h.save(resolved.1))), ResetCurrent)
    else
      var tx1 := Commit(Tx(tx.committed, h.save(tx.current)));
      if proposalNr != 0 then SaveOutcome(tx1, ProposalCreated(proposalNr))
      else
        var found := LastWithTitle(proposalsAfter, title);
        if found.None? then SaveOutcome(tx1, TitleNotFound)
        else SaveOutcome(tx1, ProposalCreated(found.value))
  }

  /** The REJECTED branch looks at the stored status, not the form's: a proposal
      whose form is set to REJECTED but which is stored as in preparation is
      saved like any other edit, with no question and no resolver. */
  lemma RejectUsesStoredStatus(tx: Tx, h: Handlers, yes: bool, proposalNr: int, title: string,
                               proposalsAfter: seq<Proposal>)
    requires proposalNr != 0
    ensures var r := SaveProposalForm(tx, h, StatusValue(InPreparation), IntV(StatusValue(Rejected)), yes, proposalNr, title, proposalsAfter);
      r.tx.committed == h.save(tx.current) && r.follow == ProposalCreated(proposalNr)
  {
  }
  // ------------------------------------------------------ mapping updates

  /** A feature of MappingUpdates or MappingUpdateMasks. */
  datatype MappingFeature = MappingFeature(proposalId: int, restrictionId: Option<string>, geometryId: string)

  /** The table ids the push writes for the two layers. */
  const MappingUpdatesCode := 101
  const MappingUpdateMasksCode := 102

  /** A feature the push picks up: in the proposal and without a RestrictionID. */
  predicate Pending(f: MappingFeature, pid: int)
  {
    f.proposalId == pid && f.restrictionId.None?
  }

  /** The GeometryIDs of the pending features, in layer order. */
  function PendingIds(fs: seq<MappingFeature>, pid: int): (ids: seq<string>)
    ensures |ids| <= |fs|
  {
    if |fs| == 0 then []
    else (if Pending(fs[0], pid) then [fs[0].geometryId] else []) + PendingIds(fs[1..], pid)
  }

  /** What the push leaves for a pending feature: its GeometryID copied into the
      RestrictionID. */
  function Pushed(f: MappingFeature, pid: int): MappingFeature
  {
    if Pending(f, pid) then f.(restrictionId := Some(f.geometryId)) else f
  }

  /** The outcome of the loop over one layer: whether every write was accepted, the
      layer's features afterwards, the ledger afterwards and the count. */
  datatype LayerPush = LayerPush(ok: bool, features: seq<MappingFeature>, ledger: seq<LedgerRow>, count: nat)

  /** The loop over one layer: each pending feature gets RestrictionID := GeometryID
      (`updateFeature`) and one OPEN row; the first refused write stops it, and
      then the layer and the ledger are handed back unchanged (the caller rolls
      back and drops the layer's edit buffer). */
  function PushLayer(fs: seq<MappingFeature>, code: int, pid: int, ledger: seq<LedgerRow>, faults: set<Fault>): (r: LayerPush)
    ensures |r.features| == |fs|
    ensures !r.ok ==> r.features == fs && r.ledger == ledger
    ensures r.ok ==> forall i :: 0 <= i < |fs| ==> r.features[i] == Pushed(fs[i], pid)
    ensures r.ok ==> r.ledger == ledger + ProposalRows(PendingIds(fs, pid), code, pid, RestrictionAction.Open) && r.count == |PendingIds(fs, pid)|
    ensures r.ok <==> forall i :: 0 <= i < |fs| && Pending(fs[i], pid) ==>
      MappingUpdateFails(code, fs[i].geometryId) !in faults &&
      LedgerAddFails(ProposalRow(fs[i].geometryId, code, pid, RestrictionAction.Open)) !in faults
    decreases |fs|
  {
    if |fs| == 0 then LayerPush(true, [], ledger, 0)
    else
      var f := fs[0];
      assert forall i :: 1 <= i < |fs| ==> fs[i] == fs[1..][i - 1];
      if !Pending(f, pid) then
        var rest := PushLayer(fs[1..], code, pid, ledger, faults);
        if !rest.ok then LayerPush(false, fs, ledger, 0)
        else
          assert PendingIds(fs, pid) == PendingIds(fs[1..], pid);
          PushedCons(fs, pid, rest.features);
          LayerPush(true, [f] + rest.features, rest.ledger, rest.count)
      else if MappingUpdateFails(code, f.geometryId) in faults then LayerPush(false, fs, ledger, 0)
      else
        var added := AddRestrictionToProposal(ledger, f.geometryId, code, pid, RestrictionAction.Open, faults);
        if !added.0 then LayerPush(false, fs, ledger, 0)
        else
          var rest := PushLayer(fs[1..], code, pid, added.1, faults);
          if !rest.ok then LayerPush(false, fs, ledger, 0)
          else
            var row := ProposalRow(f.geometryId, code, pid, RestrictionAction.Open);
            assert added.1 == ledger + [row];
            OpenRowsOfPending(fs, code, pid, ledger, rest.ledger);
            PushedCons(fs, pid, rest.features);
            LayerPush(true, [Pushed(f, pid)] + rest.features, rest.ledger, rest.count + 1)
  }

  /** The first feature as pushed, then the rest as pushed, is the layer as pushed. */
  lemma PushedCons(fs: seq<MappingFeature>, pid: int, rest: seq<MappingFeature>)
    requires |fs| > 0 && |rest| == |fs| - 1
    requires forall i :: 0 <= i < |rest| ==> rest[i] == Pushed(fs[1..][i], pid)
    ensures forall i :: 0 <= i < |fs| ==> ([Pushed(fs[0], pid)] + rest)[i] == Pushed(fs[i], pid)
  {
    forall i | 0 < i < |fs| ensures ([Pushed(fs[0], pid)] + rest)[i] == Pushed(fs[i], pid) {
      assert fs[1..][i - 1] == fs[i];
    }
  }

  /** The OPEN rows for a layer: after the first feature's row, if it is pending,
      come the rest's. */
  lemma OpenRowsOfPending(fs: seq<MappingFeature>, code: int, pid: int, ledger: seq<LedgerRow>, after: seq<LedgerRow>)
    requires |fs| > 0 && Pending(fs[0], pid)
    requires after == ledger + [ProposalRow(fs[0].geometryId, code, pid, RestrictionAction.Open)]
                      + ProposalRows(PendingIds(fs[1..], pid), code, pid, RestrictionAction.Open)
    ensures after == ledger + ProposalRows(PendingIds(fs, pid), code, pid, RestrictionAction.Open)
    ensures |PendingIds(fs, pid)| == |PendingIds(fs[1..], pid)| + 1
  {
    var g := fs[0].geometryId;
    var rest := ProposalRows(PendingIds(fs[1..], pid), code, pid, RestrictionAction.Open);
    assert PendingIds(fs, pid) == [g] + PendingIds(fs[1..], pid);
    ProposalRowsConcat([g], PendingIds(fs[1..], pid), code, pid, RestrictionAction.Open);
    assert ProposalRows([g], code, pid, RestrictionAction.Open) == [ProposalRow(g, code, pid, RestrictionAction.Open)];
    AppendAssoc(ledger, [ProposalRow(g, code, pid, RestrictionAction.Open)], rest);
  }

  /** The push's effect: the ledger group, both mapping layers as committed in the
      database, and the counts reported (None when the push stopped). */
  datatype PushOutcome = PushOutcome(tx: Tx, updates: seq<MappingFeature>, masks: seq<MappingFeature>, counts: Option<(nat, nat)>)

  /** `makeMappingUpdatesInProposal` as written: each mapping layer is its own
      connection, outside the transaction group, and is committed with
      `commitChanges` after its loop; the group (the ledger) is committed at the
      end.  A failure in the masks loop rolls back the group, but the updates
      layer has already been committed. */
  function PushMappingUpdatesAsWritten(tx: Tx, updates: seq<MappingFeature>, masks: seq<MappingFeature>, pid: int,
                                       faults: set<Fault>): (r: PushOutcome)
    ensures pid == 0 ==> r == PushOutcome(tx, updates, masks, None)
    ensures r.counts.None? && pid != 0 ==> r.tx == Rollback(tx) && r.masks == masks
    ensures pid != 0 && !PushLayer(updates, MappingUpdatesCode, pid, tx.current.ledger, faults).ok ==>
      r == PushOutcome(Rollback(tx), updates, masks, None)
    ensures pid != 0 && PushLayer(updates, MappingUpdatesCode, pid, tx.current.ledger, faults).ok ==>
      |r.updates| == |updates| && forall i :: 0 <= i < |updates| ==> r.updates[i] == Pushed(updates[i], pid)
    ensures r.counts.Some? <==> (pid != 0 && PushLayer(updates, MappingUpdatesCode, pid, tx.current.ledger, faults).ok &&
      PushLayer(masks, MappingUpdateMasksCode, pid,
                PushLayer(updates, MappingUpdatesCode, pid, tx.current.ledger, faults).ledger, faults).ok)
  {
    if pid == 0 then PushOutcome(tx, updates, masks, None)
    else
      var first := PushLayer(updates, MappingUpdatesCode, pid, tx.current.ledger, faults);
      if !first.ok then PushOutcome(Rollback(tx), updates, masks, None)
      else
        var second := PushLayer(masks, MappingUpdateMasksCode, pid, first.ledger, faults);
        if !second.ok then PushOutcome(Rollback(tx), first.features, masks, None)
        else PushOutcome(Commit(Tx(tx.committed, tx.current.(ledger := second.ledger))), first.features, second.features,
                         Some((first.count, second.count)))
  }

  /** The push with both layers committed only when both loops completed, so that it
      is all or nothing. */
  function PushMappingUpdates(tx: Tx, updates: seq<MappingFeature>, masks: seq<MappingFeature>, pid: int,
                              faults: set<Fault>): (r: PushOutcome)
    ensures pid == 0 ==> r == PushOutcome(tx, updates, masks, None)
    ensures r.counts.None? && pid != 0 ==> r == PushOutcome(Rollback(tx), updates, masks, None)
    ensures r.counts.Some? ==>
      && !Modified(r.tx)
      && r.tx.committed.features == tx.current.features
      && r.tx.committed.ledger == tx.current.ledger + ProposalRows(PendingIds(updates, pid), MappingUpdatesCode, pid, RestrictionAction.Open)
                                                    + ProposalRows(PendingIds(masks, pid), MappingUpdateMasksCode, pid, RestrictionAction.Open)
      && |r.updates| == |updates| && |r.masks| == |masks|
      && (forall i :: 0 <= i < |updates| ==> r.updates[i] == Pushed(updates[i], pid))
      && (forall i :: 0 <= i < |masks| ==> r.masks[i] == Pushed(masks[i], pid))
      && r.counts.value == (|PendingIds(updates, pid)|, |PendingIds(masks, pid)|)
    ensures pid != 0 && faults == {} ==> r.counts.Some?
  {
    if pid == 0 then PushOutcome(tx, updates, masks, None)
    else
      var first := PushLayer(updates, MappingUpdatesCode, pid, tx.current.ledger, faults);
      var second := PushLayer(masks, MappingUpdateMasksCode, pid, first.ledger, faults);
      if !first.ok || !second.ok then PushOutcome(Rollback(tx), updates, masks, None)
      else PushOutcome(Commit(Tx(tx.committed, tx.current.(ledger := second.ledger))), first.features, second.features,
                       Some((first.count, second.count)))
  }

  /** Every mapping feature of the proposal that carries a RestrictionID has a row
      for it in the proposal: a pushed feature is never left out of the proposal. */
  predicate PushConsistent(fs: seq<MappingFeature>, code: int, pid: int, ledger: seq<LedgerRow>)
  {
    forall i :: 0 <= i < |fs| && fs[i].proposalId == pid && fs[i].restrictionId.Some? ==>
      CountMatching(ledger, fs[i].restrictionId.value, code, pid) > 0
  }

  /** Rows appended to the ledger keep every feature that had a row covered. */
  lemma ConsistentAfterAppend(fs: seq<MappingFeature>, code: int, pid: int, ledger: seq<LedgerRow>, more: seq<LedgerRow>)
    requires PushConsistent(fs, code, pid, ledger)
    ensures PushConsistent(fs, code, pid, ledger + more)
  {
    forall i | 0 <= i < |fs| && fs[i].proposalId == pid && fs[i].restrictionId.Some?
      ensures CountMatching(ledger + more, fs[i].restrictionId.value, code, pid) > 0
    {
      CountConcat(ledger, more, fs[i].restrictionId.value, code, pid);
    }
  }

  /** The GeometryID of a pending feature is among the pushed ids. */
  lemma {:induction false} PendingIdListed(fs: seq<MappingFeature>, pid: int, i: int)
    requires 0 <= i < |fs| && Pending(fs[i], pid)
    ensures fs[i].geometryId in PendingIds(fs, pid)
    decreases |fs|
  {
    if i > 0 {
      assert fs[i] == fs[1..][i - 1];
      PendingIdListed(fs[1..], pid, i - 1);
    }
  }

  /** An OPEN row list holds a row for each of its ids. */
  lemma OpenRowsCover(ids: seq<string>, code: int, pid: int, id: string, prefix: seq<LedgerRow>)
    requires id in ids
    ensures CountMatching(prefix + ProposalRows(ids, code, pid, RestrictionAction.Open), id, code, pid) > 0
  {
    var k :| 0 <= k < |ids| && ids[k] == id;
    var l := prefix + ProposalRows(ids, code, pid, RestrictionAction.Open);
    assert l[|prefix| + k] == ProposalRow(id, code, pid, RestrictionAction.Open);
    CountZeroIffNone(l, id, code, pid);
  }

  /** One pushed layer stays consistent with the ledger the push leaves. */
  lemma PushLayerConsistent(fs: seq<MappingFeature>, code: int, pid: int, ledger: seq<LedgerRow>, after: seq<LedgerRow>)
    requires PushConsistent(fs, code, pid, ledger)
    ensures PushConsistent(seq(|fs|, i requires 0 <= i < |fs| => Pushed(fs[i], pid)), code, pid,
                           ledger + ProposalRows(PendingIds(fs, pid), code, pid, RestrictionAction.Open) + after)
  {
    var pushed := seq(|fs|, i requires 0 <= i < |fs| => Pushed(fs[i], pid));
    var l := ledger + ProposalRows(PendingIds(fs, pid), code, pid, RestrictionAction.Open) + after;
    forall i | 0 <= i < |pushed| && pushed[i].proposalId == pid && pushed[i].restrictionId.Some?
      ensures CountMatching(l, pushed[i].restrictionId.value, code, pid) > 0
    {
      var id := pushed[i].restrictionId.value;
      CountConcat(ledger + ProposalRows(PendingIds(fs, pid), code, pid, RestrictionAction.Open), after, id, code, pid);
      if Pending(fs[i], pid) {
        PendingIdListed(fs, pid, i);
        OpenRowsCover(PendingIds(fs, pid), code, pid, id, ledger);
      } else {
        CountConcat(ledger, ProposalRows(PendingIds(fs, pid), code, pid, RestrictionAction.Open), id, code, pid);
      }
    }
  }

  /** The corrected push keeps both layers consistent with the committed ledger. */
  lemma PushKeepsConsistent(tx: Tx, updates: seq<MappingFeature>, masks: seq<MappingFeature>, pid: int, faults: set<Fault>)
    requires pid != 0 && !Modified(tx)
    requires PushConsistent(updates, MappingUpdatesCode, pid, tx.committed.ledger)
    requires PushConsistent(masks, MappingUpdateMasksCode, pid, tx.committed.ledger)
    ensures var r := PushMappingUpdates(tx, updates, masks, pid, faults);
      PushConsistent(r.updates, MappingUpdatesCode, pid, r.tx.committed.ledger) &&
      PushConsistent(r.masks, MappingUpdateMasksCode, pid, r.tx.committed.ledger)
  {
    var r := PushMappingUpdates(tx, updates, masks, pid, faults);
    if r.counts.Some? {
      var l0 := tx.current.ledger;
      var a := ProposalRows(PendingIds(updates, pid), MappingUpdatesCode, pid, RestrictionAction.Open);
      var b := ProposalRows(PendingIds(masks, pid), MappingUpdateMasksCode, pid, RestrictionAction.Open);
      PushLayerConsistent(updates, MappingUpdatesCode, pid, l0, b);
      assert r.updates == seq(|updates|, i requires 0 <= i < |updates| => Pushed(updates[i], pid));
      ConsistentAfterAppend(masks, MappingUpdateMasksCode, pid, l0, a);
      PushLayerConsistent(masks, MappingUpdateMasksCode, pid, l0 + a, []);
      assert r.masks == seq(|masks|, i requires 0 <= i < |masks| => Pushed(masks[i], pid));
      assert l0 + a + b + [] == l0 + a + b;
    }
  }

  /** The two pushes differ only when the updates loop completed and the masks loop
      did not: then the as-written push has committed the pushed updates layer. */
  lemma AsWrittenDiffersOnlyOnMasks(tx: Tx, updates: seq<MappingFeature>, masks: seq<MappingFeature>, pid: int,
                                    faults: set<Fault>)
    ensures var a := PushMappingUpdatesAsWritten(tx, updates, masks, pid, faults);
      var c := PushMappingUpdates(tx, updates, masks, pid, faults);
      && a.tx == c.tx && a.masks == c.masks && a.counts == c.counts
      && (a.updates != c.updates ==>
            pid != 0 && PushLayer(updates, MappingUpdatesCode, pid, tx.current.ledger, faults).ok && a.counts.None?)
  {
  }

  /** After a completed push, nothing in the layer is pending any more: pushing
      again adds no rows. */
  lemma {:induction false} PushedNothingPending(fs: seq<MappingFeature>, pid: int)
    ensures PendingIds(seq(|fs|, i requires 0 <= i < |fs| => Pushed(fs[i], pid)), pid) == []
    decreases |fs|
  {
    if |fs| > 0 {
      var pushed := seq(|fs|, i requires 0 <= i < |fs| => Pushed(fs[i], pid));
      PushedNothingPending(fs[1..], pid);
      assert pushed[1..] == seq(|fs[1..]|, i requires 0 <= i < |fs[1..]| => Pushed(fs[1..][i], pid));
    }
  }

  /** The push as written, with the masks' ledger row refused: the update has been
      given its RestrictionID and committed, but its OPEN row was rolled back, so
      it is in no proposal, and a second push no longer picks it up. */
  lemma PushAsWrittenStrandsUpdates()
    ensures var tx := Tx(State(map[], []), State(map[], []));
      var updates := [MappingFeature(1, None, "M1")];
      var masks := [MappingFeature(1, None, "K1")];
      var faults := {LedgerAddFails(ProposalRow("K1", MappingUpdateMasksCode, 1, RestrictionAction.Open))};
      var r := PushMappingUpdatesAsWritten(tx, updates, masks, 1, faults);
      && PushConsistent(updates, MappingUpdatesCode, 1, tx.committed.ledger)
      && r.counts.None?
      && r.updates == [MappingFeature(1, Some("M1"), "M1")]
      && !PushConsistent(r.updates, MappingUpdatesCode, 1, r.tx.committed.ledger)
      && PendingIds(r.updates, 1) == []
  {
    var updates := [MappingFeature(1, None, "M1")];
    var masks := [MappingFeature(1, None, "K1")];
    var faults := {LedgerAddFails(ProposalRow("K1", MappingUpdateMasksCode, 1, RestrictionAction.Open))};
    var bad := ProposalRow("K1", MappingUpdateMasksCode, 1, RestrictionAction.Open);
    assert ProposalRow("M1", MappingUpdatesCode, 1, RestrictionAction.Open) != bad;
    assert Pending(masks[0], 1);
  }
}
