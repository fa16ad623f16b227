/** The ledger primitives of utils.py: membership of a restriction in a proposal,
    layer-code resolution, and adding or deleting RestrictionsInProposals rows;
    plus the lookup-description helper and the restriction-layer list. */
module Ledger {
  import opened Wrappers
  import opened Schema
  import opened Constants
  import opened Text

  predicate Matches(row: LedgerRow, rid: string, tid: int, pid: int)
  {
    row.restrictionId == rid && row.tableId == tid && row.proposalId == pid
  }

  /** The number of rows the filter expression
      `RestrictionID = rid and RestrictionTableID = tid and ProposalID = pid` returns. */
  function CountMatching(ledger: seq<LedgerRow>, rid: string, tid: int, pid: int): nat
  {
    if |ledger| == 0 then 0
    else (if Matches(ledger[0], rid, tid, pid) then 1 else 0) + CountMatching(ledger[1..], rid, tid, pid)
  }

  /** Exactly one row of the ledger matches the triple. */
  ghost predicate UniqueMatch(ledger: seq<LedgerRow>, rid: string, tid: int, pid: int)
  {
    exists i :: 0 <= i < |ledger| && Matches(ledger[i], rid, tid, pid) &&
      forall j :: 0 <= j < |ledger| && Matches(ledger[j], rid, tid, pid) ==> j == i
  }

  lemma {:induction false} CountZeroIffNone(ledger: seq<LedgerRow>, rid: string, tid: int, pid: int)
    ensures CountMatching(ledger, rid, tid, pid) == 0 <==>
      forall i :: 0 <= i < |ledger| ==> !Matches(ledger[i], rid, tid, pid)
    decreases |ledger|
  {
    if |ledger| > 0 {
      CountZeroIffNone(ledger[1..], rid, tid, pid);
      assert forall i :: 1 <= i < |ledger| ==> ledger[i] == ledger[1..][i - 1];
    }
  }

  lemma {:induction false} CountOneIffUnique(ledger: seq<LedgerRow>, rid: string, tid: int, pid: int)
    ensures CountMatching(ledger, rid, tid, pid) == 1 <==> UniqueMatch(ledger, rid, tid, pid)
    decreases |ledger|
  {
    if |ledger| == 0 {
      return;
    }
    var t := ledger[1..];
    assert forall i :: 1 <= i < |ledger| ==> ledger[i] == t[i - 1];
    CountOneIffUnique(t, rid, tid, pid);
    CountZeroIffNone(t, rid, tid, pid);
    if Matches(ledger[0], rid, tid, pid) {
      if CountMatching(ledger, rid, tid, pid) == 1 {
        assert forall j :: 0 <= j < |ledger| && Matches(ledger[j], rid, tid, pid) ==> j == 0 by {
          forall j | 0 <= j < |ledger| && Matches(ledger[j], rid, tid, pid) ensures j == 0 {
            if j > 0 { assert false; }
          }
        }
        assert UniqueMatch(ledger, rid, tid, pid);
      }
      if UniqueMatch(ledger, rid, tid, pid) {
        var i :| 0 <= i < |ledger| && Matches(ledger[i], rid, tid, pid) &&
          forall j :: 0 <= j < |ledger| && Matches(ledger[j], rid, tid, pid) ==> j == i;
        assert i == 0;
        forall k | 0 <= k < |t| ensures !Matches(t[k], rid, tid, pid) {
          assert ledger[k + 1] == t[k];
        }
      }
    } else {
      if CountMatching(ledger, rid, tid, pid) == 1 {
        var i :| 0 <= i < |t| && Matches(t[i], rid, tid, pid) &&
          forall j :: 0 <= j < |t| && Matches(t[j], rid, tid, pid) ==> j == i;
        assert Matches(ledger[i + 1], rid, tid, pid);
        forall j | 0 <= j < |ledger| && Matches(ledger[j], rid, tid, pid) ensures j == i + 1 {
          assert j != 0;
          assert Matches(t[j - 1], rid, tid, pid);
        }
      }
      if UniqueMatch(ledger, rid, tid, pid) {
        var i :| 0 <= i < |ledger| && Matches(ledger[i], rid, tid, pid) &&
          forall j :: 0 <= j < |ledger| && Matches(ledger[j], rid, tid, pid) ==> j == i;
        assert i > 0;
        assert Matches(t[i - 1], rid, tid, pid);
        forall j | 0 <= j < |t| && Matches(t[j], rid, tid, pid) ensures j == i - 1 {
          assert Matches(ledger[j + 1], rid, tid, pid);
        }
      }
    }
  }

  lemma {:induction false} CountConcat(a: seq<LedgerRow>, b: seq<LedgerRow>, rid: string, tid: int, pid: int)
    ensures CountMatching(a + b, rid, tid, pid) == CountMatching(a, rid, tid, pid) + CountMatching(b, rid, tid, pid)
    decreases |a|
  {
    if |a| > 0 {
      assert (a + b)[1..] == a[1..] + b;
      CountConcat(a[1..], b, rid, tid, pid);
    } else {
      assert a + b == b;
    }
  }

  /** `restrictionInProposal`: true only when the filter returns exactly one row,
      so a duplicated row makes a staged restriction look unstaged. */
  function InProposal(ledger: seq<LedgerRow>, rid: string, tid: int, pid: int): (r: bool)
    ensures r <==> UniqueMatch(ledger, rid, tid, pid)
  {
    CountOneIffUnique(ledger, rid, tid, pid);
    CountMatching(ledger, rid, tid, pid) == 1
  }

  /** The index of the first matching row, or -1. */
  function FirstMatch(ledger: seq<LedgerRow>, rid: string, tid: int, pid: int): (k: int)
    ensures -1 <= k < |ledger|
    ensures k >= 0 ==> Matches(ledger[k], rid, tid, pid)
    ensures k >= 0 ==> forall j :: 0 <= j < k ==> !Matches(ledger[j], rid, tid, pid)
    ensures k == -1 ==> forall j :: 0 <= j < |ledger| ==> !Matches(ledger[j], rid, tid, pid)
  {
    if |ledger| == 0 then -1
    else if Matches(ledger[0], rid, tid, pid) then 0
    else
      var k := FirstMatch(ledger[1..], rid, tid, pid);
      if k < 0 then -1 else k + 1
  }

  /** `deleteRestrictionInProposal`: deletes the one matching row when there is exactly
      one, and returns the provider's answer; with no match or several it returns false. */
  function DeleteRestrictionInProposal(ledger: seq<LedgerRow>, rid: string, tid: int, pid: int, faults: set<Fault>)
    : (r: (bool, seq<LedgerRow>))
    ensures !r.0 ==> r.1 == ledger
    ensures r.0 ==> exists i :: (0 <= i < |ledger| && Matches(ledger[i], rid, tid, pid) &&
      r.1 == ledger[..i] + ledger[i + 1..])
    ensures r.0 ==> CountMatching(r.1, rid, tid, pid) == 0
    ensures !InProposal(ledger, rid, tid, pid) ==> !r.0
    ensures faults == {} ==> (r.0 <==> InProposal(ledger, rid, tid, pid))
  {
    if CountMatching(ledger, rid, tid, pid) == 1 then
      var i := FirstMatch(ledger, rid, tid, pid);
      assert i >= 0 by { CountZeroIffNone(ledger, rid, tid, pid); }
      if LedgerDeleteFails(ledger[i]) in faults then (false, ledger)
      else
        var rest := ledger[..i] + ledger[i + 1..];
        assert ledger == ledger[..i] + ([ledger[i]] + ledger[i + 1..]);
        CountConcat(ledger[..i], [ledger[i]] + ledger[i + 1..], rid, tid, pid);
        CountConcat([ledger[i]], ledger[i + 1..], rid, tid, pid);
        CountConcat(ledger[..i], ledger[i + 1..], rid, tid, pid);
        (true, rest)
    else (false, ledger)
  }

  /** The ledger row `addRestrictionToProposal` builds. */
  function ProposalRow(rid: string, tid: int, pid: int, action: RestrictionAction): LedgerRow
  {
    LedgerRow(rid, tid, pid, ActionValue(action))
  }

  /** The rows a run of `addRestrictionToProposal` calls appends: one per
      RestrictionID, in order, all for the same table, proposal and action. */
  function ProposalRows(rids: seq<string>, tid: int, pid: int, action: RestrictionAction): (rows: seq<LedgerRow>)
    ensures |rows| == |rids|
    ensures forall i :: 0 <= i < |rids| ==> rows[i] == ProposalRow(rids[i], tid, pid, action)
  {
    seq(|rids|, i requires 0 <= i < |rids| => ProposalRow(rids[i], tid, pid, action))
  }

  /** The rows of a non-empty id list: the first one's row, then the rest's. */
  lemma ProposalRowsCons(rids: seq<string>, tid: int, pid: int, action: RestrictionAction)
    requires |rids| > 0
    ensures ProposalRows(rids, tid, pid, action) ==
      [ProposalRow(rids[0], tid, pid, action)] + ProposalRows(rids[1..], tid, pid, action)
  {
  }

  /** The rows of two id lists, one after the other. */
  lemma ProposalRowsConcat(a: seq<string>, b: seq<string>, tid: int, pid: int, action: RestrictionAction)
    ensures ProposalRows(a + b, tid, pid, action) == ProposalRows(a, tid, pid, action) + ProposalRows(b, tid, pid, action)
  {
    var l := ProposalRows(a + b, tid, pid, action);
    var r := ProposalRows(a, tid, pid, action) + ProposalRows(b, tid, pid, action);
    forall i | 0 <= i < |l|
      ensures l[i] == r[i]
    {
      if i < |a| {
        assert (a + b)[i] == a[i];
      } else {
        assert (a + b)[i] == b[i - |a|];
      }
    }
  }

  /** `addRestrictionToProposal`: appends one row carrying the ids and the action's
      numeric value, and returns the provider's answer. */
  function AddRestrictionToProposal(ledger: seq<LedgerRow>, rid: string, tid: int, pid: int,
                                    action: RestrictionAction, faults: set<Fault>)
    : (r: (bool, seq<LedgerRow>))
    ensures r.0 <==> LedgerAddFails(ProposalRow(rid, tid, pid, action)) !in faults
    ensures r.0 ==> |r.1| == |ledger| + 1 && r.1[..|ledger|] == ledger
    ensures r.0 ==> r.1[|ledger|] == LedgerRow(rid, tid, pid, ActionValue(action))
    ensures !r.0 ==> r.1 == ledger
    ensures r.0 ==> CountMatching(r.1, rid, tid, pid) == CountMatching(ledger, rid, tid, pid) + 1
  {
    var row := ProposalRow(rid, tid, pid, action);
    if LedgerAddFails(row) in faults then (false, ledger)
    else
      CountConcat(ledger, [row], rid, tid, pid);
      (true, ledger + [row])
  }

  /** Adding a row for an unstaged triple stages it, and deleting it again
      gives back the original ledger. */
  lemma AddThenDelete(ledger: seq<LedgerRow>, rid: string, tid: int, pid: int, action: RestrictionAction)
    requires CountMatching(ledger, rid, tid, pid) == 0
    ensures InProposal(AddRestrictionToProposal(ledger, rid, tid, pid, action, {}).1, rid, tid, pid)
    ensures DeleteRestrictionInProposal(AddRestrictionToProposal(ledger, rid, tid, pid, action, {}).1, rid, tid, pid, {})
      == (true, ledger)
  {
    var l := AddRestrictionToProposal(ledger, rid, tid, pid, action, {}).1;
    assert l == ledger + [ProposalRow(rid, tid, pid, action)];
    CountZeroIffNone(ledger, rid, tid, pid);
    var i := FirstMatch(l, rid, tid, pid);
    assert i == |ledger| by {
      assert Matches(l[|ledger|], rid, tid, pid);
      assert forall j :: 0 <= j < |ledger| ==> l[j] == ledger[j];
    }
    assert l[..i] + l[i + 1..] == ledger;
  }

  /** A second row for an already staged triple makes `restrictionInProposal` false. */
  lemma DuplicateRowUnstages(ledger: seq<LedgerRow>, rid: string, tid: int, pid: int, action: RestrictionAction)
    requires InProposal(ledger, rid, tid, pid)
    ensures !InProposal(AddRestrictionToProposal(ledger, rid, tid, pid, action, {}).1, rid, tid, pid)
  {
  }

  /** The loop of `getRestrictionLayerTableID`: `acc` is the code found so far. */
  function ScanLayerCode(rows: seq<LayerRow>, name: string, acc: int): (code: int)
    ensures (forall i :: 0 <= i < |rows| ==> rows[i].name != name) ==> code == acc
    ensures forall i :: (0 <= i < |rows| && rows[i].name == name &&
      (forall j :: i < j < |rows| ==> rows[j].name != name)) ==> code == rows[i].code
  {
    if |rows| == 0 then acc
    else
      var r := ScanLayerCode(rows[1..], name, if rows[0].name == name then rows[0].code else acc);
      assert forall i :: 1 <= i < |rows| ==> rows[i] == rows[1..][i - 1];
      r
  }

  /** `getRestrictionLayerTableID`: the Code of the LAST RestrictionLayers row named
      like the layer, or 0 when none is. */
  function LayerTableId(rows: seq<LayerRow>, name: string): (code: int)
    ensures (forall i :: 0 <= i < |rows| ==> rows[i].name != name) ==> code == 0
    ensures forall i :: (0 <= i < |rows| && rows[i].name == name &&
      (forall j :: i < j < |rows| ==> rows[j].name != name)) ==> code == rows[i].code
  {
    ScanLayerCode(rows, name, 0)
  }

  /** The integer a code stands for in the filter `"Code" = <str(code)>`: an
      integer is itself, and a string reads as a decimal literal when it is one. */
  function CodeNumber(code: Value): (r: Option<int>)
    ensures code.IntV? ==> r == Some(code.i)
    ensures code.StrV? ==> r == ParseDecimal(code.s)
    ensures code.Null? ==> r.None?
  {
    match code
    case IntV(i) => Some(i)
    case StrV(s) => ParseDecimal(s)
    case Null => None
  }

  /** `getLookupDescription`: None for a falsy code, otherwise the Description of the
      first row whose Code the filter selects, else None. */
  function LookupDescription(rows: seq<LookupRow>, code: Value): (r: Option<string>)
    ensures !Truthy(code) ==> r.None?
    ensures r.Some? ==> CodeNumber(code).Some? && exists i :: (0 <= i < |rows| &&
      rows[i].code == CodeNumber(code).value && rows[i].description == r.value &&
      forall j :: 0 <= j < i ==> rows[j].code != CodeNumber(code).value)
    ensures (Truthy(code) && CodeNumber(code).Some? &&
      exists i :: 0 <= i < |rows| && rows[i].code == CodeNumber(code).value) ==> r.Some?
  {
    if !Truthy(code) then None
    else
      var n := CodeNumber(code);
      if n.None? then None else FirstDescription(rows, n.value)
  }

  /** A code given as the text `str(n)` selects the same row as the integer `n`
      itself; the text "0" is truthy and so looks up Code 0. */
  lemma LookupByNumeral(rows: seq<LookupRow>, n: int)
    ensures LookupDescription(rows, StrV(DecimalText(n))) == FirstDescription(rows, n)
    ensures n != 0 ==> LookupDescription(rows, IntV(n)) == LookupDescription(rows, StrV(DecimalText(n)))
  {
    DecimalRoundTrip(n);
  }

  function FirstDescription(rows: seq<LookupRow>, c: int): (r: Option<string>)
    ensures r.Some? ==> exists i :: (0 <= i < |rows| && rows[i].code == c &&
      rows[i].description == r.value && forall j :: 0 <= j < i ==> rows[j].code != c)
    ensures r.None? ==> forall i :: 0 <= i < |rows| ==> rows[i].code != c
  {
    if |rows| == 0 then None
    else if rows[0].code == c then Some(rows[0].description)
    else
      var r := FirstDescription(rows[1..], c);
      assert forall i :: 1 <= i < |rows| ==> rows[i] == rows[1..][i - 1];
      if r.Some? then
        assert exists i :: (0 <= i < |rows| - 1 && rows[1..][i].code == c &&
          rows[1..][i].description == r.value && forall j :: 0 <= j < i ==> rows[1..][j].code != c);
        var i :| 0 <= i < |rows| - 1 && rows[1..][i].code == c &&
          rows[1..][i].description == r.value && forall j :: 0 <= j < i ==> rows[1..][j].code != c;
        assert rows[i + 1].code == c && rows[i + 1].description == r.value;
        assert forall j :: 0 <= j < i + 1 ==> rows[j].code != c by {
          forall j | 0 <= j < i + 1 ensures rows[j].code != c {
            if j > 0 { assert rows[j] == rows[1..][j - 1]; }
          }
        }
        r
      else r
  }

  /** The label layers `getRestrictionLayersList` appends after the table rows. */
  const LabelLayerEntries: seq<(int, string)> := [
    (2, "Bays.label_pos"), (3, "Lines.label_pos"), (3, "Lines.label_loading_pos"),
    (4, "RestrictionPolygons.label_pos"), (6, "CPZs.label_pos"), (7, "ParkingTariffAreas.label_pos"),
    (2, "Bays.label_ldr"), (3, "Lines.label_ldr"), (3, "Lines.label_loading_ldr"),
    (4, "RestrictionPolygons.label_ldr"), (6, "CPZs.label_ldr"), (7, "ParkingTariffAreas.label_ldr")]

  /** `getRestrictionLayersList`: the RestrictionLayers rows in order, then the twelve
      label layers. */
  function RestrictionLayersList(rows: seq<LayerRow>): (r: seq<(int, string)>)
    ensures |r| == |rows| + 12
    ensures forall i :: 0 <= i < |rows| ==> r[i] == (rows[i].code, rows[i].name)
    ensures r[|rows|..] == LabelLayerEntries
  {
    seq(|rows|, i requires 0 <= i < |rows| => (rows[i].code, rows[i].name)) + LabelLayerEntries
  }

  /** Every label entry carries the code of a RestrictionLayers member that has
      label layers (Signs, 5, has none). */
  lemma LabelEntriesUseLayerCodes()
    ensures forall i :: 0 <= i < |LabelLayerEntries| ==>
      LayerOf(LabelLayerEntries[i].0) in {Some(Bays), Some(Lines), Some(RestrictionPolygons), Some(Cpzs), Some(Ptas)}
  {
  }
}
