# TOMs proposal ledger — a Dafny model

TOMs (Traffic Orders Management System) is a QGIS plugin. In TOMs, parking and
waiting restrictions are never changed in place in the baseline. Every change
belongs to a *proposal*, and a change is staged by adding rows to the
`RestrictionsInProposals` ledger. A row is `(RestrictionID, RestrictionTableID,
ProposalID, action)`, where the action is OPEN (1) for a restriction the proposal
introduces and CLOSE (2) for one it retires.

Each tool decides whether to change the feature it was given or to *fork* it:

- A restriction that is already staged in the current proposal is changed in place.
- A new restriction gets a fresh id and one OPEN row.
- An existing, opened restriction is kept as it was. The proposal gets CLOSE for
  the old id, a clone with a fresh id, and OPEN for the clone.

This project models that engine and the smaller pieces around it. It then proves
the post-conditions each entry point promises: which ledger rows appear, what is
forked, and what stays untouched.

Modules (one per source file or concern):

| module | file | models |
|---|---|---|
| `Wrappers` | wrappers.dfy | `Option`, `Result` |
| `Text` | text.dfy | Python's `str.find`/`rfind`, slicing with clamped indices, `split`/`join`, string order |
| `Constants` | constants.dfy | `UserPermission.initialize`/`prettyPrint`, the enum codes, `isBay`, `singleton` |
| `Schema` | schema.dfy | restriction features, ledger rows, layer and lookup rows, the fault oracle |
| `Ledger` | ledger.dfy | the three ledger primitives and the lookups in `utils.py` |
| `Store` | store.dfy | the layer store: a committed snapshot and the current edit state, with commit and rollback |
| `PosixPath` | paths.dfy | `os.path.basename`, `join`, `normpath` and `abspath` on '/'-separated paths |
| `LayerConfig` | layerconfig.dfy | `TOMsLabelLayerNames`, `TOMsConfigFile`, `TOMsLayers` and `TOMsParams` |
| `GeometryChecks` | geometrychecks.dfy | `checkSplitGeometries` and `checkEditedGeometries` |
| `MapTools` | maptools.dfy | menu titles and id extraction, the feature list, capture arity, default attributes, creation |
| `ManageRestrictions` | manage.dfy | the toolbar actions: remove, create, details, edit and split activation and deactivation |
| `RestrictionDialog` | dialog.dfy | the restriction form's `accept` and `reject`, the electric-vehicle PTA rule |
| `ProposalsPanel` | proposals.dfy | the proposal list, the OK-button rule, saving the proposal form, pushing mapping updates |
| `Deploy` | deploy.dfy | the AppStream deploy script: user elevation, deploy stage, copy destinations |

How the model represents the running system:

- **Layer store.** The layer store is a `map<Fid, Restriction>` and the ledger is a
  `seq<LedgerRow>`. Together they form a `State`.
- **Edit transaction.** A `Tx` holds the committed snapshot and the current
  state. `Commit` makes the current state the committed one; `Rollback` does the
  reverse.
- **Failing writes.** A feature or ledger write that QGIS refuses is named in a
  `faults: set<Fault>` parameter. Each write checks that set.
- **Fresh ids.** A fresh UUID is a parameter. A precondition says it is not
  already used (`Store.RidUnused`, `Store.FreshRid`).
- **Committed geometry.** The geometry read back from the unmodified layer is a
  parameter. It is tied to the committed snapshot by a precondition.
- **Exceptions.** An exception raised inside the geometry checks becomes
  `Raised(error, partial)`. The caller then does not commit.

## Model

| member | source | states |
|---|---|---|
| Ledger.CountOneIffUnique | TOMsPlugin/utils.py:23-36 | exactly one matching row is the same as a unique matching index |
| Ledger.InProposal | TOMsPlugin/utils.py:14-43 | a restriction is in the proposal iff exactly one ledger row matches (RestrictionID, table id, ProposalID); two duplicates make it false |
| Ledger.DuplicateRowUnstages | TOMsPlugin/utils.py:23-36 | adding a second row for a staged restriction makes it look unstaged |
| Ledger.DeleteRestrictionInProposal | TOMsPlugin/utils.py:71-96 | on success, exactly one matching row is removed and every other row keeps its order; with zero or several matches, or a failed delete, the ledger is unchanged and the result is false |
| Ledger.AddRestrictionToProposal | TOMsPlugin/utils.py:194-214 | the result is the add result; on success exactly one row `(id, table, proposal, action value)` is appended; on failure nothing changes |
| Ledger.AddThenDelete | TOMsPlugin/utils.py:71-96 | adding the first row for a triple and then deleting it gives back the original ledger |
| Ledger.LayerTableId | TOMsPlugin/utils.py:46-68 | the Code of the last row whose name equals the layer name, and 0 when no row matches |
| Ledger.LookupDescription | TOMsPlugin/utils.py:125-140 | None for a falsy code; otherwise the Description of the first row whose Code equals the number the filter `"Code" = <str(code)>` reads, an integer code or a string holding a decimal literal; None when no row has it or the text is no number |
| Ledger.LookupByNumeral | TOMsPlugin/utils.py:133-137 | the string `str(n)` selects the same row as the integer `n` (and the string "0", being truthy, selects Code 0) |
| Text.DecimalRoundTrip | TOMsPlugin/utils.py:133 | the decimal literal `str(n)` puts into the filter reads back as `n` |
| Ledger.RestrictionLayersList | TOMsPlugin/utils.py:159-191 | the layer rows in order, then exactly the 12 fixed label-layer entries (length n + 12) |
| Ledger.LabelEntriesUseLayerCodes | TOMsPlugin/utils.py:166-189 | every fixed label entry carries the code of a RestrictionLayers member |
| Constants.Initialize | TOMsPlugin/constants.py:25-63 | each valid elevation sets its flag vector, READ always and FULL_CONTROL only for admin; a missing variable acts as guest; anything else fails with the source's message |
| Constants.MissingElevationIsGuest | TOMsPlugin/constants.py:26-61 | no elevation variable gives the guest flags: READ only |
| Constants.PrettyPrint | TOMsPlugin/constants.py:66-76 | each of the five labels exactly when its flag is the highest one set (ADMIN, WRITE (CAN CONFIRM), WRITE, READ ONLY (CAN PRINT), READ ONLY in that order), and None only when no flag is set |
| Constants.LabelOfElevation | TOMsPlugin/constants.py:25-76 | each valid elevation prints its own label, never None |
| Constants.ElevationsDistinguished | TOMsPlugin/constants.py:27-61 | two different valid elevations give different flag vectors |
| Constants.EnumValuesRoundTrip | TOMsPlugin/constants.py:79-98 | reading back a ProposalStatus, RestrictionAction or RestrictionLayers code gives the member it came from |
| Constants.IsBay | TOMsPlugin/constants.py:124-131 | an int or member is a bay iff its value is below 10 or in [20, 30); any other argument raises |
| Constants.BayMembers | TOMsPlugin/constants.py:101-131 | among the geometry types only PARALLEL_LINE, ZIG_ZAG and CROSSOVER are not bays |
| Constants.GetInstance | TOMsPlugin/constants.py:134-143 | the first call for a class builds and records an instance; later calls return the recorded one and change nothing |
| Constants.SingletonStable | TOMsPlugin/constants.py:136-143 | a second call returns the first call's instance whatever its arguments |
| Store.Commit | TOMsPlugin/manageRestrictionDetails.py:321-324 | after commit the current state is committed and nothing is pending |
| Store.Rollback | TOMsPlugin/restrictionDialog.py:329-335 | after rollback the committed state is current again and nothing is pending |
| Store.CommitAfterRollback | TOMsPlugin/manageRestrictionDetails.py:318-324 | a commit after a rollback keeps the rolled-back state; either one on an unmodified transaction changes nothing |
| Store.AddFeature | TOMsPlugin/mapTools.py:780-783 | the feature is added on success; a failed add changes nothing |
| Store.DeleteFeature | TOMsPlugin/manageRestrictionDetails.py:375-388 | on success exactly that feature is gone; a failed or missing delete changes nothing |
| Store.FreshRidUnstaged | TOMsPlugin/mapTools.py:596-599 | a fresh RestrictionID has no ledger row |
| GeometryChecks.LayerNamePrefix | TOMsPlugin/mapTools.py:720-726 | the layer name up to its first '.', or the whole name when there is none |
| GeometryChecks.FirstLayerCode | TOMsPlugin/mapTools.py:720-726 | the code of the first layer row named like the layer, or None when there is no such row |
| GeometryChecks.LayerCodeLookupsAgree | TOMsPlugin/utils.py:55-68 | when every row with the name has the same code, the first-match and last-match lookups agree |
| GeometryChecks.StageFragmentsDone | TOMsPlugin/mapTools.py:728-749 | fragment staging completes iff none of its OPEN rows fails to be added |
| GeometryChecks.StageFragmentsLedger | TOMsPlugin/mapTools.py:728-749 | each split fragment gets exactly one OPEN row for its RestrictionID, layer code and proposal, in fragment order |
| GeometryChecks.StageFragmentsFeatures | TOMsPlugin/mapTools.py:728-736 | each fragment has OpenDate and CloseDate cleared; no other feature changes |
| GeometryChecks.CheckSplitGeometries | TOMsPlugin/mapTools.py:700-814 | raises when more than one or no feature changed, or the layer has no table row; a missing committed geometry is raised only for a restriction absent from the baseline |
| GeometryChecks.SplitFragmentsEffect | TOMsPlugin/mapTools.py:728-749 | a completed split starts with one OPEN row per fragment and the fragments' dates cleared; other features are untouched |
| GeometryChecks.SplitStaged | TOMsPlugin/mapTools.py:752-812 | a source already staged gets no fork and no store write: only the fragment rows are added |
| GeometryChecks.SplitUnstagedLedger | TOMsPlugin/mapTools.py:766-807 | an unstaged source adds CLOSE(old) and OPEN(new) after the fragment rows, and the new id is then staged |
| GeometryChecks.SplitUnstagedFeatures | TOMsPlugin/mapTools.py:766-807 | an unstaged source gains one copy with the fresh id, null Open/CloseDate, its GeometryID and the split geometry; the original gets its committed geometry back |
| GeometryChecks.SplitWithoutFaults | TOMsPlugin/mapTools.py:745-783 | with no failing write, a split can only stop for a missing committed geometry of an unstaged source |
| GeometryChecks.SplitFragmentSharesRid | TOMsPlugin/mapTools.py:752-812 | a fragment sharing the source's RestrictionID stages the source, so no fork follows |
| GeometryChecks.ForkSplit | TOMsPlugin/mapTools.py:766-807 | the split fork completes iff the committed geometry is known and its three writes succeed; the ledger then gains CLOSE(old) and OPEN(new) |
| GeometryChecks.ForkEdit | TOMsPlugin/mapTools.py:856-898 | the edit fork completes iff the committed geometry and the label layers are known and its writes succeed; it adds one copy and CLOSE/OPEN rows |
| GeometryChecks.CheckEditedGeometries | TOMsPlugin/mapTools.py:817-907 | raises when more than one or no feature changed, or the layer has no table row; a staged feature is left exactly as it is |
| GeometryChecks.EditUnstaged | TOMsPlugin/mapTools.py:856-898 | an unstaged edit adds a copy with the fresh id, null OpenDate and GeometryID and the edited geometry; it restores the committed geometry and appends CLOSE(old) then OPEN(new) |
| GeometryChecks.EditForksOnce | TOMsPlugin/mapTools.py:842-856 | checking the edited state a second time adds no rows and no features |
| GeometryChecks.SplitCopy | TOMsPlugin/mapTools.py:773-779 | the split copy clears OpenDate and CloseDate but keeps GeometryID |
| Store.Clone | TOMsPlugin/mapTools.py:864-870 | the copy the edit tool and the form both make clears OpenDate and GeometryID but keeps CloseDate and the other values |
| MapTools.TitleRoundTrip | TOMsPlugin/mapTools.py:94-111 | reading the text between the first '[' and the first ']' of `"<desc> [<GeometryID>]"` gives back the GeometryID when desc has no brackets |
| MapTools.SignTitleRoundTrip | TOMsPlugin/mapTools.py:286-296 | the same round trip for the `"Sign: ..."` titles |
| MapTools.BracketedDescriptionMisleads | TOMsPlugin/mapTools.py:100-102 | a description holding brackets makes the extracted id come from the description |
| MapTools.FeatureListNames | TOMsPlugin/mapTools.py:250-299 | every title in the feature list names the GeometryID of a listed feature |
| MapTools.MenuSelectsListedFeature | TOMsPlugin/mapTools.py:94-133 | choosing any menu title selects a listed feature with that GeometryID |
| MapTools.VisitedSigns | TOMsPlugin/mapTools.py:267-282 | at most the first nine sign types are listed |
| MapTools.SelectFeature | TOMsPlugin/mapTools.py:113-133 | the first feature with the chosen GeometryID, or none when no feature has it |
| MapTools.CaptureShape | TOMsPlugin/mapTools.py:513-603 | a capture needs at least one point and a line at least two; a point keeps the first vertex; a line or polygon keeps all of them |
| MapTools.SetAll | TOMsPlugin/mapTools.py:621-697 | a run of `setAttribute` calls raises exactly when some written field is missing; otherwise no field is added, unwritten fields keep their values and each field holds the last value written to it |
| MapTools.SetField | TOMsPlugin/mapTools.py:666-682 | the pay-parking write inside the `try`: a missing field leaves the feature unchanged, a present one gets the value |
| MapTools.DefaultDetails | TOMsPlugin/mapTools.py:605-697 | raises (None) exactly when the layer lacks one of the fields written outside the pay-parking `try` (the zone fields on every layer but Signs, and the layer's own fields); otherwise fields outside the layer's defaulted set are untouched, nothing is added, and PayParkingAreaID takes the pay-parking code when that lookup succeeds |
| MapTools.ZoneValues | TOMsPlugin/mapTools.py:621-623 | every layer but Signs gets CPZ and MatchDayEventDayZone from the surroundings; Signs keeps them |
| MapTools.LineValues | TOMsPlugin/mapTools.py:626-637 | Lines: type and shape from the settings (224, 10 by default), waiting and match-day periods from the surroundings |
| MapTools.BayValues | TOMsPlugin/mapTools.py:640-664 | Bays: type and shape from the settings (101, 21 by default), NrBays -1, both periods (TimePeriodID from the CPZ, MatchDayTimePeriodID from the event-day zone), stay limits and tariff area from the surroundings |
| MapTools.SignAndPolygonValues | TOMsPlugin/mapTools.py:684-697 | Signs: the sign type from the settings (28); RestrictionPolygons: type from the settings (4) and the match-day period |
| MapTools.BuiltInDefaults | TOMsPlugin/mapTools.py:627-690 | without stored settings: lines 224, bays 101, sign 28, polygons 4; signs keep their RestrictionTypeID |
| MapTools.SaveLastSelectedValue | TOMsPlugin/utils.py:99-122 | the chosen value is written to the feature's field; a feature without that field is reported and left unchanged; in both cases the value is saved as the setting `<layer>/<field>` and no other setting changes |
| MapTools.SavedValueIsNextDefault | TOMsPlugin/mapTools.py:627-697 | a value last chosen on a form becomes the default of the next capture on that layer: the type on Lines, Bays and RestrictionPolygons, the sign type on Signs |
| MapTools.FinishCapture | TOMsPlugin/mapTools.py:513-603 | no capture creates nothing; construction lines bypass the form; on a restriction layer a missing field (a default or RestrictionID) raises before the form opens, and otherwise the form opens on a feature with the fresh id, no dates, no GeometryID and the default attributes |
| MapTools.CreatedRestrictionOpens | TOMsPlugin/mapTools.py:596-599 | a newly created restriction with a fresh id takes the new-restriction branch and gets exactly one OPEN row |
| ManageRestrictions.OnRemoveRestriction | TOMsPlugin/manageRestrictionDetails.py:342-404 | a staged, opened restriction is refused unchanged; a staged new one loses its row and feature; an unstaged one gets one CLOSE row and its feature is untouched; other features never change |
| ManageRestrictions.RemoveTwiceRefused | TOMsPlugin/manageRestrictionDetails.py:357-365 | after closing an opened restriction, removing it again is refused |
| ManageRestrictions.RemoveCreatedLeavesNoTrace | TOMsPlugin/manageRestrictionDetails.py:375-388 | removing a restriction created in the proposal leaves neither feature nor ledger row |
| ManageRestrictions.RemoveAllCloses | TOMsPlugin/manageRestrictionDetails.py:313-324 | removing unstaged restrictions appends one CLOSE row per selection, in order, and keeps every feature |
| ManageRestrictions.DoRemoveRestriction | TOMsPlugin/manageRestrictionDetails.py:288-340 | with no proposal or an empty selection, or when any removal fails, the transaction is rolled back; otherwise every removal is committed together |
| ManageRestrictions.DoRemoveCommitsCloses | TOMsPlugin/manageRestrictionDetails.py:313-340 | a successful remove commits exactly the CLOSE rows of the selection |
| ManageRestrictions.DoCreateRestriction | TOMsPlugin/manageRestrictionDetails.py:240-286 | with proposal 0 only construction lines may be created; otherwise the tool goes to the action's layer |
| ManageRestrictions.CreateLayer | TOMsPlugin/manageRestrictionDetails.py:259-271 | every create action except construction lines targets a layer with label layers |
| ManageRestrictions.DoRestrictionDetails | TOMsPlugin/manageRestrictionDetails.py:200-238 | no selection does nothing; with proposal 0 the edits are rolled back and the selection is shown read-only |
| ManageRestrictions.ActivateTool | TOMsPlugin/manageRestrictionDetails.py:406-433 | the edit and split tools stay checked only with a proposal above 0 and a selection; the committed state never changes |
| ManageRestrictions.FinishEdit | TOMsPlugin/manageRestrictionDetails.py:425-477 | on deactivation, No to the question or an unmodified group rolls back; otherwise `checkEditedGeometries` runs and a completed check is committed, while a raised check commits nothing and reports the check's own error |
| ManageRestrictions.FinishSplit | TOMsPlugin/manageRestrictionDetails.py:479-533 | on deactivation an unmodified group is left as it is; otherwise `checkSplitGeometries` runs and a completed check is committed, while a raised check commits nothing and reports the check's own error |
| ManageRestrictions.FinishEditStagedCommitsAsIs | TOMsPlugin/manageRestrictionDetails.py:470-472 | an edit of a staged restriction is committed exactly as edited |
| ManageRestrictions.FinishEditUnstagedForks | TOMsPlugin/manageRestrictionDetails.py:470-472 | switching the edit tool off after editing an unstaged restriction, with every write accepted, commits the fork: CLOSE(old) then OPEN(new) are appended to the committed ledger, the new id is in the proposal, and the layer holds the copy and the original with its committed geometry |
| ManageRestrictions.FinishSplitUnstagedForks | TOMsPlugin/manageRestrictionDetails.py:526-528 | switching the split tool off after splitting an unstaged restriction, with every write accepted, commits the fragments' rows followed by CLOSE(old) and OPEN(new); the new id is in the proposal and the copy is in the committed layer |
| RestrictionDialog.StageForm | TOMsPlugin/restrictionDialog.py:131-276 | staged: updated in place with no new rows; new: one OPEN row with a fresh id; opened: CLOSE(old), a clone with the fresh id, OPEN(clone), and the original restored |
| RestrictionDialog.AcceptWith | TOMsPlugin/restrictionDialog.py:105-327 | without WRITE or with proposal not above 0 nothing changes; otherwise the staged form is committed, except that the reload raises exactly on the CLOSE-and-clone branch when it fails, and then the staged group stays uncommitted |
| RestrictionDialog.AcceptInPlace | TOMsPlugin/restrictionDialog.py:131-145 | a staged restriction is updated in place and the ledger is unchanged |
| RestrictionDialog.AcceptNewOpens | TOMsPlugin/restrictionDialog.py:166-208 | a restriction without OpenDate gets exactly one OPEN row and is added to the layer |
| RestrictionDialog.AcceptExistingForks | TOMsPlugin/restrictionDialog.py:210-276 | an opened restriction yields CLOSE(old), a clone with a new id and no OpenDate or GeometryID, and OPEN(clone); the original returns to its pre-edit state |
| RestrictionDialog.Reject | TOMsPlugin/restrictionDialog.py:329-335 | reject always rolls the transaction back |
| RestrictionDialog.EvChargingPta | TOMsPlugin/restrictionDialog.py:93-103 | the PTA box is editable iff RestrictionTypeID is 124; otherwise it shows the default PTA |
| RestrictionDialog.EvChargingPtaStable | TOMsPlugin/restrictionDialog.py:93-103 | applying the rule twice changes nothing more |
| ProposalsPanel.ProposalList | TOMsPlugin/proposalsPanel.py:277-301 | the list starts with `(0, "0 - No proposal shown")`, followed by exactly the in-preparation proposals sorted by title, proposals with equal titles keeping their input order |
| ProposalsPanel.SortByTitleStable | TOMsPlugin/proposalsPanel.py:289-292 | sorting by title is stable like Python's `sorted`: for every title, the proposals with that title appear in their input order |
| ProposalsPanel.EqualTitlesKeepOrder | TOMsPlugin/proposalsPanel.py:289-292 | two proposals titled "a" come out in the order they came in |
| ProposalsPanel.NewProposalSelectable | TOMsPlugin/proposalsPanel.py:398-415 | a newly created proposal is found in the rebuilt list after the placeholder |
| ProposalsPanel.GetProposal | TOMsPlugin/proposalsPanel.py:658-670 | the first proposal with a matching id, or None when there is none |
| ProposalsPanel.OkEnabled | TOMsPlugin/proposalsPanel.py:466-478 | OK is enabled iff CONFIRM_ORDERS holds or the status is neither ACCEPTED nor REJECTED |
| ProposalsPanel.OkNeedsConfirm | TOMsPlugin/proposalsPanel.py:466-478 | elevations without CONFIRM_ORDERS cannot confirm an accepted or rejected status |
| ProposalsPanel.SaveProposalForm | TOMsPlugin/proposalsPanel.py:485-636 | a failed accept or reject rolls back and stops; success commits and resets the current proposal to 0; other saves commit and follow the proposal, found by title when it is new |
| ProposalsPanel.RejectUsesStoredStatus | TOMsPlugin/proposalsPanel.py:546-600 | choosing REJECTED for a proposal stored as in preparation takes the ordinary save branch |
| ProposalsPanel.PushLayer | TOMsPlugin/proposalsPanel.py:329-350 | each pending feature gets RestrictionID := GeometryID and one OPEN row; the count is the number of pending features; any failure returns the input unchanged |
| ProposalsPanel.PushMappingUpdates | TOMsPlugin/proposalsPanel.py:303-356 | with proposal 0 nothing changes; any failure rolls everything back; success commits the rows for updates (table 101) and masks (table 102) with their counts |
| ProposalsPanel.PushKeepsConsistent | TOMsPlugin/proposalsPanel.py:326-356 | every pushed feature has its OPEN row in the committed ledger |
| ProposalsPanel.PushMappingUpdatesAsWritten | TOMsPlugin/proposalsPanel.py:326-356 | a failure on the updates layer leaves everything as it was; once the updates loop completes, every update keeps its pushed RestrictionID even when the masks loop then fails and the ledger is rolled back; counts are reported exactly when both loops complete |
| ProposalsPanel.PushAsWrittenStrandsUpdates | TOMsPlugin/proposalsPanel.py:334-356 | a failed mask row leaves an update with a RestrictionID and no ledger row |
| ProposalsPanel.AsWrittenDiffersOnlyOnMasks | TOMsPlugin/proposalsPanel.py:326-356 | the two push versions differ only in the updates layer after a masks failure |
| LayerConfig.LabelTablesMatchLayerList | TOMsPlugin/restrictionTypeUtilsClass.py:371-419 | the label tables hold the same names as the fixed entries of the restriction layer list; Signs map to `[""]` |
| LayerConfig.LabelLayerNames | TOMsPlugin/restrictionTypeUtilsClass.py:371-391 | defined exactly for Bays, Lines, Signs, RestrictionPolygons, CPZs and ParkingTariffAreas (any other name leaves the local unbound); Signs gets the single empty name; every other layer gets at least one name, each of the form `<layer>.<suffix>` |
| LayerConfig.LabelLeaderLayerNames | TOMsPlugin/restrictionTypeUtilsClass.py:399-419 | the leader-line layers, with the same domain, the same empty name for Signs and the same `<layer>.` prefix |
| LayerConfig.LabelNamesOfLayer | TOMsPlugin/restrictionTypeUtilsClass.py:375-386 | every label and leader layer name of a layer other than Signs has the form `<layer>.<suffix>` |
| LayerConfig.GetConfigElement | TOMsPlugin/restrictionTypeUtilsClass.py:178-188 | the value when the section and key exist, None otherwise |
| LayerConfig.LayerListFromConfig | TOMsPlugin/restrictionTypeUtilsClass.py:207-215 | the layer list is the `layers` value split on newlines; a missing or empty value fails |
| LayerConfig.LayerListRoundTrip | TOMsPlugin/restrictionTypeUtilsClass.py:207-215 | a newline-joined list is read back as the same list |
| LayerConfig.SetLayers | TOMsPlugin/restrictionTypeUtilsClass.py:221-316 | form paths are rebased for the listed layers up to the first missing one, which reports not found; all other layers are untouched |
| LayerConfig.SetLayersComplete | TOMsPlugin/restrictionTypeUtilsClass.py:260-311 | a successful setLayers has every listed layer present and rebased |
| LayerConfig.RemovePathFromLayerForms | TOMsPlugin/restrictionTypeUtilsClass.py:318-353 | each listed layer up to the first missing one keeps only the basename of its form path |
| LayerConfig.FormPathsRoundTrip | TOMsPlugin/restrictionTypeUtilsClass.py:283-344 | setting form paths and then removing them gives back each form's basename |
| LayerConfig.ScanParams | TOMsPlugin/restrictionTypeUtilsClass.py:64-93 | the scan records parameters up to the first rejected one, stops there, and succeeds iff none is rejected |
| LayerConfig.GetParamsAsWritten | TOMsPlugin/restrictionTypeUtilsClass.py:48-102 | without a project nothing is read; otherwise success iff every parameter's string form is non-empty |
| LayerConfig.GetParamsAcceptsUnset | TOMsPlugin/restrictionTypeUtilsClass.py:80-93 | with no project variables at all, the parameters count as found and hold None |
| LayerConfig.GetParams | TOMsPlugin/restrictionTypeUtilsClass.py:48-102 | success iff every parameter is set to a value with a non-empty string form |
| LayerConfig.GetParamsRejectsUnset | TOMsPlugin/restrictionTypeUtilsClass.py:80-93 | with no project variables the parameters are not found |
| PosixPath.FormPathRoundTrip | TOMsPlugin/restrictionTypeUtilsClass.py:283 | the basename of `abspath(join(formPath, basename(ui)))` is `basename(ui)` |
| PosixPath.Basename | TOMsPlugin/restrictionTypeUtilsClass.py:343 | the text after the last '/' |
| Deploy.ResolveElevation | script/aws/aws_deploy.py:116-142 | a user mapped to one of the five modes gets it; no user, no entry or an unknown mode gives guest |
| Deploy.ElevationAccepted | script/aws/aws_deploy.py:124-130 | the resolved mode is always accepted by the plugin's initialize, with READ set |
| Deploy.ElevationIgnoresCase | script/aws/aws_deploy.py:122-123 | user names differing only in ASCII case resolve alike |
| Deploy.UnlistedUserIsGuest | script/aws/aws_deploy.py:131-142 | an unlisted user or unknown mode deploys as guest with READ only |
| Deploy.DeployStage | script/aws/aws_deploy.py:91-101 | the stage is the last part of DEPLOY_ROOT_DIR after checking it is set, exists and is a directory; each check fails with the script's message |
| Deploy.StageIsLastDirectory | script/aws/aws_deploy.py:101 | a root `<base>/<stage>` deploys stage `<stage>` |
| Deploy.CopyDestination | script/aws/aws_deploy.py:42-70 | the destination's parts are the destination directory's parts followed by the source's last part |
| Deploy.CopyDestinationStable | script/aws/aws_deploy.py:42-70 | copying the destination again into the same directory gives the same path |

## Left out

- MapTools.SaveLastSelectedValue: the message box shown for a failed write is the `reported` flag; its text is not modelled.
- RestrictionDialog.Form: `edited` is taken to hold every change made on the form, as if each attribute change had been written to the feature by `saveLastSelectedValue`. The form connects its attribute changes to `onAttributeChangedClass2`, which it imports from utils.py (restrictionDialog.py:34-37, 74-76), but utils.py defines no function of that name; as written, importing the restriction form raises ImportError, so none of its behaviour could run. The model assumes the handler is `saveLastSelectedValue`.
- ProposalsPanel.SaveProposalForm: the form's record (`newStatus`) is taken to hold the status chosen on the form, which `saveLastSelectedValue` writes into the proposal (proposalsPanel.py:393, 463).
- PosixPath.Basename: `os.path` is modelled as posixpath, splitting on '/' only. On Windows, which the deployment script targets (its `attrib` and `setx` calls), `os.path` is ntpath: it also splits on '\\' and after a drive ("C:x.ui" has basename "x.ui").
- Ledger.LookupDescription: of a string code only a decimal integer literal is read; other text the QGIS expression engine would still evaluate in the filter (`5.0`, ` 5`, `2+3`, a field name) selects no row here, and text that makes the filter invalid is likewise no match.
- Qt and QGIS user interface: dialogs, menus, tooltips, toolbars, dock tabs (`setupPanelTabs`), canvas and keyboard events, the tracer, rubber bands. These are event-driven glue around the modelled decisions.
- Geometry computation (search rectangles, `generateDisplayGeometry`, intersection, `GenerateGeometryUtils`): it uses floats and code that is not part of this model. Geometry is an opaque value; points keep opaque coordinates.
- `TOMsTransaction` and `TOMsProposalsManager` are not part of this model. The transaction is a committed snapshot and a current state; acceptProposal/rejectProposal and the proposal form save are opaque functions (`ProposalsPanel.Handlers`).
- The split-tool debounce timer (manageRestrictionDetails.py:164-167, 535-540) is event-loop timing.
- Logging (`TOMsMessageLog` and every log call).
- Files and processes: reading the config file, `expandvars`, `isfile`/`isdir`/`exists`, `shutil` copies, the `attrib`/`setx` calls. Their answers are parameters (`Deploy.DeployStage`'s `exists_`/`isDir`, `LayerConfig.Env`).
- UUID generation is a fresh-id parameter with a "not already used" precondition.
- The restriction form's label reload can raise two exceptions. An unknown layer leaves the label list unbound (UnboundLocalError); this is `RestrictionDialog.LabelLayersUnknown`. A label layer absent from the project makes `mapLayersByName(name)[0]` raise IndexError; this is `LabelLayerMissing(name)`. The exception texts are not modelled. The "A layer is missing" RuntimeError is raised only by the mapping-update push, when its layers cannot be looked up (proposalsPanel.py:315-324). `ProposalsPanel.PushMappingUpdates` receives the two mapping layers as parameters, so that lookup failure is not modelled.
- The restriction dialog's form save and its `addFeature` are one write in `RestrictionDialog.StageForm`. The intermediate form state is not modelled.
- `commitChanges` results on the transaction are not modelled: commit always succeeds.
- Deploy.Parts: Windows `pathlib` anchors are not modelled. A drive such as "C:" is kept as an ordinary first component of every drive path, where Python's first part is the anchor "C:\\". A root separator alone yields no part, where Python's first part is "\\". UNC shares are not modelled either. The parts after the anchor agree with Python.
- Deploy.DeployStage: because of the anchor difference in `Deploy.Parts`, a root that is only a drive anchor ("C:\\") gives stage "C:" where Python gives "C:\\". A root that is only the root separator ("\\") fails here where Python gives "\\". Any root with a named last component gives that component, as in Python (`Deploy.StageIsLastDirectory`).
- Deploy.Lower: lower-cases ASCII only; configparser's `str.lower` also folds other letters.
- Deploy.ResolveElevation: the configparser DEFAULT section, which would add its keys to `[users]`, is not modelled. Nor is configparser's basic interpolation: a mode holding a lone '%' makes `config["users"][user]` raise InterpolationSyntaxError, which the `except KeyError` does not catch, so the script stops where the model gives guest; a `%%` reads as '%' and `%(name)s` is substituted, where the model takes the text as written.
- LayerConfig.GetConfigElement: two configparser behaviours of `self.config[section][value]` are not modelled. Keys of the `[DEFAULT]` section are visible in every existing section, so a key missing from the section but present in `[DEFAULT]` reads the default value, where the model gives None. Basic interpolation applies on reading: a value holding a lone '%' raises InterpolationSyntaxError, which the `except KeyError` does not catch, so the plugin's configuration read ends with that exception, where the model returns the text; `%%` and `%(name)s` are likewise taken as written.
- Deploy.CopyDestination: uses `parts[-1]` for files too; `Path.name` and `parts[-1]` agree for every path with a named last part.
- ManageRestrictions.DoRemoveRestriction: on a failed removal the model computes the source's rollback followed by its unconditional commit, `Commit(Rollback(...))`. The contract states only the resulting transaction, which equals a plain rollback (`Store.CommitAfterRollback`).
- ManageRestrictions.OnRemoveRestriction: the layer's table id is passed in; the lookup itself is `Ledger.LayerTableId`.

## Findings

| source | as written | input that shows it | evidently intended | confidence | as-written member | corrected member |
|---|---|---|---|---|---|---|
| TOMsPlugin/restrictionTypeUtilsClass.py:80-93 | a parameter is accepted when `len(str(currParam)) > 0`, and `str(None)` is `"None"` | a project with none of the TOMs variables set: every parameter reads None and `getParams` reports found | an unset variable reports "Property ... is not present" and not found | not executed | LayerConfig.GetParamsAsWritten (LayerConfig.GetParamsAcceptsUnset) | LayerConfig.GetParams (LayerConfig.GetParamsRejectsUnset) |
| TOMsPlugin/proposalsPanel.py:326-356 | each mapping layer is committed by its own `commitChanges`, and a failure on the masks layer rolls back only the ledger | one pending update "M1" and one pending mask "K1", where adding K1's OPEN row fails: M1 keeps RestrictionID "M1" with no ledger row | a failed push leaves both layers and the ledger as they were | not executed | ProposalsPanel.PushMappingUpdatesAsWritten (ProposalsPanel.PushAsWrittenStrandsUpdates) | ProposalsPanel.PushMappingUpdates (ProposalsPanel.PushKeepsConsistent) |
| TOMsPlugin/restrictionDialog.py:277-283 | after forking an opened Sign, the label reload looks up the layer `""` from Signs' label list `[""]`, which raises before the commit | accepting an edit of an opened Sign in a proposal: the fork is staged, the reload raises, and nothing is committed | Signs have no label layers, so the reload is skipped and the fork is committed | not executed | RestrictionDialog.AcceptAsWritten (RestrictionDialog.AcceptSignRaises) | RestrictionDialog.Accept (RestrictionDialog.AcceptSignRaises) |
