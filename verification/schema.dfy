/** The relational schema the engine works on: restriction rows, the
    RestrictionsInProposals ledger, the RestrictionLayers descriptor table,
    lookup tables, and the store writes that can fail. */
module Schema {
  import opened Wrappers

  /** A feature id inside one QGIS layer. */
  type Fid = int

  /** A calendar date, kept opaque. */
  type Date = int

  /** Geometry is an opaque payload: the engine only copies and compares it. */
  datatype Geometry = Geometry(wkt: string)

  /** An attribute value as Python sees it: NULL, an int or a string. */
  datatype Value = Null | IntV(i: int) | StrV(s: string)

  /** Python truthiness of an attribute value. */
  predicate Truthy(v: Value)
  {
    match v
    case Null => false
    case IntV(i) => i != 0
    case StrV(s) => |s| > 0
  }

  /** A row of a restriction layer (Bays, Lines, Signs, RestrictionPolygons, ...).
      `attrs` holds the layer-specific fields (type codes, CPZ, tariff area, ...). */
  datatype Restriction = Restriction(
    restrictionId: string,
    geometryId: Option<string>,
    openDate: Option<Date>,
    closeDate: Option<Date>,
    geometry: Geometry,
    attrs: map<string, Value>)

  /** A row of RestrictionsInProposals; `action` is the numeric value of the
      RestrictionAction (1 = OPEN, 2 = CLOSE). */
  datatype LedgerRow = LedgerRow(restrictionId: string, tableId: int, proposalId: int, action: int)

  /** A row of the RestrictionLayers table. */
  datatype LayerRow = LayerRow(code: int, name: string)

  /** A row of a lookup table (BayLineTypes, SignTypes, RestrictionPolygonTypes). */
  datatype LookupRow = LookupRow(code: int, description: string)

  /** A store write that the data provider refuses.  Each write the engine issues
      succeeds unless its fault is in the `faults` set passed to the operation. */
  datatype Fault =
    | LedgerAddFails(row: LedgerRow)
    | LedgerDeleteFails(row: LedgerRow)
    | FeatureAddFails(fid: Fid)
    | FeatureUpdateFails(fid: Fid)
    | FeatureDeleteFails(fid: Fid)
    | MappingUpdateFails(code: int, geometryId: string)
}
