/** The permission flags, enumeration codes and small helpers of the plugin's
    constants module. */
module Constants {
  import opened Wrappers

  // ---------------------------------------------------------------- permissions

  /** The six class-level flags of `UserPermission`. */
  datatype Permissions = Permissions(
    fullControl: bool,
    confirmOrders: bool,
    reportBayData: bool,
    write: bool,
    canPrint: bool,
    read: bool)

  /** The flag values before `initialize` runs. */
  const NoPermissions := Permissions(false, false, false, false, false, false)

  const Admin := "admin"
  const WriteConfirmOperator := "write_confirm_operator"
  const WriteNoConfirmOperator := "write_no_confirm_operator"
  const ReadOnlyOperator := "read_only_operator"
  const Guest := "guest"

  /** The elevations `initialize` accepts. */
  const ValidElevations: set<string> :=
    {Admin, WriteConfirmOperator, WriteNoConfirmOperator, ReadOnlyOperator, Guest}

  /** Each flag implies the next weaker one. */
  predicate Graded(p: Permissions)
  {
    && (p.fullControl ==> p.confirmOrders)
    && (p.confirmOrders ==> p.write)
    && (p.write ==> p.canPrint)
    && (p.canPrint ==> p.read)
  }

  /** `UserPermission.initialize`: `env` is DEPLOY_USER_ELEVATION (None when unset,
      which falls back to "guest"); an unknown elevation raises ValueError. */
  function Initialize(env: Option<string>): (r: Result<Permissions, string>)
    ensures r.Success? <==> (env.None? || env.value in ValidElevations)
    ensures r.Failure? ==> r.error == "User elevation " + env.value + " is not valid"
    ensures r.Success? ==> r.value.read && Graded(r.value)
    ensures r.Success? ==> r.value.reportBayData == r.value.write
    ensures r.Success? ==> (r.value.fullControl <==> env == Some(Admin))
    ensures r.Success? ==> (r.value.write <==> env in {Some(Admin), Some(WriteConfirmOperator), Some(WriteNoConfirmOperator)})
    ensures r.Success? ==> (r.value.canPrint <==> env != Some(Guest) && env.Some?)
  {
    var e := if env.Some? then env.value else Guest;
    if e == Admin then Success(Permissions(true, true, true, true, true, true))
    else if e == WriteConfirmOperator then Success(Permissions(false, true, true, true, true, true))
    else if e == WriteNoConfirmOperator then Success(Permissions(false, false, true, true, true, true))
    else if e == ReadOnlyOperator then Success(Permissions(false, false, false, false, true, true))
    else if e == Guest then Success(Permissions(false, false, false, false, false, true))
    else Failure("User elevation " + e + " is not valid")
  }

  /** A missing DEPLOY_USER_ELEVATION behaves exactly like "guest". */
  lemma MissingElevationIsGuest()
    ensures Initialize(None) == Initialize(Some(Guest))
    ensures Initialize(None) == Success(Permissions(false, false, false, false, false, true))
  {
  }

  /** `UserPermission.prettyPrint`: the label of the strongest flag set, or None. */
  function PrettyPrint(p: Permissions): (r: Option<string>)
    ensures r.None? <==> !(p.fullControl || p.confirmOrders || p.write || p.canPrint || p.read)
    ensures r == Some("ADMIN") <==> p.fullControl
    ensures r == Some("WRITE (CAN CONFIRM)") <==> !p.fullControl && p.confirmOrders
    ensures r == Some("WRITE") <==> !p.fullControl && !p.confirmOrders && p.write
    ensures r == Some("READ ONLY (CAN PRINT)") <==>
      !p.fullControl && !p.confirmOrders && !p.write && p.canPrint
    ensures r == Some("READ ONLY") <==>
      !p.fullControl && !p.confirmOrders && !p.write && !p.canPrint && p.read
  {
    if p.fullControl then Some("ADMIN")
    else if p.confirmOrders then Some("WRITE (CAN CONFIRM)")
    else if p.write then Some("WRITE")
    else if p.canPrint then Some("READ ONLY (CAN PRINT)")
    else if p.read then Some("READ ONLY")
    else None
  }

  /** The status label shown for each elevation, and it is never None. */
  lemma LabelOfElevation(e: string)
    requires e in ValidElevations
    ensures Initialize(Some(e)).Success?
    ensures PrettyPrint(Initialize(Some(e)).value) ==
      Some(if e == Admin then "ADMIN"
           else if e == WriteConfirmOperator then "WRITE (CAN CONFIRM)"
           else if e == WriteNoConfirmOperator then "WRITE"
           else if e == ReadOnlyOperator then "READ ONLY (CAN PRINT)"
           else "READ ONLY")
  {
  }

  /** Distinct valid elevations give distinct flag vectors. */
  lemma ElevationsDistinguished(e1: string, e2: string)
    requires e1 in ValidElevations && e2 in ValidElevations && e1 != e2
    ensures Initialize(Some(e1)).value != Initialize(Some(e2)).value
  {
  }

  // ---------------------------------------------------------------- enumerations

  datatype ProposalStatus = InPreparation | Accepted | Rejected

  function StatusValue(s: ProposalStatus): int
  {
    match s
    case InPreparation => 1
    case Accepted => 2
    case Rejected => 3
  }

  /** `ProposalStatus(v)`: the member with value `v`, if any. */
  function StatusOf(v: int): (r: Option<ProposalStatus>)
    ensures r.Some? ==> StatusValue(r.value) == v
    ensures r.None? ==> forall s: ProposalStatus :: StatusValue(s) != v
  {
    if v == 1 then Some(InPreparation)
    else if v == 2 then Some(Accepted)
    else if v == 3 then Some(Rejected)
    else None
  }

  datatype RestrictionAction = Open | Close

  function ActionValue(a: RestrictionAction): int
  {
    match a
    case Open => 1
    case Close => 2
  }

  /** `RestrictionAction(v)`: the member with value `v`, if any. */
  function ActionOf(v: int): (r: Option<RestrictionAction>)
    ensures r.Some? ==> ActionValue(r.value) == v
    ensures r.None? ==> forall a: RestrictionAction :: ActionValue(a) != v
  {
    if v == 1 then Some(Open) else if v == 2 then Some(Close) else None
  }

  /** The members of the `RestrictionLayers` enumeration. */
  datatype RestrictionLayer =
    Bays | Lines | RestrictionPolygons | Signs | Cpzs | Ptas | MappingUpdates | MappingUpdateMasks

  function LayerValue(l: RestrictionLayer): int
  {
    match l
    case Bays => 2
    case Lines => 3
    case RestrictionPolygons => 4
    case Signs => 5
    case Cpzs => 6
    case Ptas => 7
    case MappingUpdates => 101
    case MappingUpdateMasks => 102
  }

  /** `RestrictionLayers(v)`: the member with value `v`, if any. */
  function LayerOf(v: int): (r: Option<RestrictionLayer>)
    ensures r.Some? ==> LayerValue(r.value) == v
    ensures r.None? ==> forall l: RestrictionLayer :: LayerValue(l) != v
  {
    if v == 2 then Some(Bays)
    else if v == 3 then Some(Lines)
    else if v == 4 then Some(RestrictionPolygons)
    else if v == 5 then Some(Signs)
    else if v == 6 then Some(Cpzs)
    else if v == 7 then Some(Ptas)
    else if v == 101 then Some(MappingUpdates)
    else if v == 102 then Some(MappingUpdateMasks)
    else None
  }

  /** Every enumeration value is read back as its own member. */
  lemma EnumValuesRoundTrip(s: ProposalStatus, a: RestrictionAction, l: RestrictionLayer)
    ensures StatusOf(StatusValue(s)) == Some(s)
    ensures ActionOf(ActionValue(a)) == Some(a)
    ensures LayerOf(LayerValue(l)) == Some(l)
  {
  }

  // ---------------------------------------------------------------- geometry types

  datatype RestrictionGeometryType =
    | ParallelBay | HalfOnHalfOff | OnPavement | Perpendicular | Echelon
    | PerpendicularOnPavement | Other | CentralParking | EchelonOnPavement
    | ParallelLine | ZigZag
    | ParallelBayPolygon | HalfOnHalfOffPolygon | OnPavementPolygon | PerpendicularPolygon
    | EchelonPolygon | PerpendicularOnPavementPolygon | OutlineBayPolygon | EchelonOnPavementPolygon
    | Crossover

  function GeometryTypeValue(t: RestrictionGeometryType): int
  {
    match t
    case ParallelBay => 1
    case HalfOnHalfOff => 2
    case OnPavement => 3
    case Perpendicular => 4
    case Echelon => 5
    case PerpendicularOnPavement => 6
    case Other => 7
    case CentralParking => 8
    case EchelonOnPavement => 9
    case ParallelLine => 10
    case ZigZag => 12
    case ParallelBayPolygon => 21
    case HalfOnHalfOffPolygon => 22
    case OnPavementPolygon => 23
    case PerpendicularPolygon => 24
    case EchelonPolygon => 25
    case PerpendicularOnPavementPolygon => 26
    case OutlineBayPolygon => 28
    case EchelonOnPavementPolygon => 29
    case Crossover => 35
  }

  /** The argument `isBay` receives: an enumeration member, a Python int
      (a bool counts as 0 or 1), or anything else. */
  datatype GeometryTypeArg = MemberArg(t: RestrictionGeometryType) | IntArg(v: int) | OtherArg

  /** `RestrictionGeometryTypes.isBay`: raises NotImplementedError for an argument
      that is neither a member nor an int.  The message is kept without the
      argument's type, which the source formats into it and this model does not
      represent. */
  function IsBay(arg: GeometryTypeArg): (r: Result<bool, string>)
    ensures r.Failure? <==> arg.OtherArg?
    ensures arg.IntArg? ==> r == Success(arg.v < 10 || 20 <= arg.v < 30)
    ensures arg.MemberArg? ==>
      r == Success(GeometryTypeValue(arg.t) < 10 || 20 <= GeometryTypeValue(arg.t) < 30)
  {
    match arg
    case MemberArg(t) =>
      var v := GeometryTypeValue(t);
      Success(v < 10 || 20 <= v < 30)
    case IntArg(v) => Success(v < 10 || 20 <= v < 30)
    case OtherArg => Failure("Type not implemented here")
  }

  /** The bay members, listed by name: lines, zig-zags and crossovers are not bays. */
  lemma BayMembers(t: RestrictionGeometryType)
    ensures IsBay(MemberArg(t)) == Success(t !in {ParallelLine, ZigZag, Crossover})
  {
  }

  // ---------------------------------------------------------------- singleton

  /** `singleton(cls)()`: the registry of created instances, keyed by class.  The
      first call constructs with its arguments; later calls return the stored one. */
  function GetInstance<C, A, I>(instances: map<C, I>, cls: C, args: A, make: (C, A) -> I)
    : (r: (map<C, I>, I))
    ensures cls in r.0 && r.0[cls] == r.1
    ensures cls in instances ==> r == (instances, instances[cls])
    ensures cls !in instances ==> r.1 == make(cls, args) && r.0.Keys == instances.Keys + {cls}
    ensures forall c :: c in instances ==> c in r.0 && r.0[c] == instances[c]
  {
    if cls in instances then (instances, instances[cls])
    else
      var inst := make(cls, args);
      (instances[cls := inst], inst)
  }

  /** A second call returns the first call's instance whatever its arguments. */
  lemma SingletonStable<C, A, I>(instances: map<C, I>, cls: C, a1: A, a2: A, make: (C, A) -> I)
    ensures GetInstance(GetInstance(instances, cls, a1, make).0, cls, a2, make).1
         == GetInstance(instances, cls, a1, make).1
  {
  }
}
