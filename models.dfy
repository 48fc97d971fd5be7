/** Records shared by the stores, the services and the handler: segments,
    user-to-segment assignments, the mass-assignment summary and the errors
    that travel between them. */
module Models {

  /** A UUID, read as the 128-bit unsigned number of its bytes (big-endian),
      which is also the order Postgres sorts `uuid` columns in. */
  type Uuid = nat
  type SegmentId = Uuid
  type UserId = Uuid

  /** `uuid.Nil`, the zero value of a Go `uuid.UUID` field. */
  const NilUuid: Uuid := 0

  /** An instant, as nanoseconds since the epoch. */
  type Time = int

  /** The raw JSON bytes of a segment's configuration; never interpreted. */
  type Config = seq<bv8>

  datatype Option<T> = None | Some(value: T)

  /** What a database round trip can fail with:
      NoRows    — `Scan` on a query that matched no row (pgx.ErrNoRows);
      Duplicate — any error whose text contains "duplicate" or "already exists";
      Failure   — every other error of the driver or the server. */
  datatype StoreError = NoRows | Duplicate | Failure(code: nat)

  datatype Result<T> = Ok(value: T) | Err(error: StoreError)

  /** `models.SegmentType` is a string type; the three named constants are the
      documented values, and any other string converts to it unchecked. */
  datatype SegmentType = Static | Dynamic | DynamicRule | Unlisted(name: string)

  const StaticName: string := "static"
  const DynamicName: string := "dynamic"
  const DynamicRuleName: string := "dynamic_rule"

  /** The string stored for a segment type. */
  function TypeName(t: SegmentType): string
  {
    match t
    case Static => StaticName
    case Dynamic => DynamicName
    case DynamicRule => DynamicRuleName
    case Unlisted(name) => name
  }

  /** A type whose `Unlisted` name does not collide with a named constant. */
  predicate CanonicalType(t: SegmentType)
  {
    t.Unlisted? ==> t.name != StaticName && t.name != DynamicName && t.name != DynamicRuleName
  }

  /** The conversion `models.SegmentType(s)`: it accepts every string and loses nothing. */
  function ParseType(s: string): (t: SegmentType)
    ensures TypeName(t) == s
    ensures CanonicalType(t)
    ensures t.Unlisted? <==> s != StaticName && s != DynamicName && s != DynamicRuleName
  {
    if s == StaticName then Static
    else if s == DynamicName then Dynamic
    else if s == DynamicRuleName then DynamicRule
    else Unlisted(s)
  }

  /** Reading back a stored type name gives the type it was stored from. */
  lemma ParseTypeName(t: SegmentType)
    requires CanonicalType(t)
    ensures ParseType(TypeName(t)) == t
  {
  }

  /** One row of the segment catalog. */
  datatype Segment = Segment(
    id: SegmentId,
    segmentName: string,
    segmentType: SegmentType,
    config: Config,
    description: string,
    isActive: bool,
    createdOn: Time)

  /** Provenance of an assignment. */
  datatype AssignmentType = Manual | Auto

  /** One fact "user `userID` belongs to segment `segmentID`". */
  datatype UserSegmentAssignment = UserSegmentAssignment(
    segmentID: SegmentId,
    userID: UserId,
    assignmentType: AssignmentType,
    assignedAt: Time)

  /** The summary a mass assignment returns (`assigned` is a Dafny keyword, hence `assignedCount`). */
  datatype MassAssignResult = MassAssignResult(totalUsers: nat, assignedCount: nat, skipped: nat)

  /** No two elements equal. */
  predicate Distinct<T(==)>(s: seq<T>)
  {
    forall i, j :: 0 <= i < j < |s| ==> s[i] != s[j]
  }
}
