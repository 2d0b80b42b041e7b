/**
 * The marker record and its closed type enumeration. The enumeration's raw values are
 * the strings the relational backend stores in the `marker_type` column.
 */
module MarkerTypes {
  import opened Wrappers
  import opened Uuids

  /** `Marker_Type`: exactly four cases. */
  datatype MarkerType = Water | Trash | Light | Attack

  /** `CaseIterable.allCases`, in declaration order. */
  const AllCases: seq<MarkerType> := [Water, Trash, Light, Attack]

  /**
   * `rawValue`: each case's raw value is its own name, and parsing it gives back the
   * case.
   */
  function RawValue(t: MarkerType): (r: string)
    ensures FromRaw(r) == Some(t)
  {
    match t
    case Water => "water"
    case Trash => "trash"
    case Light => "light"
    case Attack => "attack"
  }

  /**
   * `Marker_Type(rawValue:)`: the case whose raw value is `s`, or `nil` for any
   * other string.
   */
  function FromRaw(s: string): Option<MarkerType>
  {
    if s == "water" then Some(Water)
    else if s == "trash" then Some(Trash)
    else if s == "light" then Some(Light)
    else if s == "attack" then Some(Attack)
    else None
  }

  /**
   * `Marker_Type(rawValue:)` inverts `rawValue`: it gives a case whose raw value is `s`,
   * and `nil` exactly when no case has that raw value.
   */
  lemma FromRawInverse(s: string)
    ensures FromRaw(s).Some? ==> RawValue(FromRaw(s).value) == s
    ensures FromRaw(s).None? <==> forall t: MarkerType :: RawValue(t) != s
  {
  }

  /** `Identifiable.id`: the raw value, so the id names the case. */
  function Id(t: MarkerType): (r: string)
    ensures r == RawValue(t) && FromRaw(r) == Some(t)
  {
    RawValue(t)
  }

  /** Distinct cases have distinct raw values. */
  lemma RawValueInjective(t: MarkerType, u: MarkerType)
    ensures RawValue(t) == RawValue(u) ==> t == u
  {
  }

  /** `allCases` lists each of the four cases once. */
  lemma AllCasesComplete(t: MarkerType)
    ensures |AllCases| == 4 && t in AllCases
    ensures forall i, j | 0 <= i < j < |AllCases| :: AllCases[i] != AllCases[j]
  {
  }

  /** Latitude and longitude (`Float` in Swift): only stored and copied. */
  type Coord = real

  /** `Marker`. */
  datatype Marker = Marker(id: Uuid, markerType: MarkerType, latitude: Coord, longitude: Coord)

  function IdOf(m: Marker): Uuid { m.id }

  /** The synthesized `Equatable`: equal exactly when all four fields are. */
  lemma MarkerEquality(m: Marker, n: Marker)
    ensures m == n <==>
      m.id == n.id && m.markerType == n.markerType && m.latitude == n.latitude && m.longitude == n.longitude
  {
  }
}
