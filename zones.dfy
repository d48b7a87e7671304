/** The zone codes a grid cell can carry (ZoneType.cs). The integer codes are
    part of the engine's contract: snapshots store them, so they must stay
    fixed and round-trip exactly. */
module Zones {
  import opened Common

  datatype ZoneType =
    | None
    | Sleep
    | Hygiene
    | ECLSS
    | Galley
    | Storage
    | Exercise
    | Medical
    | Maintenance
    | Recreation
    | Airlock
    | Corridor

  /** The integer code of a zone, as declared in the enum. */
  function ToInt(z: ZoneType): (n: int)
    ensures 0 <= n <= 11
    ensures n == 0 <==> z == None
    ensures n == 11 <==> z == Corridor
  {
    match z
    case None => 0
    case Sleep => 1
    case Hygiene => 2
    case ECLSS => 3
    case Galley => 4
    case Storage => 5
    case Exercise => 6
    case Medical => 7
    case Maintenance => 8
    case Recreation => 9
    case Airlock => 10
    case Corridor => 11
  }

  /** The zone with a given code; codes outside 0..11 name no zone. */
  function FromInt(n: int): (r: Option<ZoneType>)
    ensures r.Some? <==> 0 <= n <= 11
  {
    if n == 0 then Some(None)
    else if n == 1 then Some(Sleep)
    else if n == 2 then Some(Hygiene)
    else if n == 3 then Some(ECLSS)
    else if n == 4 then Some(Galley)
    else if n == 5 then Some(Storage)
    else if n == 6 then Some(Exercise)
    else if n == 7 then Some(Medical)
    else if n == 8 then Some(Maintenance)
    else if n == 9 then Some(Recreation)
    else if n == 10 then Some(Airlock)
    else if n == 11 then Some(Corridor)
    else Null
  }

  /** The enum's default value: C# zero-initialises a ZoneType to code 0. */
  const Default: ZoneType := None

  /** Room categories: every zone that is neither empty nor corridor. */
  predicate IsRoom(z: ZoneType)
  {
    z != None && z != Corridor
  }

  lemma DefaultIsCodeZero()
    ensures ToInt(Default) == 0 && FromInt(0) == Some(Default)
  {
  }

  /** zone -> int -> zone is the identity. */
  lemma ZoneRoundTrip(z: ZoneType)
    ensures FromInt(ToInt(z)) == Some(z)
  {
  }

  /** int -> zone -> int is the identity on the twelve codes 0..11. */
  lemma CodeRoundTrip(n: int)
    requires 0 <= n <= 11
    ensures FromInt(n).Some? && ToInt(FromInt(n).value) == n
  {
  }

  /** Distinct zones have distinct codes. */
  lemma CodesDistinct(a: ZoneType, b: ZoneType)
    requires a != b
    ensures ToInt(a) != ToInt(b)
  {
    ZoneRoundTrip(a);
    ZoneRoundTrip(b);
  }

  /** The room categories are exactly the codes 1..10; Corridor alone is 11. */
  lemma RoomCodes(z: ZoneType)
    ensures IsRoom(z) <==> 1 <= ToInt(z) <= 10
    ensures z == Corridor <==> ToInt(z) == 11
  {
  }

  /** All zones in code order. */
  const AllZones: seq<ZoneType> :=
    [None, Sleep, Hygiene, ECLSS, Galley, Storage, Exercise, Medical,
     Maintenance, Recreation, Airlock, Corridor]

  /** There are exactly twelve zones, listed once each, and the zone at
      position i of the code order has code i. */
  lemma TwelveZones()
    ensures |AllZones| == 12
    ensures forall i :: 0 <= i < 12 ==> ToInt(AllZones[i]) == i
    ensures forall z: ZoneType :: z in AllZones
  {
    forall z: ZoneType ensures z in AllZones {
      assert AllZones[ToInt(z)] == z;
    }
  }
}
