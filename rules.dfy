/** The layout rule set (RuleSet.cs, ZoneSpec.cs): one area specification per
    zone and pairwise adjacency rules, looked up by zone. */
module Rules {
  import opened Common
  import opened Zones

  /** A zone's requirements, with the inspector defaults below. */
  datatype ZoneSpec = ZoneSpec(
    zone: ZoneType,
    minAreaPerCrew: real,   // m² per crew member
    areaPer100Days: real,   // extra m² per 100 mission days
    minAisleWidth: real,    // m
    noise: real,            // 0..1
    odor: real)             // 0..1

  /** A fresh spec for zone z: positive area and aisle requirements, and
      the nuisance factors inside their 0..1 range. */
  function DefaultSpec(z: ZoneType): (s: ZoneSpec)
    ensures s.zone == z
    ensures s.minAreaPerCrew > 0.0 && s.areaPer100Days > 0.0 && s.minAisleWidth > 0.0
    ensures 0.0 <= s.noise <= 1.0 && 0.0 <= s.odor <= 1.0
  {
    ZoneSpec(z, 1.5, 0.5, 0.9, 0.5, 0.5)
  }

  /** A pair of zones to keep apart or together. For a separation rule
      distanceMeters is the least allowed distance between the zones; for a
      keep-together rule it is the greatest. */
  datatype AdjacencyRule = AdjacencyRule(a: ZoneType, b: ZoneType, shouldSeparate: bool, distanceMeters: real)

  datatype RuleSet = RuleSet(zoneSpecs: seq<ZoneSpec>, adjacencyRules: seq<AdjacencyRule>)

  /** RuleSet.GetSpec, a List.Find over the ZoneSpecs list: the first spec,
      in list order, for zone t, or null. */
  function GetSpec(specs: seq<ZoneSpec>, t: ZoneType): (r: Option<ZoneSpec>)
    ensures r.Some? ==> r.value.zone == t && r.value in specs
    ensures r.Null? <==> forall i :: 0 <= i < |specs| ==> specs[i].zone != t
  {
    if specs == [] then Null
    else if specs[0].zone == t then Some(specs[0])
    else GetSpec(specs[1..], t)
  }

  /** The spec found is the first one for t: no earlier spec has zone t. */
  lemma {:induction false} SpecFirst(specs: seq<ZoneSpec>, t: ZoneType) returns (i: int)
    requires GetSpec(specs, t).Some?
    ensures 0 <= i < |specs| && specs[i] == GetSpec(specs, t).value
    ensures forall j :: 0 <= j < i ==> specs[j].zone != t
  {
    if specs[0].zone == t {
      i := 0;
    } else {
      var i' := SpecFirst(specs[1..], t);
      i := i' + 1;
    }
  }

  /** Conversely, any spec preceded by no other spec of its zone is the one
      found. */
  lemma {:induction false} SpecEarliest(specs: seq<ZoneSpec>, i: int)
    requires 0 <= i < |specs|
    requires forall j :: 0 <= j < i ==> specs[j].zone != specs[i].zone
    ensures GetSpec(specs, specs[i].zone) == Some(specs[i])
  {
    if i > 0 {
      SpecEarliest(specs[1..], i - 1);
    }
  }

  /** Adding specs after the list changes no lookup that already succeeds. */
  lemma {:induction false} SpecAppend(specs: seq<ZoneSpec>, more: seq<ZoneSpec>, t: ZoneType)
    requires GetSpec(specs, t).Some?
    ensures GetSpec(specs + more, t) == GetSpec(specs, t)
  {
    if specs[0].zone != t {
      assert (specs + more)[1..] == specs[1..] + more;
      SpecAppend(specs[1..], more, t);
    }
  }
}
