/** The designer-edited presets (HabitatShapePreset.cs, MissionPreset.cs) and
    the mission context (HabitatContext.cs), as plain values with their
    inspector defaults. */
module Presets {
  import opened Common

  datatype HabitatShape = CylinderShape | Prism | Inflatable

  /** How the module is stowed in the launcher fairing. */
  datatype StowOrientation = Vertical | Horizontal

  datatype Destination = Lunar | Transit | Martian

  datatype ShapePreset = ShapePreset(
    shape: HabitatShape,
    diameter: real,
    length: real,
    decks: int,
    stow: StowOrientation,
    cellSize: real)

  datatype MissionPreset = MissionPreset(
    destination: Destination,
    crewSize: int,
    missionDays: int,
    maxFairingDiameterM: real,
    maxFairingHeightM: real,
    maxMassTonnes: real)

  const DefaultShape: ShapePreset := ShapePreset(CylinderShape, 6.0, 10.0, 1, Vertical, 0.5)

  const DefaultMission: MissionPreset := MissionPreset(Lunar, 4, 180, 8.0, 20.0, 30.0)

  /** HabitatContext.CrewSize: the mission's crew, 4 without a mission. */
  function CrewSize(mission: Option<MissionPreset>): (n: int)
    ensures mission.Null? ==> n == 4
    ensures mission.Some? ==> n == mission.value.crewSize
  {
    if mission.Some? then mission.value.crewSize else 4
  }

  /** HabitatContext.MissionDays: the mission's length, 180 days without a mission. */
  function MissionDays(mission: Option<MissionPreset>): (n: int)
    ensures mission.Null? ==> n == 180
    ensures mission.Some? ==> n == mission.value.missionDays
  {
    if mission.Some? then mission.value.missionDays else 180
  }

  /** The context's fallbacks are the default mission's own figures. */
  lemma ContextDefaultsAgree()
    ensures CrewSize(Null) == CrewSize(Some(DefaultMission))
    ensures MissionDays(Null) == MissionDays(Some(DefaultMission))
  {
  }
}
