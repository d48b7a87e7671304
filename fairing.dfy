/** The launch-fairing fit test (FairingChecker.cs): a stowed module must fit
    the fairing's diameter and height, up to a millimetre of tolerance. */
module Fairing {
  import opened Common
  import opened Presets

  /** The slack allowed on each comparison, in metres. */
  const Tolerance: real := 0.001

  /** What the message explains: the four figures compared, in the order the
      stow orientation compares them. */
  datatype Why =
    | VerticalWhy(d: real, fd: real, l: real, fh: real)
    | HorizontalWhy(d: real, fh: real, l: real, fd: real)

  datatype Message = NoPresets | FairingOk(why: Why) | FairingFail(why: Why)

  datatype Result = Result(fits: bool, message: Message)

  /** A module of diameter d and length l fits a fairing of diameter fd and
      height fh: standing up, length goes along the height; lying down, the
      diameter does. */
  function Fits(stow: StowOrientation, d: real, l: real, fd: real, fh: real): (b: bool)
    ensures b ==> d <= MaxReal(fd, fh) + Tolerance && l <= MaxReal(fd, fh) + Tolerance
    ensures d <= fd + Tolerance && d <= fh + Tolerance && l <= fd + Tolerance && l <= fh + Tolerance ==> b
  {
    match stow
    case Vertical => d <= fd + Tolerance && l <= fh + Tolerance
    case Horizontal => d <= fh + Tolerance && l <= fd + Tolerance
  }

  function Check(mission: Option<MissionPreset>, shape: Option<ShapePreset>): (r: Result)
    ensures mission.Null? || shape.Null? ==> r == Result(true, NoPresets)
    ensures mission.Some? && shape.Some? && shape.value.stow == Vertical ==>
              (r.fits <==> (shape.value.diameter <= mission.value.maxFairingDiameterM + Tolerance
                            && shape.value.length <= mission.value.maxFairingHeightM + Tolerance))
    ensures mission.Some? && shape.Some? && shape.value.stow == Horizontal ==>
              (r.fits <==> (shape.value.diameter <= mission.value.maxFairingHeightM + Tolerance
                            && shape.value.length <= mission.value.maxFairingDiameterM + Tolerance))
    ensures mission.Some? && shape.Some? ==>
              (r.message.FairingOk? <==> r.fits) && (r.message.FairingFail? <==> !r.fits)
    ensures mission.Some? && shape.Some? ==>
              (r.message.why.VerticalWhy? <==> shape.value.stow == Vertical)
  {
    if mission.Null? || shape.Null? then Result(true, NoPresets)
    else
      var D, L := shape.value.diameter, shape.value.length;
      var FD, FH := mission.value.maxFairingDiameterM, mission.value.maxFairingHeightM;
      var fits := Fits(shape.value.stow, D, L, FD, FH);
      var why := if shape.value.stow == Vertical then VerticalWhy(D, FD, L, FH) else HorizontalWhy(D, FH, L, FD);
      Result(fits, if fits then FairingOk(why) else FairingFail(why))
  }

  /** A smaller module, or a larger fairing, never turns a fit into a misfit. */
  lemma CheckMonotone(m: MissionPreset, s: ShapePreset, m': MissionPreset, s': ShapePreset)
    requires s'.stow == s.stow
    requires s'.diameter <= s.diameter && s'.length <= s.length
    requires m'.maxFairingDiameterM >= m.maxFairingDiameterM && m'.maxFairingHeightM >= m.maxFairingHeightM
    ensures Check(Some(m), Some(s)).fits ==> Check(Some(m'), Some(s')).fits
  {
  }

  /** The default module (6 m by 10 m, standing) fits the default fairing
      (8 m by 20 m). */
  lemma DefaultsFit()
    ensures Check(Some(DefaultMission), Some(DefaultShape)).fits
  {
  }
}
