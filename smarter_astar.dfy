/** The two decision rules of player/SmarterAStarBot.kt: the nearby
    manipulator booster worth a detour, and the attach-only booster rule
    applied to robot 0. */
module SmarterAStar {
  import opened Wrappers
  import opened Maps
  import opened Sim
  import opened Utils
  import opened Boosters

  /** The cells holding a MANIPULATOR_EXTENSION booster. */
  function ExtensionCells(m: GameMap): set<Point>
  {
    set p | p in m.cells && m.cells[p].booster == Some(MANIPULATOR_EXTENSION)
  }

  /** The distance test of `checkNearestBooster`, squared. */
  function DistanceFrom(c: Point): Point -> int
  {
    q => SquaredDistance(c, q)
  }

  /** `checkNearestBooster`: the MANIPULATOR_EXTENSION cell nearest to the
      robot, when it lies closer than 5 (a squared distance below 25); none
      otherwise. Among equally near cells any one may be chosen, as the
      order the map's entries are visited in is not fixed. */
  method CheckNearestBooster(sim: Simulator, bot: Robot) returns (r: Option<Point>)
    ensures r.None? <==> forall p :: p in ExtensionCells(sim.gameMap) ==> SquaredDistance(bot.pos, p) >= 25
    ensures r.Some? ==>
      && r.value in ExtensionCells(sim.gameMap)
      && SquaredDistance(bot.pos, r.value) < 25
      && forall q :: q in ExtensionCells(sim.gameMap) ==> SquaredDistance(bot.pos, r.value) <= SquaredDistance(bot.pos, q)
  {
    var cells := ExtensionCells(sim.gameMap);
    if cells == {} {
      return None;
    }
    var dist := DistanceFrom(bot.pos);
    LeastExists(cells, dist);
    var nearest :| nearest in cells && forall q :: q in cells ==> dist(nearest) <= dist(q);
    if SquaredDistance(bot.pos, nearest) < 25 {
      r := Some(nearest);
    } else {
      r := None;
    }
  }

  /** `applyBoosters`: an attach for robot 0 whenever a MANIPULATOR_EXTENSION
      is owned, at the offset the extension rule picks; nothing otherwise.
      The attach is legal and adds exactly that new offset. */
  function ApplyBoosters(sim: Simulator): (r: seq<Command>)
    requires |sim.robots| > 0
    requires MANIPULATOR_EXTENSION in sim.boosters ==> |sim.robots[0].manipulators| > 0
    ensures r == [] <==> MANIPULATOR_EXTENSION !in sim.boosters
    ensures r != [] ==>
      && |r| == 1 && r[0].ATTACH_MANUPULATOR?
      && Point(r[0].x, r[0].y) !in sim.robots[0].manipulators
      && Apply(sim, 0, r[0], false).Ok?
      && Apply(sim, 0, r[0], false).value.robots[0].manipulators == sim.robots[0].manipulators + [Point(r[0].x, r[0].y)]
  {
    BoosterChoicePriority(sim, 0, false, false, false);
    BoosterChoiceLegal(sim, 0, false, false, false);
    BoosterChoice(sim, 0, false, false, false)
  }
}
