/** Decoding the first step of a planned path into a move (`get_move_direction`). */
module Direction {
  import opened Grid

  /** The move that takes the agent from `path[0]` to `path[1]`: the direction
      whose offset leads there, or WAIT when no single direction does (the
      same cell, a diagonal, or a jump of more than one cell). The checks run
      in the source's order LEFT, RIGHT, UP, DOWN; as the cases are disjoint
      the order does not change the result. */
  function GetMoveDirection(path: seq<Cell>): (m: int)
    requires |path| >= 2
    ensures IsMove(m)
    ensures m != WAIT ==> Step(path[0], m) == path[1]
    ensures m == WAIT ==> forall d :: IsDirection(d) ==> Step(path[0], d) != path[1]
  {
    var dy := path[1].y - path[0].y;
    var dx := path[1].x - path[0].x;
    if dx == -1 && dy == 0 then LEFT
    else if dx == 1 && dy == 0 then RIGHT
    else if dx == 0 && dy == -1 then UP
    else if dx == 0 && dy == 1 then DOWN
    else WAIT
  }

  /** Round trip with the offset table: stepping from any cell in direction `d`
      and decoding that step gives `d` back. */
  lemma DecodeStep(p: Cell, d: int)
    requires IsDirection(d)
    ensures GetMoveDirection([p, Step(p, d)]) == d
  {
  }

  /** WAIT is decoded exactly for first steps that are not a unit axis step. */
  lemma WaitIffNotUnitStep(path: seq<Cell>)
    requires |path| >= 2
    ensures GetMoveDirection(path) == WAIT <==> !IsUnitStep(path[0], path[1])
  {
  }

  /** Only the first two cells of the path matter. */
  lemma OnlyFirstStepMatters(path: seq<Cell>, other: seq<Cell>)
    requires |path| >= 2 && |other| >= 2
    requires path[0] == other[0] && path[1] == other[1]
    ensures GetMoveDirection(path) == GetMoveDirection(other)
  {
  }
}
