/** Maze cells, the move codes the game expects back each turn, and the
    direction offset table the g7 player uses to step from one cell to the next. */
module Grid {

  /** A maze cell as the player indexes it: row first, then column, i.e. (y, x). */
  datatype Cell = Cell(y: int, x: int)

  // Move codes of the game's constants module, as listed in the player's `move` docstring.
  const WAIT: int := -1
  const LEFT: int := 0
  const UP: int := 1
  const RIGHT: int := 2
  const DOWN: int := 3

  /** One of the four moves that change the cell. */
  predicate IsDirection(d: int) {
    d == LEFT || d == UP || d == RIGHT || d == DOWN
  }

  /** A value `move` may hand back to the game. */
  predicate IsMove(m: int) {
    m == WAIT || IsDirection(m)
  }

  /** The (dy, dx) table of the exploration walk. A code outside the table
      (WAIT) is given the zero offset: it does not move the agent. */
  function Offset(d: int): (int, int) {
    if d == LEFT then (0, -1)
    else if d == UP then (-1, 0)
    else if d == RIGHT then (0, 1)
    else if d == DOWN then (1, 0)
    else (0, 0)
  }

  /** The cell reached from `p` by the move `d`: the position update of the player memory. */
  function Step(p: Cell, d: int): Cell {
    var (dy, dx) := Offset(d);
    Cell(p.y + dy, p.x + dx)
  }

  /** `b` is one of the four axis neighbours of `a`. */
  predicate IsUnitStep(a: Cell, b: Cell) {
    var dy, dx := b.y - a.y, b.x - a.x;
    (dy == 0 && (dx == 1 || dx == -1)) || (dx == 0 && (dy == 1 || dy == -1))
  }

  /** Every direction leads to an axis neighbour, so never back to the same cell. */
  lemma StepIsUnit(p: Cell, d: int)
    requires IsDirection(d)
    ensures IsUnitStep(p, Step(p, d))
    ensures Step(p, d) != p
  {
  }

  /** Different directions from one cell lead to different cells. */
  lemma StepsDiffer(p: Cell, d: int)
    requires IsDirection(d)
    ensures forall e :: IsDirection(e) && e != d ==> Step(p, e) != Step(p, d)
  {
  }

  /** The offset table covers all four axis neighbours: each is reached by some direction. */
  lemma UnitStepHasDirection(a: Cell, b: Cell)
    requires IsUnitStep(a, b)
    ensures exists d :: IsDirection(d) && Step(a, d) == b
  {
    var dy, dx := b.y - a.y, b.x - a.x;
    if dx == -1 {
      assert Step(a, LEFT) == b;
    } else if dx == 1 {
      assert Step(a, RIGHT) == b;
    } else if dy == -1 {
      assert Step(a, UP) == b;
    } else {
      assert Step(a, DOWN) == b;
    }
  }
}
