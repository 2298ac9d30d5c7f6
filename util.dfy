/**
 * The small helpers the battle code imports from its utility module:
 * directions, a one-cell grid move and an integer clamp.
 */
module Util {

  /** The four grid directions. */
  datatype Direction = Up | Down | Left | Right

  /** The four directions in the order the flood fill visits neighbours. */
  const Directions: seq<Direction> := [Up, Down, Left, Right]

  /** The cell one step from (x, y) in direction `d`; y grows downwards. */
  function GridMove(x: int, y: int, d: Direction): (r: (int, int))
    ensures (r.0 - x) * (r.0 - x) + (r.1 - y) * (r.1 - y) == 1
    ensures r.0 == x <==> d == Up || d == Down
    ensures r.0 + r.1 > x + y <==> d == Down || d == Right
  {
    match d
    case Up => (x, y - 1)
    case Down => (x, y + 1)
    case Left => (x - 1, y)
    case Right => (x + 1, y)
  }

  /** The direction that undoes `d`. */
  function Opposite(d: Direction): (r: Direction)
    ensures r != d
  {
    match d
    case Up => Down
    case Down => Up
    case Left => Right
    case Right => Left
  }

  /** Moving in the opposite direction steps back to the cell moved from. */
  lemma MoveBack(x: int, y: int, d: Direction)
    ensures var (x', y') := GridMove(x, y, d); GridMove(x', y', Opposite(d)) == (x, y)
    ensures Opposite(Opposite(d)) == d
  {
  }

  /** `clamp(min, v, max)`: `v` brought into the closed range [lo, hi]. */
  function Clamp(lo: int, v: int, hi: int): (r: int)
    requires lo <= hi
    ensures lo <= r <= hi
    ensures lo <= v <= hi ==> r == v
    ensures v < lo ==> r == lo
    ensures v > hi ==> r == hi
  {
    if v < lo then lo else if v > hi then hi else v
  }

  /** `Math.max(a, b)` on integers. */
  function Max(a: int, b: int): (r: int)
    ensures r >= a && r >= b
    ensures r == a || r == b
  {
    if a >= b then a else b
  }
}
