/**
 * The battle's sphere grid: GRID_WIDTH x GRID_HEIGHT cells stored row-major,
 * cell (x, y) at index x + y * GRID_WIDTH, each holding a sphere type or,
 * transiently during a solve, nothing.
 */
module Grid {
  import opened Wrappers
  import opened Util

  const Width: nat := 8
  const Height: nat := 9
  const Size: nat := 72

  /** The five sphere kinds, in the order of the source's `SPHERE_TYPES`. */
  datatype SphereType = Red | Cyan | Green | Yellow | Key

  const SphereTypes: seq<SphereType> := [Red, Cyan, Green, Yellow, Key]

  /** The position of `t` in `SPHERE_TYPES`. */
  function TypeRank(t: SphereType): (r: nat)
    ensures r < |SphereTypes| && SphereTypes[r] == t
  {
    match t
    case Red => 0
    case Cyan => 1
    case Green => 2
    case Yellow => 3
    case Key => 4
  }

  /** `SPHERE_TYPES` has no repeats: each position is its type's rank. */
  lemma RankOfListed(u: nat)
    requires u < |SphereTypes|
    ensures TypeRank(SphereTypes[u]) == u
  {
  }

  /** A cell's content: `None` is the source's `type === null`. */
  type Cell = Option<SphereType>

  /** A whole grid, index `x + y * Width`. */
  type Cells = seq<Cell>

  predicate InBounds(x: int, y: int) {
    0 <= x < Width && 0 <= y < Height
  }

  /** Column of cell `i`. */
  function X(i: nat): nat { i % Width }

  /** Row of cell `i`. */
  function Y(i: nat): nat { i / Width }

  /** Linear index of an in-bounds cell (`Sphere.index`). */
  function Index(x: nat, y: nat): (i: nat)
    requires InBounds(x, y)
    ensures i < Size && X(i) == x && Y(i) == y
  {
    x + y * Width
  }

  /** Every index below Size is the index of its own coordinates. */
  lemma IndexOfCoordinates(i: nat)
    requires i < Size
    ensures InBounds(X(i), Y(i)) && Index(X(i), Y(i)) == i
  {
  }

  /**
   * `getSphere`: the cell at (x, y), named by its index, or `None` when
   * (x, y) lies outside the grid.
   */
  function GetSphere(x: int, y: int): (r: Option<nat>)
    ensures r.Some? <==> InBounds(x, y)
    ensures r.Some? ==> r.value < Size && X(r.value) == x && Y(r.value) == y
  {
    if x < 0 || x >= Width || y < 0 || y >= Height then None
    else Some(y * Width + x)
  }

  /** The cell one step from cell `i` in direction `d`, if it is on the grid. */
  function Neighbour(i: nat, d: Direction): (r: Option<nat>)
    requires i < Size
    ensures r.Some? ==> r.value < Size && Adjacent(i, r.value)
  {
    var p := GridMove(X(i), Y(i), d);
    GetSphere(p.0, p.1)
  }

  /** Cells `i` and `j` share an edge (4-connectivity, no diagonals). */
  predicate Adjacent(i: nat, j: nat) {
    (X(i) == X(j) && (Y(i) == Y(j) + 1 || Y(j) == Y(i) + 1)) ||
    (Y(i) == Y(j) && (X(i) == X(j) + 1 || X(j) == X(i) + 1))
  }

  /** Stepping back the opposite way returns to the starting cell. */
  lemma NeighbourSymmetric(i: nat, d: Direction)
    requires i < Size && Neighbour(i, d).Some?
    ensures Neighbour(Neighbour(i, d).value, Opposite(d)) == Some(i)
  {
    var j := Neighbour(i, d).value;
    IndexOfCoordinates(i);
    IndexOfCoordinates(j);
  }

  /** Every edge-adjacent cell is reached by one of the four directions. */
  lemma AdjacentIsNeighbour(i: nat, j: nat)
    requires i < Size && j < Size && Adjacent(i, j)
    ensures exists d :: d in Directions && Neighbour(i, d) == Some(j)
  {
    IndexOfCoordinates(i);
    IndexOfCoordinates(j);
    if X(i) == X(j) && Y(j) + 1 == Y(i) {
      assert Neighbour(i, Up) == Some(j);
    } else if X(i) == X(j) {
      assert Neighbour(i, Down) == Some(j);
    } else if X(j) + 1 == X(i) {
      assert Neighbour(i, Left) == Some(j);
    } else {
      assert Neighbour(i, Right) == Some(j);
    }
  }
}
