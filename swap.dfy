/**
 * Moving spheres: the move phase's grid cursor, the swap choice that offers
 * a direction once a sphere is held, and the swap of two neighbouring cells.
 */
module Swap {
  import opened Wrappers
  import opened Util
  import opened Grid

  // ---------------------------------------------------------------------
  // The swap itself

  /** The grid with the contents of cells `i` and `j` exchanged. */
  function Swapped(g: Cells, i: nat, j: nat): (r: Cells)
    requires i < |g| && j < |g|
    ensures |r| == |g|
    ensures r[i] == g[j] && r[j] == g[i]
    ensures forall k :: 0 <= k < |g| && k != i && k != j ==> r[k] == g[k]
  {
    g[i := g[j]][j := g[i]]
  }

  /** A swap keeps the grid's spheres: only their places change. */
  lemma SwappedKeepsSpheres(g: Cells, i: nat, j: nat)
    requires i < |g| && j < |g|
    ensures multiset(Swapped(g, i, j)) == multiset(g)
  {
    var m := g[i := g[j]];
    assert multiset(m) == multiset(g) - multiset{g[i]} + multiset{g[j]};
    assert multiset(m[j := g[i]]) == multiset(m) - multiset{m[j]} + multiset{g[i]};
  }

  /** Swapping the same two cells again undoes a swap, whichever order they are named in. */
  lemma SwappedTwice(g: Cells, i: nat, j: nat)
    requires i < |g| && j < |g|
    ensures Swapped(Swapped(g, i, j), i, j) == g
    ensures Swapped(Swapped(g, i, j), j, i) == g
  {
    var once := Swapped(g, i, j);
    assert Swapped(once, i, j) == g by {
      forall k | 0 <= k < |g| ensures Swapped(once, i, j)[k] == g[k] {
      }
    }
    assert Swapped(once, j, i) == g by {
      forall k | 0 <= k < |g| ensures Swapped(once, j, i)[k] == g[k] {
      }
    }
  }

  /**
   * `SwapState.handleEntered`, without its animation: the destination is one
   * step from (fromX, fromY) in `direction`; the two spheres' types are
   * exchanged and the destination becomes the cursor's new position.
   */
  method SwapSpheres(grid: array<Cell>, fromX: nat, fromY: nat, direction: Direction)
      returns (toX: int, toY: int)
    requires grid.Length == Size && InBounds(fromX, fromY)
    requires InBounds(GridMove(fromX, fromY, direction).0, GridMove(fromX, fromY, direction).1)
    modifies grid
    ensures (toX, toY) == GridMove(fromX, fromY, direction) && InBounds(toX, toY)
    ensures grid[..] == Swapped(old(grid[..]), Index(fromX, fromY), Index(toX, toY))
  {
    toX, toY := fromX, fromY;
    match direction {
      case Up => toY := toY - 1;
      case Down => toY := toY + 1;
      case Left => toX := toX - 1;
      case Right => toX := toX + 1;
    }
    var fromSphere := GetSphere(fromX, fromY).value;
    var toSphere := GetSphere(toX, toY).value;
    IndexOfCoordinates(fromSphere);
    IndexOfCoordinates(toSphere);
    var fromType := grid[fromSphere];
    var toType := grid[toSphere];
    grid[fromSphere] := toType;
    grid[toSphere] := fromType;
  }

  // ---------------------------------------------------------------------
  // Choosing a direction

  /** Which arrow keys are held down. */
  datatype Arrows = Arrows(up: bool, down: bool, left: bool, right: bool)

  /** Whether the key for `d` is among `keys`. */
  function Held(keys: Arrows, d: Direction): bool {
    match d
    case Up => keys.up
    case Down => keys.down
    case Left => keys.left
    case Right => keys.right
  }

  /** A swap towards `d` is offered from (x, y) exactly when its destination is on the grid. */
  predicate Offered(x: nat, y: nat, d: Direction) {
    InBounds(GridMove(x, y, d).0, GridMove(x, y, d).1)
  }

  /** The position of `d` in the order up, down, left, right. */
  function DirectionRank(d: Direction): (r: nat)
    ensures r < |Directions| && Directions[r] == d
  {
    match d
    case Up => 0
    case Down => 1
    case Left => 2
    case Right => 3
  }

  /** What the swap choice does next. */
  datatype Choice = Release | SwapTowards(direction: Direction) | Hold

  /**
   * `SwapChoiceState.execute`: releasing both space and the pointer goes back
   * to the move phase; otherwise the first held arrow, in the order up, down,
   * left, right, whose destination is on the grid starts a swap.
   */
  function KeyboardChoice(fromX: nat, fromY: nat, space: bool, pointer: bool, keys: Arrows): (r: Choice)
    requires InBounds(fromX, fromY)
    ensures r == Release <==> !space && !pointer
    ensures r.SwapTowards? ==> Held(keys, r.direction) && Offered(fromX, fromY, r.direction)
    ensures r.SwapTowards? ==> forall u :: 0 <= u < DirectionRank(r.direction) ==>
      !(Held(keys, Directions[u]) && Offered(fromX, fromY, Directions[u]))
    ensures r == Hold ==> forall d :: !(Held(keys, d) && Offered(fromX, fromY, d))
  {
    if !space && !pointer then Release
    else if keys.up && fromY > 0 then SwapTowards(Up)
    else if keys.down && fromY < Height - 1 then SwapTowards(Down)
    else if keys.left && fromX > 0 then SwapTowards(Left)
    else if keys.right && fromX < Width - 1 then SwapTowards(Right)
    else
      assert forall d :: !(Held(keys, d) && Offered(fromX, fromY, d)) by {
        forall d ensures !(Held(keys, d) && Offered(fromX, fromY, d)) {
          assert d == Directions[DirectionRank(d)];
        }
      }
      Hold
  }

  /** `Math.floor((local - 2) / 14)`: the grid cell under a local pointer coordinate. */
  function CellAt(local: int): (r: int)
    ensures 14 * r + 2 <= local < 14 * r + 16
  {
    (local - 2) / 14
  }

  /**
   * `SwapChoiceState.handlePointerMove`: while the pointer is down, the
   * clamped cell under it picks the first of up, down, left, right whose
   * side of the held sphere it lies on and whose destination is on the grid.
   */
  function PointerChoice(fromX: nat, fromY: nat, pointer: bool, localX: int, localY: int): (r: Choice)
    requires InBounds(fromX, fromY)
    ensures r != Release
    ensures r.SwapTowards? ==> pointer && Offered(fromX, fromY, r.direction)
    ensures r == SwapTowards(Up) ==> Clamp(0, CellAt(localY), 8) < fromY
    ensures r == SwapTowards(Down) ==> Clamp(0, CellAt(localY), 8) > fromY
    ensures r == SwapTowards(Left) ==> Clamp(0, CellAt(localX), 7) < fromX
    ensures r == SwapTowards(Right) ==> Clamp(0, CellAt(localX), 7) > fromX
    ensures pointer && r == Hold ==>
      Clamp(0, CellAt(localX), 7) == fromX && Clamp(0, CellAt(localY), 8) == fromY
  {
    if !pointer then Hold
    else
      var gridX := Clamp(0, CellAt(localX), 7);
      var gridY := Clamp(0, CellAt(localY), 8);
      if gridY < fromY && fromY > 0 then SwapTowards(Up)
      else if gridY > fromY && fromY < Height - 1 then SwapTowards(Down)
      else if gridX < fromX && fromX > 0 then SwapTowards(Left)
      else if gridX > fromX && fromX < Width - 1 then SwapTowards(Right)
      else Hold
  }

  // ---------------------------------------------------------------------
  // The move phase's cursor

  /** The rows and columns a cursor may take: (x, y) brought onto the grid. */
  function OnGrid(x: int, y: int): (r: (nat, nat))
    ensures InBounds(r.0, r.1)
    ensures InBounds(x, y) ==> r == (x, y)
  {
    (Clamp(0, x, Width - 1), Clamp(0, y, Height - 1))
  }

  /**
   * The arrow handling of `MovePhaseState.execute`: right, left, up and down
   * are applied in that order, each only when it keeps the cursor on the grid.
   */
  function ArrowMoves(x: nat, y: nat, keys: Arrows): (r: (nat, nat))
    requires InBounds(x, y)
    ensures InBounds(r.0, r.1)
  {
    var x1 := if keys.right && x < Width - 1 then x + 1 else x;
    var x2 := if keys.left && x1 > 0 then x1 - 1 else x1;
    var y1 := if keys.up && y > 0 then y - 1 else y;
    var y2 := if keys.down && y1 < Height - 1 then y1 + 1 else y1;
    (x2, y2)
  }

  /**
   * Arrow moves change each coordinate by at most one; a single held arrow
   * moves the cursor one cell that way when the grid extends there, and
   * leaves it in place at the edge.
   */
  lemma ArrowMovesOneStep(x: nat, y: nat, keys: Arrows)
    requires InBounds(x, y)
    ensures var r := ArrowMoves(x, y, keys);
      && -1 <= r.0 - x <= 1 && -1 <= r.1 - y <= 1
      && (!keys.left && !keys.right ==> r.0 == x)
      && (!keys.up && !keys.down ==> r.1 == y)
  {
  }

  /** One held arrow alone moves the cursor like a grid move, unless that would leave the grid. */
  lemma SingleArrow(x: nat, y: nat, d: Direction)
    requires InBounds(x, y)
    ensures var keys := Arrows(d == Up, d == Down, d == Left, d == Right);
      ArrowMoves(x, y, keys) == if Offered(x, y, d) then GridMove(x, y, d) else (x, y)
  {
  }

  /** Where the move phase goes next. */
  datatype MoveOutcome = Stay | ToSwapChoice(x: nat, y: nat) | ToSolve

  /** `MovePhaseState`'s cursor over the sphere grid. */
  class MovePhase {
    var cursorX: int
    var cursorY: int

    /** The cursor is always on the grid. */
    ghost predicate Valid()
      reads this
    {
      InBounds(cursorX, cursorY)
    }

    /** `init`: the cursor starts at the top-left cell. */
    constructor()
      ensures Valid() && cursorX == 0 && cursorY == 0
    {
      cursorX, cursorY := 0, 0;
      new;
      SetCursorPos(0, 0);
    }

    /** `setCursorPos`: the cursor moves to (x, y) clamped to [0,7] x [0,8]. */
    method SetCursorPos(x: int, y: int)
      modifies this
      ensures Valid()
      ensures (cursorX, cursorY) == OnGrid(x, y)
    {
      cursorX := Clamp(0, x, 7);
      cursorY := Clamp(0, y, 8);
    }

    /** `handlePointerMove`: the cursor moves to the clamped cell under the pointer. */
    method HandlePointerMove(localX: int, localY: int)
      modifies this
      ensures Valid()
      ensures (cursorX, cursorY) == OnGrid(CellAt(localX), CellAt(localY))
    {
      SetCursorPos(CellAt(localX), CellAt(localY));
    }

    /** `handlePointerDown`: the sphere under the pointer is taken. */
    method HandlePointerDown(localX: int, localY: int) returns (next: MoveOutcome)
      modifies this
      ensures Valid()
      ensures (cursorX, cursorY) == OnGrid(CellAt(localX), CellAt(localY))
      ensures next == ToSwapChoice(cursorX, cursorY)
    {
      HandlePointerMove(localX, localY);
      next := ToSwapChoice(cursorX, cursorY);
    }

    /**
     * `handleEntered`: coming back from a swap puts the cursor on the swapped
     * sphere; a space key or pointer still held takes it again at once.
     */
    method Enter(to: Option<(int, int)>, space: bool, pointer: bool) returns (next: MoveOutcome)
      requires Valid()
      modifies this
      ensures Valid()
      ensures to.Some? ==> (cursorX, cursorY) == OnGrid(to.value.0, to.value.1)
      ensures to.None? ==> cursorX == old(cursorX) && cursorY == old(cursorY)
      ensures next == if space || pointer then ToSwapChoice(cursorX, cursorY) else Stay
    {
      if to.Some? {
        SetCursorPos(to.value.0, to.value.1);
      }
      if space || pointer {
        return ToSwapChoice(cursorX, cursorY);
      }
      next := Stay;
    }

    /**
     * `execute`: a fresh space press takes the sphere under the cursor, a
     * fresh shift press ends the move phase, and otherwise the arrow keys
     * move the cursor.
     */
    method Execute(space: bool, shift: bool, keys: Arrows) returns (next: MoveOutcome)
      requires Valid()
      modifies this
      ensures Valid()
      ensures space ==> next == ToSwapChoice(old(cursorX), old(cursorY))
      ensures !space && shift ==> next == ToSolve
      ensures space || shift ==> cursorX == old(cursorX) && cursorY == old(cursorY)
      ensures !space && !shift ==> next == Stay && (cursorX, cursorY) == ArrowMoves(old(cursorX), old(cursorY), keys)
    {
      if space {
        return ToSwapChoice(cursorX, cursorY);
      }
      if shift {
        return ToSolve;
      }
      if keys.right && cursorX < Width - 1 {
        SetCursorPos(cursorX + 1, cursorY);
      }
      if keys.left && cursorX > 0 {
        SetCursorPos(cursorX - 1, cursorY);
      }
      if keys.up && cursorY > 0 {
        SetCursorPos(cursorX, cursorY - 1);
      }
      if keys.down && cursorY < Height - 1 {
        SetCursorPos(cursorX, cursorY + 1);
      }
      next := Stay;
    }
  }
}
