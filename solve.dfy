/**
 * The solve step of a battle turn: groups of three or more equal spheres are
 * matched, credited to the stock counters by type and cleared; then every
 * column that lost a sphere collapses downwards and is refilled from the top.
 */
module Solve {
  import opened Wrappers
  import opened Grid
  import opened Groups
  import opened Combat

  // ---------------------------------------------------------------------
  // Matching

  /** `groups.flat()`: the groups' cells, group after group. */
  function Flat(groups: seq<seq<nat>>): (r: seq<nat>)
    ensures forall c :: c in r <==> exists a :: 0 <= a < |groups| && c in groups[a]
  {
    if groups == [] then []
    else
      var rest := Flat(groups[1..]);
      assert forall c :: c in rest <==> exists a :: 1 <= a < |groups| && c in groups[a] by {
        forall c | c in rest ensures exists a :: 1 <= a < |groups| && c in groups[a] {
          var b :| 0 <= b < |groups[1..]| && c in groups[1..][b];
          assert c in groups[b + 1];
        }
        forall c | (exists a :: 1 <= a < |groups| && c in groups[a]) ensures c in rest {
          var a :| 1 <= a < |groups| && c in groups[a];
          assert groups[1..][a - 1] == groups[a];
        }
      }
      groups[0] + rest
  }

  /** `groups.filter((group) => group.length >= 3)`, in order. */
  function MatchGroups(groups: seq<seq<nat>>): (r: seq<seq<nat>>)
    ensures |r| <= |groups|
    ensures forall grp :: grp in r <==> grp in groups && |grp| >= 3
  {
    if groups == [] then []
    else (if |groups[0]| >= 3 then [groups[0]] else []) + MatchGroups(groups[1..])
  }

  /** The groups whose first cell holds type `t`, in order. */
  function OfType(g: Cells, groups: seq<seq<nat>>, t: SphereType): (r: seq<seq<nat>>)
    ensures |r| <= |groups|
    ensures forall grp :: grp in r <==> grp in groups && 0 < |grp| && grp[0] < |g| && g[grp[0]] == Some(t)
  {
    if groups == [] then []
    else
      var grp := groups[0];
      (if 0 < |grp| && grp[0] < |g| && g[grp[0]] == Some(t) then [grp] else []) + OfType(g, groups[1..], t)
  }

  /** `matchedByType.get(t)`: the matched cells of type `t`, or none. */
  function MatchedOfType(g: Cells, matchGroups: seq<seq<nat>>, t: SphereType): (r: seq<nat>)
    ensures forall c :: c in r ==> c in Flat(matchGroups)
  {
    Flat(OfType(g, matchGroups, t))
  }

  /** The grid with the cells listed in `cells` emptied. */
  function Cleared(g: Cells, cells: seq<nat>): (r: Cells)
    ensures |r| == |g|
  {
    seq(|g|, i requires 0 <= i < |g| => if i in cells then None else g[i])
  }

  // ---------------------------------------------------------------------
  // Columns

  /** The cells of column `x`, top (row 0) to bottom. */
  function Column(g: Cells, x: nat): (r: seq<Cell>)
    requires |g| == Size && x < Width
    ensures |r| == Height
  {
    seq(Height, y requires 0 <= y < Height => g[Index(x, y)])
  }

  /** `column.filter((type) => type !== null)`, in order. */
  function Survivors(col: seq<Cell>): (r: seq<Cell>)
    ensures |r| <= |col|
    ensures forall k :: 0 <= k < |r| ==> r[k].Some?
  {
    if col == [] then []
    else (if col[0].Some? then [col[0]] else []) + Survivors(col[1..])
  }

  /** The number of empty cells. */
  function Holes(col: seq<Cell>): (r: nat)
    ensures r <= |col|
  {
    if col == [] then 0
    else (if col[0].None? then 1 else 0) + Holes(col[1..])
  }

  /** `findLastIndex((type) => type === null)`: the last empty row, or -1. */
  function LastHole(col: seq<Cell>): (r: int)
    ensures -1 <= r < |col|
    ensures r >= 0 ==> col[r].None?
    ensures forall k :: r < k < |col| ==> col[k].Some?
  {
    if col == [] then -1
    else if col[|col| - 1].None? then |col| - 1
    else LastHole(col[..|col| - 1])
  }

  /**
   * The collapsed column: the survivors at the bottom, in order, under fresh
   * spheres whose types the refill draws for (x, y).
   */
  function Collapsed(col: seq<Cell>, x: nat, refill: (nat, nat) -> SphereType): (r: seq<Cell>)
    requires |col| == Height
    ensures |r| == Height
  {
    var s := Survivors(col);
    var pad := Height - |s|;
    seq(Height, y requires 0 <= y < Height => if y < pad then Some(refill(x, y)) else s[y - pad])
  }

  /** A column with an empty cell collapses; any other column stays. */
  function Settled(col: seq<Cell>, x: nat, refill: (nat, nat) -> SphereType): (r: seq<Cell>)
    requires |col| == Height
    ensures |r| == Height
  {
    if None in col then Collapsed(col, x, refill) else col
  }

  /** The grid after every column has settled. */
  function Gravity(g: Cells, refill: (nat, nat) -> SphereType): (r: Cells)
    requires |g| == Size
    ensures |r| == Size
  {
    seq(Size, i requires 0 <= i < Size => Settled(Column(g, X(i)), X(i), refill)[Y(i)])
  }

  /**
   * The grid after a solve that matched the groups of `groups` of three or
   * more: unchanged when nothing matched, otherwise cleared and settled.
   */
  function Solved(g: Cells, groups: seq<seq<nat>>, refill: (nat, nat) -> SphereType): (r: Cells)
    requires |g| == Size
    ensures |r| == Size
  {
    var matched := Flat(MatchGroups(groups));
    if |matched| < 1 then g else Gravity(Cleared(g, matched), refill)
  }
  // ---------------------------------------------------------------------
  // Properties of a settled column

  /** Every cell is a survivor or a hole. */
  lemma {:induction false} SurvivorsAndHoles(col: seq<Cell>)
    ensures |Survivors(col)| + Holes(col) == |col|
  {
    if col != [] {
      SurvivorsAndHoles(col[1..]);
    }
  }

  /** Filtering distributes over concatenation. */
  lemma {:induction false} SurvivorsAppend(a: seq<Cell>, b: seq<Cell>)
    ensures Survivors(a + b) == Survivors(a) + Survivors(b)
  {
    if a == [] {
      assert a + b == b;
    } else {
      assert (a + b)[0] == a[0];
      assert (a + b)[1..] == a[1..] + b;
      SurvivorsAppend(a[1..], b);
    }
  }

  /** A column without holes is its own survivors. */
  lemma {:induction false} SurvivorsOfFull(col: seq<Cell>)
    requires forall k :: 0 <= k < |col| ==> col[k].Some?
    ensures Survivors(col) == col
  {
    if col != [] {
      SurvivorsOfFull(col[1..]);
    }
  }

  /** A hole is lost by the filter: a column with a hole loses a cell. */
  lemma {:induction false} SurvivorsShorter(col: seq<Cell>)
    requires None in col
    ensures |Survivors(col)| < |col|
  {
    if col[0].Some? {
      SurvivorsShorter(col[1..]);
    }
  }

  /**
   * The collapsed column is full; its top `Holes(col)` cells are the refill's
   * draws and, below them, the survivors sit at the bottom in their order.
   */
  lemma CollapsedShape(col: seq<Cell>, x: nat, refill: (nat, nat) -> SphereType)
    requires |col| == Height
    ensures var r := Collapsed(col, x, refill);
      && (forall y :: 0 <= y < Height ==> r[y].Some?)
      && (forall y :: 0 <= y < Holes(col) ==> r[y] == Some(refill(x, y)))
      && r[Holes(col)..] == Survivors(col)
  {
    SurvivorsAndHoles(col);
  }

  /** The survivors of a column are those above its last hole, then every cell below it. */
  lemma SurvivorsSplit(col: seq<Cell>)
    ensures var h := LastHole(col) + 1;
      Survivors(col) == Survivors(col[..h]) + col[h..]
  {
    var h := LastHole(col) + 1;
    assert col == col[..h] + col[h..];
    SurvivorsAppend(col[..h], col[h..]);
    SurvivorsOfFull(col[h..]);
  }

  /** Rows below the last hole are left as they were. */
  lemma CollapsedBelowLastHole(col: seq<Cell>, x: nat, refill: (nat, nat) -> SphereType)
    requires |col| == Height
    ensures forall y :: LastHole(col) < y < Height ==> Collapsed(col, x, refill)[y] == col[y]
  {
    var h := LastHole(col) + 1;
    SurvivorsSplit(col);
    var above := |Survivors(col[..h])|;
    var pad := Height - |Survivors(col)|;
    assert pad == h - above;
    forall y | h <= y < Height ensures Collapsed(col, x, refill)[y] == col[y] {
      assert Survivors(col)[y - pad] == col[h..][y - h];
    }
  }

  /** A settled column is full. */
  lemma SettledFull(col: seq<Cell>, x: nat, refill: (nat, nat) -> SphereType)
    requires |col| == Height
    ensures forall y :: 0 <= y < Height ==> Settled(col, x, refill)[y].Some?
  {
    if None in col {
      CollapsedShape(col, x, refill);
    }
  }

  /** Column `x` of the settled grid is column `x` of the grid, settled. */
  lemma GravityColumn(g: Cells, refill: (nat, nat) -> SphereType, x: nat)
    requires |g| == Size && x < Width
    ensures Column(Gravity(g, refill), x) == Settled(Column(g, x), x, refill)
  {
  }

  /** No cell is empty once the grid has settled. */
  lemma GravityFull(g: Cells, refill: (nat, nat) -> SphereType)
    requires |g| == Size
    ensures forall i :: 0 <= i < Size ==> Gravity(g, refill)[i].Some?
  {
    forall i | 0 <= i < Size ensures Gravity(g, refill)[i].Some? {
      SettledFull(Column(g, X(i)), X(i), refill);
    }
  }
  // ---------------------------------------------------------------------
  // Properties of the match

  /** A group of the partition, whichever position it holds. */
  lemma MemberIsGroup(g: Cells, groups: seq<seq<nat>>, grp: seq<nat>)
    requires |g| == Size && Partition(g, groups) && grp in groups
    ensures IsGroup(g, grp)
  {
    var a :| 0 <= a < |groups| && groups[a] == grp;
  }

  /**
   * Groups are matched whole or not at all: a cell is matched exactly when
   * the group it belongs to has three cells or more.
   */
  lemma WholeOrNothing(g: Cells, groups: seq<seq<nat>>, a: nat, c: nat)
    requires |g| == Size && Partition(g, groups)
    requires a < |groups| && c in groups[a]
    ensures c in Flat(MatchGroups(groups)) <==> |groups[a]| >= 3
  {
    var mg := MatchGroups(groups);
    if |groups[a]| >= 3 {
      assert groups[a] in mg;
      var b :| 0 <= b < |mg| && mg[b] == groups[a];
    }
    if c in Flat(mg) {
      var b :| 0 <= b < |mg| && c in mg[b];
      assert mg[b] in mg;
      var a' :| 0 <= a' < |groups| && groups[a'] == mg[b];
      assert a' == a;
    }
  }

  /** Keeping some of a list's groups, in order, keeps them disjoint. */
  lemma {:induction false} MatchGroupsDisjoint(groups: seq<seq<nat>>)
    requires Disjoint(groups)
    ensures Disjoint(MatchGroups(groups))
  {
    if groups != [] {
      var rest := groups[1..];
      assert Disjoint(rest) by {
        forall a, b, c | 0 <= a < b < |rest| && c in rest[a] ensures c !in rest[b] {
          assert rest[a] == groups[a + 1] && rest[b] == groups[b + 1];
        }
      }
      MatchGroupsDisjoint(rest);
      HeadDisjoint(groups, MatchGroups(rest));
    }
  }

  /** The same for the groups of one type. */
  lemma {:induction false} OfTypeDisjoint(g: Cells, groups: seq<seq<nat>>, t: SphereType)
    requires Disjoint(groups)
    ensures Disjoint(OfType(g, groups, t))
  {
    if groups != [] {
      var rest := groups[1..];
      assert Disjoint(rest) by {
        forall a, b, c | 0 <= a < b < |rest| && c in rest[a] ensures c !in rest[b] {
          assert rest[a] == groups[a + 1] && rest[b] == groups[b + 1];
        }
      }
      OfTypeDisjoint(g, rest, t);
      HeadDisjoint(groups, OfType(g, rest, t));
    }
  }

  /**
   * The first group of a disjoint list, put before disjoint groups drawn
   * from the rest of the list, keeps the result disjoint.
   */
  lemma HeadDisjoint(groups: seq<seq<nat>>, kept: seq<seq<nat>>)
    requires groups != [] && Disjoint(groups) && Disjoint(kept)
    requires forall grp :: grp in kept ==> grp in groups[1..]
    ensures Disjoint([groups[0]] + kept) && Disjoint([] + kept)
  {
    var l := [groups[0]] + kept;
    forall a, b, c | 0 <= a < b < |l| && c in l[a] ensures c !in l[b] {
      if a == 0 {
        assert l[b] in groups[1..];
        var j :| 0 <= j < |groups[1..]| && groups[1..][j] == l[b];
        assert groups[j + 1] == l[b];
      } else {
        assert l[a] == kept[a - 1] && l[b] == kept[b - 1];
      }
    }
    assert [] + kept == kept;
  }

  /** Disjoint groups without repeated cells flatten to a list without repeats. */
  lemma {:induction false} FlatDistinct(groups: seq<seq<nat>>)
    requires Disjoint(groups)
    requires forall a :: 0 <= a < |groups| ==> DistinctFrom(groups[a], 0)
    ensures DistinctFrom(Flat(groups), 0)
  {
    if groups != [] {
      var rest := groups[1..];
      assert Disjoint(rest) by {
        forall a, b, c | 0 <= a < b < |rest| && c in rest[a] ensures c !in rest[b] {
          assert rest[a] == groups[a + 1] && rest[b] == groups[b + 1];
        }
      }
      FlatDistinct(rest);
      var head, tail := groups[0], Flat(rest);
      forall c | c in tail ensures c !in head {
        var b :| 0 <= b < |rest| && c in rest[b];
        assert c in groups[b + 1];
      }
      var l := head + tail;
      forall j, k | 0 <= j < k < |l| ensures l[j] != l[k] {
        if k < |head| {
          assert l[j] == head[j] && l[k] == head[k];
        } else if j >= |head| {
          assert l[j] == tail[j - |head|] && l[k] == tail[k - |head|];
        } else {
          assert l[j] in head && l[k] in tail;
        }
      }
    }
  }

  /** The cells a list holds. */
  ghost function Elements(s: seq<nat>): set<nat> {
    set c | c in s
  }

  /** A list without repeats has as many distinct elements as positions. */
  lemma {:induction false} DistinctCard(s: seq<nat>)
    requires DistinctFrom(s, 0)
    ensures |Elements(s)| == |s|
  {
    if s == [] {
      assert Elements(s) == {};
    } else {
      var rest := s[1..];
      assert DistinctFrom(rest, 0) by {
        forall j, k | 0 <= j < k < |rest| ensures rest[j] != rest[k] {
          assert rest[j] == s[j + 1] && rest[k] == s[k + 1];
        }
      }
      DistinctCard(rest);
      assert s[0] !in rest by {
        forall k | 0 <= k < |rest| ensures rest[k] != s[0] {
          assert rest[k] == s[k + 1];
        }
      }
      assert Elements(s) == {s[0]} + Elements(rest) by {
        assert s == [s[0]] + rest;
      }
    }
  }

  /** The matched cells holding type `t`. */
  ghost function MatchedCells(g: Cells, groups: seq<seq<nat>>, t: SphereType): set<nat>
    requires |g| == Size
  {
    set c | c in Flat(MatchGroups(groups)) && c < Size && g[c] == Some(t)
  }

  /** The matched cells of type `t` are exactly the matched cells that hold `t`. */
  lemma MatchedOfTypeCells(g: Cells, groups: seq<seq<nat>>, t: SphereType, c: nat)
    requires |g| == Size && Partition(g, groups)
    ensures c in MatchedOfType(g, MatchGroups(groups), t) <==>
            c in Flat(MatchGroups(groups)) && c < Size && g[c] == Some(t)
  {
    var mg := MatchGroups(groups);
    var ot := OfType(g, mg, t);
    if c in Flat(ot) {
      var b :| 0 <= b < |ot| && c in ot[b];
      assert ot[b] in ot;
      MemberIsGroup(g, groups, ot[b]);
      var k :| 0 <= k < |ot[b]| && ot[b][k] == c;
    }
    if c in Flat(mg) && c < Size && g[c] == Some(t) {
      var b :| 0 <= b < |mg| && c in mg[b];
      assert mg[b] in mg;
      MemberIsGroup(g, groups, mg[b]);
      var k :| 0 <= k < |mg[b]| && mg[b][k] == c;
      assert mg[b] in ot;
      var e :| 0 <= e < |ot| && ot[e] == mg[b];
    }
  }

  /**
   * Each type's stock is credited with the number of matched cells of that
   * type: the matched list of a type has no repeated cell.
   */
  lemma CreditCount(g: Cells, groups: seq<seq<nat>>, t: SphereType)
    requires |g| == Size && Partition(g, groups)
    ensures |MatchedOfType(g, MatchGroups(groups), t)| == |MatchedCells(g, groups, t)|
  {
    var mg := MatchGroups(groups);
    var ot := OfType(g, mg, t);
    MatchGroupsDisjoint(groups);
    OfTypeDisjoint(g, mg, t);
    forall b | 0 <= b < |ot| ensures DistinctFrom(ot[b], 0) {
      assert ot[b] in ot;
      MemberIsGroup(g, groups, ot[b]);
    }
    FlatDistinct(ot);
    DistinctCard(Flat(ot));
    forall c: nat ensures c in Flat(ot) <==> c in Flat(mg) && c < Size && g[c] == Some(t) {
      MatchedOfTypeCells(g, groups, t, c);
    }
    assert Elements(Flat(ot)) == MatchedCells(g, groups, t);
  }
  /** Matched cells are grid cells. */
  lemma MatchedInGrid(g: Cells, groups: seq<seq<nat>>)
    requires |g| == Size && Partition(g, groups)
    ensures forall k :: 0 <= k < |Flat(MatchGroups(groups))| ==> Flat(MatchGroups(groups))[k] < Size
  {
    var mg := MatchGroups(groups);
    forall k | 0 <= k < |Flat(mg)| ensures Flat(mg)[k] < Size {
      var c := Flat(mg)[k];
      assert c in Flat(mg);
      var b :| 0 <= b < |mg| && c in mg[b];
      assert mg[b] in mg;
      MemberIsGroup(g, groups, mg[b]);
    }
  }

  // ---------------------------------------------------------------------
  // Properties of the solved grid

  /** A solve leaves a full grid full. */
  lemma SolvedFull(g: Cells, groups: seq<seq<nat>>, refill: (nat, nat) -> SphereType)
    requires |g| == Size
    requires forall i :: 0 <= i < Size ==> g[i].Some?
    ensures forall i :: 0 <= i < Size ==> Solved(g, groups, refill)[i].Some?
  {
    var matched := Flat(MatchGroups(groups));
    if |matched| >= 1 {
      GravityFull(Cleared(g, matched), refill);
    }
  }

  /**
   * In a column without a matched cell of a full grid, nothing moves and
   * nothing is refilled.
   */
  lemma UntouchedColumn(g: Cells, groups: seq<seq<nat>>, refill: (nat, nat) -> SphereType, x: nat)
    requires |g| == Size && x < Width
    requires forall i :: 0 <= i < Size ==> g[i].Some?
    requires forall y :: 0 <= y < Height ==> Index(x, y) !in Flat(MatchGroups(groups))
    ensures Column(Solved(g, groups, refill), x) == Column(g, x)
  {
    var matched := Flat(MatchGroups(groups));
    if |matched| >= 1 {
      var cleared := Cleared(g, matched);
      assert Column(cleared, x) == Column(g, x);
      GravityColumn(cleared, refill, x);
    }
  }

  /**
   * Every column of the solved grid is the column of the cleared grid,
   * settled; below its last cleared row it keeps its cells.
   */
  lemma SolvedColumn(g: Cells, groups: seq<seq<nat>>, refill: (nat, nat) -> SphereType, x: nat)
    requires |g| == Size && x < Width && |Flat(MatchGroups(groups))| >= 1
    ensures var col := Column(Cleared(g, Flat(MatchGroups(groups))), x);
      && Column(Solved(g, groups, refill), x) == Settled(col, x, refill)
      && forall y :: LastHole(col) < y < Height ==> Solved(g, groups, refill)[Index(x, y)] == g[Index(x, y)]
  {
    var cleared := Cleared(g, Flat(MatchGroups(groups)));
    var col := Column(cleared, x);
    GravityColumn(cleared, refill, x);
    CollapsedBelowLastHole(col, x, refill);
    forall y | LastHole(col) < y < Height ensures Solved(g, groups, refill)[Index(x, y)] == g[Index(x, y)] {
      assert col[y] == cleared[Index(x, y)];
      assert Column(Solved(g, groups, refill), x)[y] == Solved(g, groups, refill)[Index(x, y)];
    }
  }

  // ---------------------------------------------------------------------
  // The solve, in place

  /** The grid cell (x, y) of `cells`, as the settled grid of `g0` has it. */
  ghost predicate SettledAt(cells: seq<Cell>, g0: Cells, refill: (nat, nat) -> SphereType, x: nat, y: nat)
    requires |cells| == Size && |g0| == Size && InBounds(x, y)
  {
    cells[Index(x, y)] == Settled(Column(g0, x), x, refill)[y]
  }

  /**
   * `matchGroups.flat().forEach((sphere) => sphere.type = null)`: the listed
   * cells are emptied, every other cell is kept.
   */
  method ClearCells(grid: array<Cell>, cells: seq<nat>)
    requires forall k :: 0 <= k < |cells| ==> cells[k] < grid.Length
    modifies grid
    ensures grid[..] == Cleared(old(grid[..]), cells)
  {
    ghost var g0 := grid[..];
    for k := 0 to |cells|
      invariant grid[..] == Cleared(g0, cells[..k])
    {
      assert cells[..k + 1] == cells[..k] + [cells[k]];
      grid[cells[k]] := None;
    }
    assert cells[..|cells|] == cells;
  }

  /**
   * The collapse loop: every column is settled in turn, left to right.
   */
  method Collapse(grid: array<Cell>, refill: (nat, nat) -> SphereType)
    requires grid.Length == Size
    modifies grid
    ensures grid[..] == Gravity(old(grid[..]), refill)
  {
    ghost var g0 := grid[..];
    for x := 0 to Width
      invariant forall x', y' :: 0 <= x' < x && 0 <= y' < Height ==> SettledAt(grid[..], g0, refill, x', y')
      invariant forall x', y' :: x <= x' < Width && 0 <= y' < Height ==> grid[Index(x', y')] == g0[Index(x', y')]
    {
      ghost var before := grid[..];
      assert Column(before, x) == Column(g0, x);
      CollapseColumn(grid, x, refill);
      forall x', y' | 0 <= x' <= x && 0 <= y' < Height ensures SettledAt(grid[..], g0, refill, x', y') {
        if x' < x {
          assert SettledAt(before, g0, refill, x', y');
        } else {
          assert SettledAt(grid[..], before, refill, x', y');
        }
      }
    }
    forall i | 0 <= i < Size ensures grid[i] == Gravity(g0, refill)[i] {
      IndexOfCoordinates(i);
      assert SettledAt(grid[..], g0, refill, X(i), Y(i));
    }
  }

  /**
   * One column of the collapse loop: the column is read top to bottom; when
   * it has an empty cell it is rewritten, from the top down to its last
   * empty row, with its collapsed and refilled contents.
   */
  method CollapseColumn(grid: array<Cell>, x: nat, refill: (nat, nat) -> SphereType)
    requires grid.Length == Size && x < Width
    modifies grid
    ensures forall y :: 0 <= y < Height ==> SettledAt(grid[..], old(grid[..]), refill, x, y)
    ensures forall x', y' :: 0 <= x' < Width && 0 <= y' < Height && x' != x ==>
      grid[Index(x', y')] == old(grid[Index(x', y')])
  {
    ghost var g0 := grid[..];
    var oldColumn: seq<Cell> := [];
    for y := 0 to Height
      invariant oldColumn == Column(g0, x)[..y]
    {
      oldColumn := oldColumn + [grid[Index(x, y)]];
    }
    assert oldColumn == Column(g0, x);
    if None in oldColumn {
      var newColumn := Collapsed(oldColumn, x, refill);
      var animEnd := LastHole(oldColumn);
      for y := 0 to animEnd + 1
        invariant forall y' :: 0 <= y' < y ==> grid[Index(x, y')] == newColumn[y']
        invariant forall x', y' :: 0 <= x' < Width && 0 <= y' < Height && (x' != x || y' >= y) ==>
          grid[Index(x', y')] == g0[Index(x', y')]
      {
        grid[Index(x, y)] := newColumn[y];
      }
      CollapsedBelowLastHole(oldColumn, x, refill);
    }
  }
  /**
   * `SolveState.handleEntered`, without its animations: the groups are
   * found; when some group of three or more exists, each type's stock is
   * credited with its matched cells, the matched cells are cleared and the
   * grid collapses and refills. The returned groups are those found.
   */
  method SolveGrid(grid: array<Cell>, battle: BattleState, refill: (nat, nat) -> SphereType)
      returns (groups: seq<seq<nat>>)
    requires grid.Length == Size
    modifies grid, battle
    ensures Partition(old(grid[..]), groups)
    ensures grid[..] == Solved(old(grid[..]), groups, refill)
    ensures forall t ::
      battle.stockCounts.Get(t) == old(battle.stockCounts.Get(t)) + |MatchedCells(old(grid[..]), groups, t)|
    ensures battle.partyMemberStatuses == old(battle.partyMemberStatuses)
    ensures battle.enemyStatus == old(battle.enemyStatus)
  {
    groups := FindGroups(grid[..]);
    var matched := Flat(MatchGroups(groups));
    if |matched| < 1 {
      forall t ensures MatchedCells(grid[..], groups, t) == {} {
      }
      return;
    }
    CreditStock(battle, grid[..], groups);
    MatchedInGrid(grid[..], groups);
    ClearCells(grid, matched);
    Collapse(grid, refill);
  }

  /**
   * The stock credit of a solve: for each type, in `SPHERE_TYPES` order,
   * with at least one matched cell, `modStockCount` adds their number.
   */
  method CreditStock(battle: BattleState, g: Cells, groups: seq<seq<nat>>)
    requires |g| == Size && Partition(g, groups)
    modifies battle
    ensures forall t ::
      battle.stockCounts.Get(t) == old(battle.stockCounts.Get(t)) + |MatchedCells(g, groups, t)|
    ensures battle.partyMemberStatuses == old(battle.partyMemberStatuses)
    ensures battle.enemyStatus == old(battle.enemyStatus)
  {
    var matchGroups := MatchGroups(groups);
    for k := 0 to |SphereTypes|
      invariant forall t ::
        battle.stockCounts.Get(t) == old(battle.stockCounts.Get(t)) + (if TypeRank(t) < k then |MatchedOfType(g, matchGroups, t)| else 0)
      invariant battle.partyMemberStatuses == old(battle.partyMemberStatuses)
      invariant battle.enemyStatus == old(battle.enemyStatus)
    {
      var t := SphereTypes[k];
      var spheres := MatchedOfType(g, matchGroups, t);
      RankOfListed(k);
      if |spheres| > 0 {
        battle.ModStockCount(t, |spheres|);
      }
    }
    forall t ensures |MatchedOfType(g, matchGroups, t)| == |MatchedCells(g, groups, t)| {
      CreditCount(g, groups, t);
    }
  }
}
