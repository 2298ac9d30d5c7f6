/**
 * Group detection for a solve: the recursive flood fill `findGroup` and the
 * loop over all cells that collects one group per unvisited cell.
 */
module Groups {
  import opened Wrappers
  import opened Util
  import opened Grid

  /** The cells listed in `group` from position `from` on. */
  ghost function Listed(group: seq<nat>, from: nat): set<nat> {
    set k | from <= k < |group| :: group[k]
  }

  /** Every same-type neighbour of cell `c` is in `visited`. */
  ghost predicate ClosedAt(g: Cells, c: nat, visited: set<nat>)
    requires |g| == Size && c < Size
  {
    forall d: Direction :: Neighbour(c, d).Some? && g[Neighbour(c, d).value] == g[c] ==>
      Neighbour(c, d).value in visited
  }

  /** `group` extends `group0`, whose last member is the fill's start `s`. */
  ghost predicate Extends(s: nat, group0: seq<nat>, group: seq<nat>) {
    0 < |group0| <= |group| && group[..|group0|] == group0 && group0[|group0| - 1] == s
  }

  /** The cells added after `group0` are grid cells, fresh, and of `s`'s type. */
  ghost predicate FreshOfType(g: Cells, s: nat, visited0: set<nat>, from: nat, group: seq<nat>)
    requires |g| == Size && s < Size
  {
    forall k :: from <= k < |group| ==> group[k] < Size && group[k] !in visited0 && g[group[k]] == g[s]
  }

  /** The cells added after position `from` are pairwise distinct. */
  ghost predicate DistinctFrom(group: seq<nat>, from: nat) {
    forall j, k :: from <= j < k < |group| ==> group[j] != group[k]
  }

  /** The cell at position `k` touches a member at a position in [from - 1, k). */
  ghost predicate LinkedAt(group: seq<nat>, from: nat, k: nat)
    requires 0 < from <= k < |group|
  {
    exists j :: from - 1 <= j < k && Adjacent(group[j], group[k])
  }

  /** Each cell added after position `from` touches an earlier member at or after `from - 1`. */
  ghost predicate LinkedFrom(group: seq<nat>, from: nat)
    requires from > 0
  {
    forall k :: from <= k < |group| ==> LinkedAt(group, from, k)
  }

  /** Each cell added after position `from` has all its same-type neighbours visited. */
  ghost predicate ClosedFrom(g: Cells, from: nat, group: seq<nat>, visited: set<nat>)
    requires |g| == Size
  {
    forall k :: from <= k < |group| ==> group[k] < Size && ClosedAt(g, group[k], visited)
  }

  /**
   * What a flood fill from `s` has achieved so far: starting from
   * (`visited0`, `group0`), the group grew by fresh, distinct cells of `s`'s
   * type, each adjacent to an earlier member (`s` included), each with all
   * its same-type neighbours visited, and `visited` grew by exactly them.
   */
  ghost predicate Grown(g: Cells, s: nat, visited0: set<nat>, group0: seq<nat>,
                        visited: set<nat>, group: seq<nat>)
    requires |g| == Size
  {
    && s < Size
    && Extends(s, group0, group)
    && (forall c :: c in visited ==> c < Size)
    && visited == visited0 + Listed(group, |group0|)
    && FreshOfType(g, s, visited0, |group0|, group)
    && DistinctFrom(group, |group0|)
    && LinkedFrom(group, |group0|)
    && ClosedFrom(g, |group0|, group, visited)
  }

  /** A set of grid indices has at most `n` members when all are below `n`. */
  lemma {:induction false} BoundedCard(s: set<nat>, n: nat)
    requires forall c :: c in s ==> c < n
    ensures |s| <= n
  {
    if n > 0 {
      BoundedCard(s - {n - 1}, n - 1);
    } else {
      assert s == {};
    }
  }

  lemma ClosedAtMonotone(g: Cells, c: nat, v: set<nat>, w: set<nat>)
    requires |g| == Size && c < Size && v <= w && ClosedAt(g, c, v)
    ensures ClosedAt(g, c, w)
  {
  }

  lemma ListedSplit(group: seq<nat>, a: nat, b: nat)
    requires a <= b <= |group|
    ensures Listed(group, a) == Listed(group[..b], a) + Listed(group, b)
  {
  }

  lemma StepFresh(g: Cells, s: nat, visited0: set<nat>, from: nat, group: seq<nat>, n: nat,
                  visited: set<nat>, group': seq<nat>)
    requires |g| == Size && s < Size && n < Size && from <= |group|
    requires FreshOfType(g, s, visited0, from, group)
    requires visited0 <= visited && n !in visited0 && g[n] == g[s]
    requires |group| < |group'| && group'[..|group| + 1] == group + [n]
    requires FreshOfType(g, n, visited + {n}, |group| + 1, group')
    ensures FreshOfType(g, s, visited0, from, group')
  {
    forall k | from <= k < |group'|
      ensures group'[k] < Size && group'[k] !in visited0 && g[group'[k]] == g[s]
    {
      if k < |group| {
        assert group'[k] == (group + [n])[k] == group[k];
      } else if k == |group| {
        assert group'[k] == (group + [n])[k];
      }
    }
  }

  lemma StepDistinct(from: nat, group: seq<nat>, n: nat, visited: set<nat>, group': seq<nat>)
    requires from <= |group| && DistinctFrom(group, from)
    requires forall k :: from <= k < |group| ==> group[k] in visited
    requires n !in visited
    requires |group| < |group'| && group'[..|group| + 1] == group + [n]
    requires forall k :: |group| + 1 <= k < |group'| ==> group'[k] !in visited + {n}
    requires DistinctFrom(group', |group| + 1)
    ensures DistinctFrom(group', from)
  {
    var m := |group|;
    forall j, k | from <= j < k < |group'|
      ensures group'[j] != group'[k]
    {
      assert j <= m ==> group'[j] == (group + [n])[j];
      assert k <= m ==> group'[k] == (group + [n])[k];
    }
  }

  lemma StepLinked(s: nat, from: nat, group: seq<nat>, n: nat, group': seq<nat>)
    requires 0 < from <= |group| && group[from - 1] == s && Adjacent(s, n)
    requires LinkedFrom(group, from)
    requires |group| < |group'| && group'[..|group| + 1] == group + [n]
    requires LinkedFrom(group', |group| + 1)
    ensures LinkedFrom(group', from)
  {
    var m := |group|;
    forall k | from <= k < |group'|
      ensures LinkedAt(group', from, k)
    {
      if k < m {
        assert LinkedAt(group, from, k);
        var j :| from - 1 <= j < k && Adjacent(group[j], group[k]);
        assert group'[j] == (group + [n])[j] == group[j];
        assert group'[k] == (group + [n])[k] == group[k];
        assert Adjacent(group'[j], group'[k]);
      } else if k == m {
        assert group'[from - 1] == (group + [n])[from - 1] == s;
        assert group'[m] == (group + [n])[m] == n;
        assert Adjacent(group'[from - 1], group'[k]);
      } else {
        assert LinkedAt(group', m + 1, k);
      }
    }
  }

  lemma StepClosed(g: Cells, from: nat, group: seq<nat>, n: nat, visited: set<nat>,
                   visited': set<nat>, group': seq<nat>)
    requires |g| == Size && from <= |group| && n < Size && visited <= visited'
    requires ClosedFrom(g, from, group, visited)
    requires |group| < |group'| && group'[..|group| + 1] == group + [n]
    requires ClosedAt(g, n, visited')
    requires ClosedFrom(g, |group| + 1, group', visited')
    ensures ClosedFrom(g, from, group', visited')
  {
    var m := |group|;
    forall k | from <= k < |group'|
      ensures group'[k] < Size && ClosedAt(g, group'[k], visited')
    {
      if k < m {
        assert group'[k] == (group + [n])[k] == group[k];
        ClosedAtMonotone(g, group[k], visited, visited');
      } else if k == m {
        assert group'[k] == (group + [n])[k] == n;
      }
    }
  }

  lemma ListedAppend(group: seq<nat>, a: nat, n: nat)
    requires a <= |group|
    ensures Listed(group + [n], a) == Listed(group, a) + {n}
  {
    var l := group + [n];
    assert l[|group|] == n;
    forall c | c in Listed(group, a) ensures c in Listed(l, a) {
      var k :| a <= k < |group| && group[k] == c;
      assert l[k] == c;
    }
  }

  /** One explored neighbour `n` extends what the fill from `s` has achieved. */
  lemma GrownStep(g: Cells, s: nat, visited0: set<nat>, group0: seq<nat>,
                  visited: set<nat>, group: seq<nat>, n: nat,
                  visited': set<nat>, group': seq<nat>)
    requires |g| == Size
    requires Grown(g, s, visited0, group0, visited, group)
    requires n < Size && n !in visited && g[n] == g[s] && Adjacent(s, n)
    requires Grown(g, n, visited + {n}, group + [n], visited', group')
    requires ClosedAt(g, n, visited')
    ensures Grown(g, s, visited0, group0, visited', group')
  {
    var m := |group|;
    assert group'[..m + 1] == group + [n];
    assert group'[..|group0|] == group0 by {
      assert group'[..|group0|] == (group + [n])[..|group0|] == group[..|group0|];
    }
    ListedSplit(group', |group0|, m + 1);
    ListedAppend(group, |group0|, n);
    StepFresh(g, s, visited0, |group0|, group, n, visited, group');
    assert forall k :: |group0| <= k < m ==> group[k] in visited;
    StepDistinct(|group0|, group, n, visited, group');
    assert group[|group0| - 1] == s;
    StepLinked(s, |group0|, group, n, group');
    StepClosed(g, |group0|, group, n, visited, visited', group');
  }

  /** Every same-type neighbour of `s` in direction `d` is in `visited`. */
  ghost predicate ClosedTowards(g: Cells, s: nat, d: Direction, visited: set<nat>)
    requires |g| == Size && s < Size
  {
    Neighbour(s, d).Some? && g[Neighbour(s, d).value] == g[s] ==> Neighbour(s, d).value in visited
  }

  /** Before the fill has added anything, it has achieved nothing to contradict. */
  lemma GrownStart(g: Cells, s: nat, visited0: set<nat>, group0: seq<nat>)
    requires |g| == Size && s < Size
    requires forall c :: c in visited0 ==> c < Size
    requires |group0| > 0 && group0[|group0| - 1] == s
    ensures Grown(g, s, visited0, group0, visited0, group0)
  {
    assert Listed(group0, |group0|) == {};
  }

  /** Closure towards each of the four listed directions is closure at the cell. */
  lemma ClosedInAllDirections(g: Cells, s: nat, visited: set<nat>)
    requires |g| == Size && s < Size
    requires forall u :: 0 <= u < |Directions| ==> ClosedTowards(g, s, Directions[u], visited)
    ensures ClosedAt(g, s, visited)
  {
    forall d: Direction
      ensures Neighbour(s, d).Some? && g[Neighbour(s, d).value] == g[s] ==> Neighbour(s, d).value in visited
    {
      assert d == Directions[0] || d == Directions[1] || d == Directions[2] || d == Directions[3];
      assert ClosedTowards(g, s, d, visited);
    }
  }

  lemma ClosedTowardsMonotone(g: Cells, s: nat, d: Direction, v: set<nat>, w: set<nat>)
    requires |g| == Size && s < Size && v <= w && ClosedTowards(g, s, d, v)
    ensures ClosedTowards(g, s, d, w)
  {
  }

  /**
   * `findGroup(scene, sphere, visited, group)`: depth-first over the four
   * neighbours of cell `s`; every unvisited neighbour of the same type is
   * appended to the group, marked visited and explored in turn. The shared
   * `visited` set and `group` array are threaded through as in/out values.
   */
  method FindGroup(g: Cells, s: nat, visited0: set<nat>, group0: seq<nat>)
      returns (visited: set<nat>, group: seq<nat>)
    requires |g| == Size && s < Size
    requires forall c :: c in visited0 ==> c < Size
    requires s in visited0
    requires |group0| > 0 && group0[|group0| - 1] == s
    ensures Grown(g, s, visited0, group0, visited, group)
    ensures ClosedAt(g, s, visited)
    decreases Size - |visited0|, 1
  {
    visited, group := visited0, group0;
    GrownStart(g, s, visited0, group0);
    for t := 0 to |Directions|
      invariant visited0 <= visited
      invariant Grown(g, s, visited0, group0, visited, group)
      invariant forall u :: 0 <= u < t ==> ClosedTowards(g, s, Directions[u], visited)
    {
      ghost var before := visited;
      BoundedCard(visited, Size);
      visited, group := VisitNeighbour(g, s, Directions[t], visited0, group0, visited, group);
      forall u | 0 <= u < t + 1 ensures ClosedTowards(g, s, Directions[u], visited) {
        if u < t {
          ClosedTowardsMonotone(g, s, Directions[u], before, visited);
        }
      }
    }
    ClosedInAllDirections(g, s, visited);
  }

  /**
   * One iteration of `findGroup`'s loop: the neighbour of `s` in direction
   * `d`, when it is on the grid, unvisited and of the same type, is pushed,
   * marked visited and explored recursively.
   */
  method VisitNeighbour(g: Cells, s: nat, d: Direction, visited0: set<nat>, group0: seq<nat>,
                        visited1: set<nat>, group1: seq<nat>)
      returns (visited: set<nat>, group: seq<nat>)
    requires |g| == Size
    requires Grown(g, s, visited0, group0, visited1, group1)
    ensures visited1 <= visited
    ensures Grown(g, s, visited0, group0, visited, group)
    ensures ClosedTowards(g, s, d, visited)
    decreases Size - |visited1|, 0
  {
    visited, group := visited1, group1;
    var p := GridMove(X(s), Y(s), d);
    var check := GetSphere(p.0, p.1);
    if check.Some? && check.value !in visited && g[s] == g[check.value] {
      var n := check.value;
      BoundedCard(visited + {n}, Size);
      visited, group := FindGroup(g, n, visited + {n}, group + [n]);
      GrownStep(g, s, visited0, group0, visited1, group1, n, visited, group);
    }
  }

  /** Same-type edge neighbours of members of `grp` are members too. */
  ghost predicate Maximal(g: Cells, grp: seq<nat>)
    requires |g| == Size
  {
    forall c: nat, n: nat :: c in grp && c < Size && n < Size && Adjacent(c, n) && g[n] == g[c] ==> n in grp
  }

  /**
   * `grp` is one group of the grid: non-empty, made of distinct grid cells
   * of one type, each after the first edge-adjacent to an earlier member,
   * and closed under same-type adjacency.
   */
  ghost predicate IsGroup(g: Cells, grp: seq<nat>)
    requires |g| == Size
  {
    && |grp| > 0
    && (forall k :: 0 <= k < |grp| ==> grp[k] < Size)
    && (forall k :: 0 <= k < |grp| ==> g[grp[k]] == g[grp[0]])
    && DistinctFrom(grp, 0)
    && LinkedFrom(grp, 1)
    && Maximal(g, grp)
  }

  /** All cells that occur in some group. */
  ghost function Members(groups: seq<seq<nat>>): set<nat> {
    set a, k | 0 <= a < |groups| && 0 <= k < |groups[a]| :: groups[a][k]
  }

  /** No cell occurs in two different groups. */
  ghost predicate Disjoint(groups: seq<seq<nat>>) {
    forall a, b, c :: 0 <= a < b < |groups| && c in groups[a] ==> c !in groups[b]
  }

  /**
   * The groups split the grid: every cell is in exactly one group, once,
   * and each group is a maximal 4-connected set of equal-type cells.
   */
  ghost predicate Partition(g: Cells, groups: seq<seq<nat>>)
    requires |g| == Size
  {
    && (forall c: nat :: c in Members(groups) <==> c < Size)
    && Disjoint(groups)
    && (forall a :: 0 <= a < |groups| ==> IsGroup(g, groups[a]))
  }

  lemma MembersAppend(groups: seq<seq<nat>>, grp: seq<nat>)
    ensures Members(groups + [grp]) == Members(groups) + Listed(grp, 0)
  {
    var l := groups + [grp];
    assert l[|groups|] == grp;
    forall c | c in Members(l) ensures c in Members(groups) + Listed(grp, 0) {
      var a, k :| 0 <= a < |l| && 0 <= k < |l[a]| && l[a][k] == c;
      if a < |groups| {
        assert groups[a][k] == c;
      }
    }
    forall c | c in Members(groups) ensures c in Members(l) {
      var a, k :| 0 <= a < |groups| && 0 <= k < |groups[a]| && groups[a][k] == c;
      assert l[a][k] == c;
    }
    forall c | c in Listed(grp, 0) ensures c in Members(l) {
      var k :| 0 <= k < |grp| && grp[k] == c;
      assert l[|groups|][k] == c;
    }
  }

  /** A same-type neighbour of a member of some group is a member too. */
  lemma EdgeIntoMembers(g: Cells, groups: seq<seq<nat>>, c: nat, n: nat)
    requires |g| == Size && c < Size && n < Size
    requires forall a :: 0 <= a < |groups| ==> IsGroup(g, groups[a])
    requires n in Members(groups) && Adjacent(c, n) && g[n] == g[c]
    ensures c in Members(groups)
  {
    var a, k :| 0 <= a < |groups| && 0 <= k < |groups[a]| && groups[a][k] == n;
    assert Maximal(g, groups[a]);
    assert Adjacent(n, c);
    assert c in groups[a];
    var j :| 0 <= j < |groups[a]| && groups[a][j] == c;
  }

  /** The closure found by the flood fill, restated over grid adjacency. */
  lemma ClosedAtAdjacent(g: Cells, c: nat, n: nat, visited: set<nat>)
    requires |g| == Size && c < Size && n < Size
    requires ClosedAt(g, c, visited) && Adjacent(c, n) && g[n] == g[c]
    ensures n in visited
  {
    AdjacentIsNeighbour(c, n);
    var d :| d in Directions && Neighbour(c, d) == Some(n);
  }

  /** The group a flood fill from a fresh cell `i` returns is a group, made of fresh cells only. */
  lemma FoundGroup(g: Cells, groups: seq<seq<nat>>, i: nat, v: set<nat>, grp: seq<nat>)
    requires |g| == Size && i < Size
    requires forall a :: 0 <= a < |groups| ==> IsGroup(g, groups[a])
    requires i !in Members(groups)
    requires Grown(g, i, Members(groups) + {i}, [i], v, grp)
    requires ClosedAt(g, i, v)
    ensures IsGroup(g, grp)
    ensures v == Members(groups) + Listed(grp, 0)
    ensures forall c :: c in grp ==> c !in Members(groups)
  {
    var visited := Members(groups);
    assert grp[0] == i by { assert grp[..1] == [i]; }
    assert Listed(grp, 0) == {i} + Listed(grp, 1);
    forall c | c in grp ensures c !in visited && c < Size && ClosedAt(g, c, v) {
      var k :| 0 <= k < |grp| && grp[k] == c;
    }
    forall k | 0 <= k < |grp| ensures grp[k] < Size && g[grp[k]] == g[grp[0]] {
    }
    forall j, k | 0 <= j < k < |grp| ensures grp[j] != grp[k] {
      if j == 0 {
        assert grp[k] !in visited + {i};
      }
    }
    forall c: nat, n: nat | c in grp && c < Size && n < Size && Adjacent(c, n) && g[n] == g[c]
      ensures n in grp
    {
      ClosedAtAdjacent(g, c, n, v);
      if n in visited {
        EdgeIntoMembers(g, groups, c, n);
      }
      assert n in Listed(grp, 0);
    }
  }

  /** Adding a group of fresh cells keeps the groups pairwise disjoint. */
  lemma DisjointAppend(groups: seq<seq<nat>>, grp: seq<nat>)
    requires Disjoint(groups)
    requires forall c :: c in grp ==> c !in Members(groups)
    ensures Disjoint(groups + [grp])
  {
    var l := groups + [grp];
    forall a, b, c | 0 <= a < b < |l| && c in l[a] ensures c !in l[b] {
      assert l[a] == groups[a];
      if b == |groups| {
        var k :| 0 <= k < |groups[a]| && groups[a][k] == c;
        assert c in Members(groups);
      } else {
        assert l[b] == groups[b];
      }
    }
  }

  /**
   * The first half of a solve: every cell not yet visited starts a new
   * group, filled by `findGroup`; cells are taken in index order.
   */
  method FindGroups(g: Cells) returns (groups: seq<seq<nat>>)
    requires |g| == Size
    ensures Partition(g, groups)
  {
    var visited: set<nat> := {};
    groups := [];
    for i := 0 to Size
      invariant visited == Members(groups)
      invariant forall c :: c in visited ==> c < Size
      invariant forall c :: 0 <= c < i ==> c in visited
      invariant Disjoint(groups)
      invariant forall a :: 0 <= a < |groups| ==> IsGroup(g, groups[a])
    {
      if i !in visited {
        var v, grp := FindGroup(g, i, visited + {i}, [i]);
        FoundGroup(g, groups, i, v, grp);
        DisjointAppend(groups, grp);
        MembersAppend(groups, grp);
        groups := groups + [grp];
        visited := v;
      }
    }
  }
}
