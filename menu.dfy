/**
 * Menus: items linked to their neighbours in each direction, and a cursor
 * that the arrow keys move along those links and the space bar selects (or
 * cancels with).
 */
module Menus {
  import opened Wrappers
  import opened Util

  /** A menu item: its key, whether selecting it means "cancel", and its neighbours' keys. */
  datatype MenuItem = MenuItem(key: string, isCancel: bool, neighbours: map<Direction, string>)

  /** The key a direction leads to; a missing or empty key leads nowhere. */
  function NeighbourKey(item: MenuItem, d: Direction): (r: Option<string>)
    ensures r.Some? <==> d in item.neighbours && item.neighbours[d] != ""
    ensures r.Some? ==> r.value == item.neighbours[d]
  {
    if d in item.neighbours && item.neighbours[d] != "" then Some(item.neighbours[d]) else None
  }

  /**
   * A `{ [key: string]: MenuItem }` object: `keys` as `Object.keys` lists
   * them, `items` what looking a key up finds.
   */
  datatype Table = Table(keys: seq<string>, items: map<string, MenuItem>)

  function KeysOf(list: seq<MenuItem>): (r: seq<string>)
    ensures |r| == |list| && forall i :: 0 <= i < |list| ==> r[i] == list[i].key
  {
    seq(|list|, i requires 0 <= i < |list| => list[i].key)
  }

  // ---------------------------------------------------------------------
  // Cyclic neighbour tables

  /** The position after `i` among `n`, wrapping to the first. */
  function Succ(i: nat, n: nat): (r: nat)
    requires i < n
    ensures r < n
  {
    if i == n - 1 then 0 else i + 1
  }

  /** The position before `i` among `n`, wrapping to the last. */
  function Pred(i: nat, n: nat): (r: nat)
    requires i < n
    ensures r < n
  {
    if i == 0 then n - 1 else i - 1
  }

  /** The wrap-around neighbours are the modular ones: (i + 1) mod n and (i - 1 + n) mod n. */
  lemma CyclicIsModular(i: nat, n: nat)
    requires i < n
    ensures Succ(i, n) == (i + 1) % n && Pred(i, n) == (i + n - 1) % n
  {
    if i == n - 1 {
      assert (i + 1) % n == 0 by { assert i + 1 == n; }
    } else {
      assert (i + 1) % n == i + 1;
    }
    if i == 0 {
      assert (i + n - 1) % n == n - 1;
    } else {
      assert (i + n - 1) % n == i - 1 by {
        assert i + n - 1 == (i - 1) + n;
      }
    }
  }

  lemma PredSucc(i: nat, n: nat)
    requires i < n
    ensures Pred(Succ(i, n), n) == i && Succ(Pred(i, n), n) == i
  {
  }

  /**
   * Item `i` of the list, its `back` and `forward` neighbours set to the
   * items before and after it, wrapping around; its other neighbours kept.
   */
  function Linked(list: seq<MenuItem>, i: nat, back: Direction, forward: Direction): MenuItem
    requires i < |list|
  {
    var before := if i == 0 then list[|list| - 1].key else list[i - 1].key;
    var after := if i == |list| - 1 then list[0].key else list[i + 1].key;
    list[i].(neighbours := list[i].neighbours[back := before][forward := after])
  }

  /**
   * A linked item keeps its key, cancel flag and other neighbours, and leads
   * `back` and `forward` to the items before and after it, wrapping around.
   */
  lemma LinkedShape(list: seq<MenuItem>, i: nat, back: Direction, forward: Direction)
    requires i < |list|
    ensures var r := Linked(list, i, back, forward);
      && r.key == list[i].key && r.isCancel == list[i].isCancel
      && back in r.neighbours && forward in r.neighbours
      && (back != forward ==>
            r.neighbours[back] == list[Pred(i, |list|)].key && r.neighbours[forward] == list[Succ(i, |list|)].key)
      && forall d :: d != back && d != forward ==>
           (d in r.neighbours <==> d in list[i].neighbours) &&
           (d in r.neighbours ==> r.neighbours[d] == list[i].neighbours[d])
  {
  }

  // ---------------------------------------------------------------------
  // The order in which JavaScript lists an object's keys

  /** The number a string of decimal digits spells (other characters count by their offset from '0'). */
  function DecimalValue(k: string): int
  {
    if k == [] then 0 else DecimalValue(k[..|k| - 1]) * 10 + (k[|k| - 1] as int - '0' as int)
  }

  predicate IsDigit(c: char) {
    '0' <= c <= '9'
  }

  /**
   * An array index: the decimal form, without leading zeros, of a number
   * below 2^32 - 1. Objects list such keys before all others.
   */
  predicate IsIndexKey(k: string) {
    && |k| > 0 && (forall i :: 0 <= i < |k| ==> IsDigit(k[i]))
    && (k[0] != '0' || |k| == 1)
    && DecimalValue(k) < 0xFFFF_FFFF
  }

  /** Array indices in ascending numeric order. */
  predicate Ascending(keys: seq<string>) {
    forall i, j :: 0 <= i < j < |keys| ==> DecimalValue(keys[i]) <= DecimalValue(keys[j])
  }

  /** `k` put into `sorted` before the first larger index. */
  function InsertIndex(k: string, sorted: seq<string>): (r: seq<string>)
    ensures |r| == |sorted| + 1 && (r[0] == k || (|sorted| > 0 && r[0] == sorted[0]))
    ensures multiset(r) == multiset(sorted) + multiset{k}
  {
    if sorted == [] || DecimalValue(k) <= DecimalValue(sorted[0]) then [k] + sorted
    else
      assert sorted == [sorted[0]] + sorted[1..];
      [sorted[0]] + InsertIndex(k, sorted[1..])
  }

  /** Inserting keeps the indices ascending. */
  lemma {:induction false} InsertAscending(k: string, sorted: seq<string>)
    requires Ascending(sorted)
    ensures Ascending(InsertIndex(k, sorted))
  {
    if sorted != [] && DecimalValue(k) > DecimalValue(sorted[0]) {
      var rest := InsertIndex(k, sorted[1..]);
      InsertAscending(k, sorted[1..]);
      var r := [sorted[0]] + rest;
      assert DecimalValue(sorted[0]) <= DecimalValue(rest[0]);
      forall i, j | 0 <= i < j < |r|
        ensures DecimalValue(r[i]) <= DecimalValue(r[j])
      {
        if i > 0 {
          assert r[i] == rest[i - 1] && r[j] == rest[j - 1];
        } else if j > 1 {
          assert DecimalValue(rest[0]) <= DecimalValue(rest[j - 1]);
        }
      }
    }
  }

  /** The array indices among `created`, ascending. */
  function IndexKeys(created: seq<string>): (r: seq<string>)
    ensures Ascending(r)
    ensures forall k :: k in multiset(r) ==> IsIndexKey(k)
  {
    if created == [] then []
    else
      var rest := IndexKeys(created[..|created| - 1]);
      var k := created[|created| - 1];
      if IsIndexKey(k) then InsertAscending(k, rest); InsertIndex(k, rest) else rest
  }

  /** The other keys among `created`, in creation order. */
  function NamedKeys(created: seq<string>): (r: seq<string>)
    ensures forall i :: 0 <= i < |r| ==> !IsIndexKey(r[i])
  {
    if created == [] then []
    else
      var rest := NamedKeys(created[..|created| - 1]);
      var k := created[|created| - 1];
      if IsIndexKey(k) then rest else rest + [k]
  }

  /**
   * `Object.keys` of an object whose own properties were created in the
   * order `created`: the array indices first, ascending, then the other keys
   * in the order they were created.
   */
  function ObjectKeys(created: seq<string>): (r: seq<string>)
  {
    IndexKeys(created) + NamedKeys(created)
  }

  /** Each created key is listed once, and nothing else is. */
  lemma {:induction false} ObjectKeysPermutes(created: seq<string>)
    ensures multiset(ObjectKeys(created)) == multiset(created)
  {
    if created != [] {
      var init := created[..|created| - 1];
      var k := created[|created| - 1];
      ObjectKeysPermutes(init);
      assert created == init + [k];
      var ix, named := IndexKeys(init), NamedKeys(init);
      assert multiset(ix) + multiset(named) == multiset(init);
      if IsIndexKey(k) {
        assert IndexKeys(created) == InsertIndex(k, ix) && NamedKeys(created) == named;
      } else {
        assert IndexKeys(created) == ix && NamedKeys(created) == named + [k];
      }
    }
  }

  /** The array indices come first, ascending; every other key comes after them. */
  lemma ObjectKeysOrder(created: seq<string>)
    ensures var r := ObjectKeys(created);
      forall i, j :: 0 <= i < j < |r| && IsIndexKey(r[j]) ==>
        IsIndexKey(r[i]) && DecimalValue(r[i]) <= DecimalValue(r[j])
  {
    var ix, named := IndexKeys(created), NamedKeys(created);
    var r := ix + named;
    forall i, j | 0 <= i < j < |r| && IsIndexKey(r[j])
      ensures IsIndexKey(r[i]) && DecimalValue(r[i]) <= DecimalValue(r[j])
    {
      assert j < |ix| && r[j] == ix[j] && r[i] == ix[i];
      assert ix[i] in multiset(ix);
    }
  }

  /** Without array indices, the keys are listed in creation order. */
  lemma {:induction false} ObjectKeysPlain(created: seq<string>)
    requires forall i :: 0 <= i < |created| ==> !IsIndexKey(created[i])
    ensures ObjectKeys(created) == created
  {
    if created != [] {
      var init := created[..|created| - 1];
      ObjectKeysPlain(init);
      assert created == init + [created[|created| - 1]];
    }
  }

  /** A key created first is listed after an array index created later. */
  lemma ObjectKeysExample()
    ensures ObjectKeys(["a", "1"]) == ["1", "a"]
  {
    var created := ["a", "1"];
    assert created[..1] == ["a"] && created[..1][..0] == [];
    assert "1"[..0] == "" && DecimalValue("1") == 1;
    assert IsIndexKey("1") && !IsIndexKey("a");
    assert IndexKeys(created) == ["1"];
    assert NamedKeys(created) == ["a"];
  }

  /** Assigning `acc["__proto__"]` sets the object's prototype and creates no key. */
  const ProtoKey := "__proto__"

  /**
   * The keys of the reduction's accumulator after the first `n` items, in
   * the order they were created: a repeated key keeps its first place.
   */
  function KeyOrder(list: seq<MenuItem>, n: nat): (r: seq<string>)
    requires n <= |list|
  {
    if n == 0 then []
    else
      var keys := KeyOrder(list, n - 1);
      if list[n - 1].key == ProtoKey || list[n - 1].key in keys then keys else keys + [list[n - 1].key]
  }

  /** `keys` less `"__proto__"`. */
  function OwnKeys(keys: seq<string>): (r: seq<string>)
    ensures forall i :: 0 <= i < |r| ==> r[i] != ProtoKey
    ensures |r| <= |keys|
  {
    if keys == [] then []
    else
      var rest := OwnKeys(keys[..|keys| - 1]);
      if keys[|keys| - 1] == ProtoKey then rest else rest + [keys[|keys| - 1]]
  }

  /** The accumulator's items after the first `n`: each linked and stored under its key. */
  function Stored(list: seq<MenuItem>, n: nat, back: Direction, forward: Direction): (r: map<string, MenuItem>)
    requires n <= |list|
  {
    if n == 0 then map[]
    else Stored(list, n - 1, back, forward)[list[n - 1].key := Linked(list, n - 1, back, forward)]
  }

  /** Every stored item has both of its cyclic neighbours. */
  lemma {:induction false} StoredLinks(list: seq<MenuItem>, n: nat, back: Direction, forward: Direction)
    requires n <= |list|
    ensures forall k :: k in Stored(list, n, back, forward) ==>
      back in Stored(list, n, back, forward)[k].neighbours && forward in Stored(list, n, back, forward)[k].neighbours
  {
    if n > 0 {
      StoredLinks(list, n - 1, back, forward);
      LinkedShape(list, n - 1, back, forward);
      var prev := Stored(list, n - 1, back, forward);
      var items := Stored(list, n, back, forward);
      assert items == prev[list[n - 1].key := Linked(list, n - 1, back, forward)];
      forall k | k in items
        ensures back in items[k].neighbours && forward in items[k].neighbours
      {
        if k != list[n - 1].key {
          assert items[k] == prev[k];
        }
      }
    }
  }

  /** The table `horizontalMenuItems` or `verticalMenuItems` builds, linking along `back`/`forward`. */
  function Cyclic(list: seq<MenuItem>, back: Direction, forward: Direction): (r: Table)
    ensures forall k :: k in r.items ==> back in r.items[k].neighbours && forward in r.items[k].neighbours
  {
    var items := Stored(list, |list|, back, forward);
    StoredLinks(list, |list|, back, forward);
    assert forall k :: k in items ==> back in items[k].neighbours && forward in items[k].neighbours;
    Table(ObjectKeys(KeyOrder(list, |list|)), items)
  }

  /** The table's items are the accumulator's. */
  lemma CyclicItems(list: seq<MenuItem>, back: Direction, forward: Direction)
    ensures Cyclic(list, back, forward).items == Stored(list, |list|, back, forward)
  {
  }

  function Horizontal(list: seq<MenuItem>): (r: Table)
    ensures forall k :: k in r.items ==> Left in r.items[k].neighbours && Right in r.items[k].neighbours
  {
    Cyclic(list, Left, Right)
  }

  function Vertical(list: seq<MenuItem>): (r: Table)
    ensures forall k :: k in r.items ==> Up in r.items[k].neighbours && Down in r.items[k].neighbours
  {
    Cyclic(list, Up, Down)
  }

  /** No two items of the list share a key. */
  predicate UniqueKeys(list: seq<MenuItem>) {
    forall i, j :: 0 <= i < j < |list| ==> list[i].key != list[j].key
  }

  /** Every key stored is the key of one of the first `n` items. */
  lemma {:induction false} StoredMember(list: seq<MenuItem>, n: nat, back: Direction, forward: Direction, k: string)
    returns (i: nat)
    requires n <= |list| && k in Stored(list, n, back, forward)
    ensures i < n && list[i].key == k
  {
    if k == list[n - 1].key {
      i := n - 1;
    } else {
      i := StoredMember(list, n - 1, back, forward, k);
    }
  }

  /** With unique keys, item `i` is stored, linked, under its own key. */
  lemma {:induction false} StoredItem(list: seq<MenuItem>, n: nat, back: Direction, forward: Direction, i: nat)
    requires i < n <= |list| && UniqueKeys(list)
    ensures var items := Stored(list, n, back, forward);
      list[i].key in items && items[list[i].key] == Linked(list, i, back, forward)
  {
    if i < n - 1 {
      StoredItem(list, n - 1, back, forward, i);
      var prev := Stored(list, n - 1, back, forward);
      assert list[i].key != list[n - 1].key;
      assert Stored(list, n, back, forward) == prev[list[n - 1].key := Linked(list, n - 1, back, forward)];
    }
  }

  /** With unique keys, every key but `"__proto__"` is created, in the list's order. */
  lemma {:induction false} KeyOrderUnique(list: seq<MenuItem>, n: nat)
    requires n <= |list| && UniqueKeys(list)
    ensures KeyOrder(list, n) == OwnKeys(KeysOf(list[..n]))
  {
    if n > 0 {
      KeyOrderUnique(list, n - 1);
      var keys := KeysOf(list[..n]);
      KeysOfPrefix(list, n);
      assert list[n - 1].key !in KeysOf(list[..n - 1]) by {
        assert forall j :: 0 <= j < n - 1 ==> KeysOf(list[..n - 1])[j] == list[j].key;
      }
      OwnKeysFrom(KeysOf(list[..n - 1]), list[n - 1].key);
    }
  }

  /** The keys of the first `n` items are those of the first `n - 1` and one more. */
  lemma KeysOfPrefix(list: seq<MenuItem>, n: nat)
    requires 0 < n <= |list|
    ensures var keys := KeysOf(list[..n]);
      keys[..n - 1] == KeysOf(list[..n - 1]) && keys[n - 1] == list[n - 1].key && |keys| == n
  {
  }

  /** A key that none of `keys` is, is not among their own keys. */
  lemma {:induction false} OwnKeysFrom(keys: seq<string>, k: string)
    requires k !in keys
    ensures k !in OwnKeys(keys)
  {
    if keys != [] {
      OwnKeysFrom(keys[..|keys| - 1], k);
    }
  }

  /**
   * The table lists a menu's keys as `Object.keys` does: the keys that are
   * array indices first, by value, then the others in the list's order;
   * `"__proto__"` is not listed.
   */
  lemma CyclicKeys(list: seq<MenuItem>, back: Direction, forward: Direction)
    requires UniqueKeys(list)
    ensures Cyclic(list, back, forward).keys == ObjectKeys(OwnKeys(KeysOf(list)))
  {
    KeyOrderUnique(list, |list|);
    assert list[..|list|] == list;
  }

  /** Without array-index keys or `"__proto__"`, the table lists the keys in the list's order. */
  lemma CyclicPlainKeys(list: seq<MenuItem>, back: Direction, forward: Direction)
    requires UniqueKeys(list)
    requires forall i :: 0 <= i < |list| ==> !IsIndexKey(list[i].key) && list[i].key != ProtoKey
    ensures Cyclic(list, back, forward).keys == KeysOf(list)
  {
    CyclicKeys(list, back, forward);
    OwnKeysPlain(KeysOf(list));
    ObjectKeysPlain(KeysOf(list));
  }

  /** Keys without `"__proto__"` are all own keys. */
  lemma {:induction false} OwnKeysPlain(keys: seq<string>)
    requires forall i :: 0 <= i < |keys| ==> keys[i] != ProtoKey
    ensures OwnKeys(keys) == keys
  {
    if keys != [] {
      OwnKeysPlain(keys[..|keys| - 1]);
    }
  }

  /** Where a key of a table built from a list with unique keys sits in the list. */
  lemma CyclicPosition(list: seq<MenuItem>, back: Direction, forward: Direction, k: string) returns (i: nat)
    requires UniqueKeys(list) && k in Cyclic(list, back, forward).items
    ensures i < |list| && list[i].key == k
    ensures Cyclic(list, back, forward).items[k] == Linked(list, i, back, forward)
  {
    i := StoredMember(list, |list|, back, forward, k);
    StoredItem(list, |list|, back, forward, i);
  }

  /**
   * Item `i` of a cyclic table leads `forward` to item (i + 1) mod n and
   * `back` to item (i - 1 + n) mod n.
   */
  lemma CyclicNeighbours(list: seq<MenuItem>, back: Direction, forward: Direction, i: nat)
    requires UniqueKeys(list) && back != forward && i < |list|
    ensures var t := Cyclic(list, back, forward);
      var n := |list|;
      && list[i].key in t.items
      && t.items[list[i].key].neighbours[forward] == list[(i + 1) % n].key
      && t.items[list[i].key].neighbours[back] == list[(i + n - 1) % n].key
  {
    CyclicItems(list, back, forward);
    StoredItem(list, |list|, back, forward, i);
    LinkedShape(list, i, back, forward);
    CyclicIsModular(i, |list|);
  }

  /** In a cyclic table, stepping `forward` and then `back` returns to the start, and the reverse. */
  lemma CyclicUndo(list: seq<MenuItem>, back: Direction, forward: Direction, k: string)
    requires UniqueKeys(list) && back != forward
    requires k in Cyclic(list, back, forward).items
    ensures var t := Cyclic(list, back, forward);
      && t.items[k].neighbours[forward] in t.items
      && t.items[t.items[k].neighbours[forward]].neighbours[back] == k
      && t.items[k].neighbours[back] in t.items
      && t.items[t.items[k].neighbours[back]].neighbours[forward] == k
  {
    var n := |list|;
    var i := CyclicPosition(list, back, forward, k);
    var s := Succ(i, n);
    var p := Pred(i, n);
    PredSucc(i, n);
    StoredItem(list, n, back, forward, s);
    StoredItem(list, n, back, forward, p);
    LinkedShape(list, i, back, forward);
    LinkedShape(list, s, back, forward);
    LinkedShape(list, p, back, forward);
  }

  /** In a horizontal menu LEFT undoes RIGHT and RIGHT undoes LEFT. */
  lemma HorizontalUndo(list: seq<MenuItem>, k: string)
    requires UniqueKeys(list) && k in Horizontal(list).items
    ensures var t := Horizontal(list);
      && t.items[k].neighbours[Right] in t.items
      && t.items[t.items[k].neighbours[Right]].neighbours[Left] == k
      && t.items[k].neighbours[Left] in t.items
      && t.items[t.items[k].neighbours[Left]].neighbours[Right] == k
  {
    CyclicUndo(list, Left, Right, k);
  }

  /** In a vertical menu UP undoes DOWN and DOWN undoes UP. */
  lemma VerticalUndo(list: seq<MenuItem>, k: string)
    requires UniqueKeys(list) && k in Vertical(list).items
    ensures var t := Vertical(list);
      && t.items[k].neighbours[Down] in t.items
      && t.items[t.items[k].neighbours[Down]].neighbours[Up] == k
      && t.items[k].neighbours[Up] in t.items
      && t.items[t.items[k].neighbours[Up]].neighbours[Down] == k
  {
    CyclicUndo(list, Up, Down, k);
  }

  // ---------------------------------------------------------------------
  // The menu's cursor

  /** A menu's state: its table, the cursor's key (or none) and whether input is paused. */
  datatype MenuState = MenuState(table: Table, cursor: Option<string>, inputPaused: bool)

  /** What the menu reports to its listeners. */
  datatype MenuEvent =
    | Focus(cursor: Option<string>, item: Option<MenuItem>, previous: Option<string>)
    | Selected(cursor: Option<string>, item: Option<MenuItem>)
    | Cancelled(cursor: Option<string>)

  /** The keys pressed since the last frame. */
  datatype Keys = Keys(space: bool, up: bool, down: bool, left: bool, right: bool)

  /** `currentItem`: the item under the cursor; an empty or unknown key names none. */
  function CurrentItem(s: MenuState): (r: Option<MenuItem>)
    ensures r.Some? <==> s.cursor.Some? && s.cursor.value != "" && s.cursor.value in s.table.items
    ensures r.Some? ==> r.value == s.table.items[s.cursor.value]
  {
    match s.cursor
    case None => None
    case Some(k) => if k != "" && k in s.table.items then Some(s.table.items[k]) else None
  }

  /** `Object.keys(menuItems)[0]`: the first key, if any. */
  function FirstKey(t: Table): (r: Option<string>)
    ensures r.Some? <==> |t.keys| > 0
    ensures r.Some? ==> r.value == t.keys[0]
  {
    if |t.keys| > 0 then Some(t.keys[0]) else None
  }

  /** `moveCursorTo`: the cursor goes to `key`, and the move is reported with the key it left. */
  function MovedTo(s: MenuState, key: Option<string>): (r: (MenuState, MenuEvent))
    ensures r.0 == s.(cursor := key)
    ensures r.1 == Focus(key, CurrentItem(r.0), s.cursor)
  {
    var moved := s.(cursor := key);
    (moved, Focus(key, CurrentItem(moved), s.cursor))
  }

  /** `setMenuItems`: the new table, and with `resetCursor` the cursor on its first key. */
  function WithItems(s: MenuState, table: Table, resetCursor: bool): (r: (MenuState, seq<MenuEvent>))
    ensures r.0.table == table && r.0.inputPaused == s.inputPaused
    ensures r.0.cursor == if resetCursor then FirstKey(table) else s.cursor
    ensures |r.1| == (if resetCursor then 1 else 0)
  {
    var s' := s.(table := table);
    if resetCursor then
      var (moved, e) := MovedTo(s', FirstKey(table));
      (moved, [e])
    else (s', [])
  }

  /**
   * `moveCursorInDirection`: the cursor follows the current item's link in
   * direction `d`, and nothing happens when there is no such link.
   */
  function InDirection(s: MenuState, d: Direction): (r: (MenuState, seq<MenuEvent>))
    ensures r.0.table == s.table && r.0.inputPaused == s.inputPaused
    ensures var item := CurrentItem(s);
      if item.Some? && NeighbourKey(item.value, d).Some? then
        r.0.cursor == NeighbourKey(item.value, d) && |r.1| == 1 && r.1[0].Focus? && r.1[0].previous == s.cursor
      else r.0 == s && r.1 == []
  {
    match CurrentItem(s)
    case None => (s, [])
    case Some(item) =>
      match NeighbourKey(item, d)
      case None => (s, [])
      case Some(k) =>
        var (moved, e) := MovedTo(s, Some(k));
        (moved, [e])
  }

  /**
   * `select(key)`: a non-empty `key` other than the cursor's is moved to
   * first; then the cursor and its item are reported as selected.
   */
  function Selection(s: MenuState, key: Option<string>): (r: (MenuState, seq<MenuEvent>))
    ensures r.0.table == s.table && r.0.inputPaused == s.inputPaused
    ensures r.0.cursor == if key.Some? && key.value != "" then key else s.cursor
    ensures |r.1| > 0 && r.1[|r.1| - 1] == Selected(r.0.cursor, CurrentItem(r.0))
    ensures key.None? ==> r.0 == s && |r.1| == 1
  {
    var (moved, events) :=
      if key.Some? && key.value != "" && s.cursor != key then
        var (m, e) := MovedTo(s, key); (m, [e])
      else (s, []);
    (moved, events + [Selected(moved.cursor, CurrentItem(moved))])
  }

  /**
   * `update`: nothing while input is paused or the table is empty;
   * otherwise only the first of space, up, down, left and right that was
   * pressed is handled. Space on a cancel item reports a cancel instead of
   * a selection.
   */
  function Updated(s: MenuState, keys: Keys): (r: (MenuState, seq<MenuEvent>))
    ensures |r.1| <= 1
    ensures r.0.table == s.table && r.0.inputPaused == s.inputPaused
  {
    if s.inputPaused || |s.table.keys| == 0 then (s, [])
    else if keys.space then
      var item := CurrentItem(s);
      if item.Some? && item.value.isCancel then (s, [Cancelled(s.cursor)])
      else Selection(s, None)
    else if keys.up then InDirection(s, Up)
    else if keys.down then InDirection(s, Down)
    else if keys.left then InDirection(s, Left)
    else if keys.right then InDirection(s, Right)
    else (s, [])
  }

  /** `update` does nothing while paused or with no items, whatever was pressed. */
  lemma UpdateIdle(s: MenuState, keys: Keys)
    requires s.inputPaused || |s.table.keys| == 0
    ensures Updated(s, keys) == (s, [])
  {
  }

  /**
   * One input per call, by priority: space hides every arrow, and each
   * arrow hides the ones after it in the order up, down, left, right.
   */
  lemma UpdatePriority(s: MenuState, keys: Keys)
    ensures keys.space ==> Updated(s, keys) == Updated(s, Keys(true, false, false, false, false))
    ensures !keys.space && keys.up ==> Updated(s, keys) == Updated(s, Keys(false, true, false, false, false))
    ensures !keys.space && !keys.up && keys.down ==>
      Updated(s, keys) == Updated(s, Keys(false, false, true, false, false))
    ensures !keys.space && !keys.up && !keys.down && keys.left ==>
      Updated(s, keys) == Updated(s, Keys(false, false, false, true, false))
  {
  }

  /** Space on the current item selects it, or cancels when it is a cancel item; the cursor stays. */
  lemma SpaceSelectsOrCancels(s: MenuState, keys: Keys)
    requires !s.inputPaused && |s.table.keys| > 0 && keys.space
    ensures Updated(s, keys).0 == s
    ensures var item := CurrentItem(s);
      Updated(s, keys).1 ==
        if item.Some? && item.value.isCancel then [Cancelled(s.cursor)] else [Selected(s.cursor, item)]
  {
  }

  /**
   * In a horizontal menu whose keys are distinct and non-empty, RIGHT then
   * LEFT brings the cursor back to the item it was on, and LEFT then RIGHT
   * too.
   */
  lemma RightThenLeft(list: seq<MenuItem>, s: MenuState)
    requires UniqueKeys(list) && forall i :: 0 <= i < |list| ==> list[i].key != ""
    requires s.table == Horizontal(list) && CurrentItem(s).Some?
    ensures InDirection(InDirection(s, Right).0, Left).0 == s
    ensures InDirection(InDirection(s, Left).0, Right).0 == s
  {
    var t := s.table;
    var k := s.cursor.value;
    HorizontalUndo(list, k);
    var r := t.items[k].neighbours[Right];
    var l := t.items[k].neighbours[Left];
    var ir := CyclicPosition(list, Left, Right, r);
    var il := CyclicPosition(list, Left, Right, l);
    assert r != "" && l != "";
  }

  /** The menu widget. */
  class Menu {
    var menuItems: Table
    var cursor: Option<string>
    var inputPaused: bool

    function State(): MenuState
      reads this
    {
      MenuState(menuItems, cursor, inputPaused)
    }

    /** A new menu: no cursor, input running, then the given items with the cursor on the first. */
    constructor(items: Option<Table>)
      ensures State() == if items.Some? then WithItems(MenuState(Table([], map[]), None, false), items.value, true).0
                         else MenuState(Table([], map[]), None, false)
    {
      menuItems := Table([], map[]);
      cursor := None;
      inputPaused := false;
      new;
      if items.Some? {
        var _ := SetMenuItems(items.value, true);
      }
    }

    method SetMenuItems(table: Table, resetCursor: bool) returns (events: seq<MenuEvent>)
      modifies this
      ensures (State(), events) == WithItems(old(State()), table, resetCursor)
    {
      menuItems := table;
      events := [];
      if resetCursor {
        var e := MoveCursorTo(FirstKey(table));
        events := [e];
      }
    }

    method MoveCursorTo(key: Option<string>) returns (event: MenuEvent)
      modifies this
      ensures (State(), event) == MovedTo(old(State()), key)
    {
      var oldCursor := cursor;
      cursor := key;
      event := Focus(cursor, CurrentItem(State()), oldCursor);
    }

    method MoveCursorInDirection(d: Direction) returns (events: seq<MenuEvent>)
      modifies this
      ensures (State(), events) == InDirection(old(State()), d)
    {
      events := [];
      var item := CurrentItem(State());
      if item.Some? {
        var next := NeighbourKey(item.value, d);
        if next.Some? {
          var e := MoveCursorTo(next);
          events := [e];
        }
      }
    }

    method Select(key: Option<string>) returns (events: seq<MenuEvent>)
      modifies this
      ensures (State(), events) == Selection(old(State()), key)
    {
      events := [];
      if key.Some? && key.value != "" && cursor != key {
        var e := MoveCursorTo(key);
        events := [e];
      }
      events := events + [Selected(cursor, CurrentItem(State()))];
    }

    method PauseInput()
      modifies this
      ensures State() == old(State()).(inputPaused := true)
    {
      inputPaused := true;
    }

    method ResumeInput()
      modifies this
      ensures State() == old(State()).(inputPaused := false)
    {
      inputPaused := false;
    }

    method Update(keys: Keys) returns (events: seq<MenuEvent>)
      modifies this
      ensures (State(), events) == Updated(old(State()), keys)
    {
      if inputPaused || |menuItems.keys| == 0 {
        return [];
      }
      if keys.space {
        var item := CurrentItem(State());
        if item.Some? && item.value.isCancel {
          events := [Cancelled(cursor)];
        } else {
          events := Select(None);
        }
      } else if keys.up {
        events := MoveCursorInDirection(Up);
      } else if keys.down {
        events := MoveCursorInDirection(Down);
      } else if keys.left {
        events := MoveCursorInDirection(Left);
      } else if keys.right {
        events := MoveCursorInDirection(Right);
      } else {
        events := [];
      }
    }
  }
}
