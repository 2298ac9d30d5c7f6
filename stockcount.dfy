/**
 * The stock counter shown beside the grid for one sphere type. Its count is
 * capped at 40 for display; the battle's own stock counters are not.
 */
module StockDisplay {

  /** The largest count the display shows. */
  const Cap: int := 40

  /** `Math.min(count, 40)`: the count as the display keeps it. */
  function Shown(count: int): (r: int)
    ensures r <= Cap
    ensures r == count || r == Cap
    ensures count <= Cap ==> r == count
  {
    if count < Cap then count else Cap
  }

  /** `StockCount`: one type's displayed count. */
  class StockCount {
    var count: int

    /** A new counter shows zero. */
    constructor()
      ensures count == 0
    {
      count := 0;
      new;
      SetCount(0);
    }

    /** `setCount`: the count becomes `value`, capped at 40. */
    method SetCount(value: int)
      modifies this
      ensures count == Shown(value)
    {
      count := Shown(value);
    }

    /** `modCount`: the count grows by `value`, capped at 40. */
    method ModCount(value: int)
      modifies this
      ensures count == Shown(old(count) + value)
    {
      SetCount(count + value);
    }

    /** The target count of `animateModCount`: the same cap applied to count plus `value`. */
    function ModTarget(value: int): (r: int)
      reads this
      ensures r <= Cap
      ensures count + value <= Cap ==> r == count + value
    {
      Shown(count + value)
    }
  }
}
