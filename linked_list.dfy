/** The ordered list of `src/Utility/LinkedList.ts`: a list object owning a JavaScript
    array of item handles, where every handle keeps a reference to that same array and
    derives its position and its neighbours from it on every query. */
module LinkedLists {
  import opened ArrayOps

  /** The JavaScript array `_items` that a list and the items created for it share.
      It is an object of its own because the list may rebind its field to a new array
      while items created earlier keep a reference to the old one. */
  class Backing<T> {
    var items: seq<Item<T>>

    constructor ()
      ensures items == []
    {
      items := [];
    }

    /** Every item in the array was created for this very array, and none occurs twice,
        which is what the list's own operations maintain. */
    ghost predicate Valid()
      reads this
    {
      (forall i :: 0 <= i < |items| ==> items[i].backing == this) && Distinct(items)
    }
  }

  /** `LinkedListItem<T>`: a value and the array the item was created for. The item
      stores nothing about its position. */
  class Item<T> {
    var value: T
    const backing: Backing<T>

    constructor (value: T, backing: Backing<T>)
      ensures this.value == value && this.backing == backing
    {
      this.value := value;
      this.backing := backing;
    }

    /** The `value` setter: only this item's value changes; the array, and with it the
        count, the order and every index, stay as they were. */
    method SetValue(v: T)
      modifies this
      ensures value == v
      ensures unchanged(backing)
      ensures Index() == old(Index())
    {
      value := v;
    }

    /** The `index` getter: identity lookup in the array. Under the array's invariant it is
        exactly the item's position. */
    function Index(): (r: int)
      reads backing
      ensures -1 <= r < |backing.items|
      ensures r == -1 <==> this !in backing.items
      ensures backing.Valid() ==>
        forall k :: 0 <= k < |backing.items| ==> (backing.items[k] == this <==> k == r)
    {
      IndexOf(backing.items, this)
    }

    /** The boolean `first` getter: the item is absent from its array or stands at its head. */
    predicate IsFirst()
      reads backing
      ensures IsFirst() <==> this !in backing.items || backing.items[0] == this
    {
      Index() <= 0
    }

    /** The boolean `last` getter: the item does not occur anywhere before the array's
        final position. */
    predicate IsLast()
      reads backing
      ensures IsLast() <==> |backing.items| == 0 || this !in backing.items[..|backing.items| - 1]
    {
      var index := Index();
      index < 0 || index >= |backing.items| - 1
    }

    /** The `previous` getter: null at the head (or when absent), otherwise the item in the
        position just before this one. */
    function Previous(): (r: Item?<T>)
      reads backing
      ensures r == null <==> IsFirst()
      ensures r != null ==> r in backing.items
      ensures backing.Valid() ==>
        forall k :: 0 <= k < |backing.items| && backing.items[k] == this ==>
          r == if k == 0 then null else backing.items[k - 1]
    {
      if IsFirst() then null else backing.items[Index() - 1]
    }

    /** The `next` getter: null at the tail (or when absent), otherwise the item in the
        position just after this one. */
    function Next(): (r: Item?<T>)
      reads backing
      ensures r == null <==> IsLast()
      ensures r != null ==> r in backing.items
      ensures backing.Valid() ==>
        forall k :: 0 <= k < |backing.items| && backing.items[k] == this ==>
          r == if k == |backing.items| - 1 then null else backing.items[k + 1]
    {
      if IsLast() then null else backing.items[Index() + 1]
    }
  }

  /** Stepping back and then forward returns to the same item. */
  lemma NextOfPrevious<T>(it: Item<T>)
    requires it.backing.Valid()
    ensures it.Previous() != null ==> it.Previous().backing == it.backing && it.Previous().Next() == it
  { }

  /** Stepping forward and then back returns to the same item. */
  lemma PreviousOfNext<T>(it: Item<T>)
    requires it.backing.Valid()
    ensures it.Next() != null ==> it.Next().backing == it.backing && it.Next().Previous() == it
  { }

  /** `LinkedList<T>`: owns its current array of items. */
  class LinkedList<T> {
    var backing: Backing<T>

    ghost predicate Valid()
      reads this, backing
    {
      backing.Valid()
    }

    /** The `count` getter: the length of the current array, one per item value, and,
        under the invariant, the number of distinct items the list holds. */
    function Count(): (n: nat)
      reads this, backing
      ensures n == |Values()|
      ensures Valid() ==> n == |set it | it in backing.items|
    {
      DistinctCardinality(backing.items);
      |backing.items|
    }

    /** The values of the items, in position order. */
    ghost function Values(): seq<T>
      reads this, backing, backing.items
    {
      var s := backing.items;
      seq(|s|, i requires 0 <= i < |s| reads s => s[i].value)
    }

    /** The `first` getter: null exactly when the list is empty, otherwise the head item,
        whose index is 0 and which has no previous item. */
    function First(): (r: Item?<T>)
      reads this, backing
      ensures r == null <==> Count() == 0
      ensures r != null ==> r == backing.items[0]
      ensures Valid() && r != null ==> r.Index() == 0 && r.IsFirst() && r.Previous() == null
    {
      if Count() == 0 then null else backing.items[0]
    }

    /** The `last` getter: null exactly when the list is empty, otherwise the tail item,
        whose index is `count - 1` and which has no next item. */
    function Last(): (r: Item?<T>)
      reads this, backing
      ensures r == null <==> Count() == 0
      ensures r != null ==> r == backing.items[Count() - 1]
      ensures Valid() && r != null ==> r.Index() == Count() - 1 && r.IsLast() && r.Next() == null
    {
      if Count() == 0 then null else backing.items[Count() - 1]
    }

    /** The constructor: a fresh array filled by `addLast` for each given value, in order. */
    constructor (xs: seq<T>)
      ensures Valid() && fresh(backing)
      ensures Count() == |xs| && Values() == xs
      ensures forall i :: 0 <= i < |xs| ==> fresh(backing.items[i])
    {
      backing := new Backing();
      new;
      if |xs| > 0 {
        for i := 0 to |xs|
          invariant Valid() && fresh(backing)
          invariant Count() == i && Values() == xs[..i]
          invariant forall j :: 0 <= j < i ==> fresh(backing.items[j])
        {
          var self := AddLast(xs[i]);
        }
      }
    }

    /** `addLast`: pushes a new item onto the shared array; earlier items keep their
        indices and the list itself is returned for chaining. */
    method AddLast(x: T) returns (self: LinkedList<T>)
      requires Valid()
      modifies backing
      ensures self == this && Valid()
      ensures Count() == old(Count()) + 1
      ensures backing.items[..old(Count())] == old(backing.items)
      ensures fresh(backing.items[old(Count())]) && backing.items[old(Count())].backing == backing
      ensures Values() == old(Values()) + [x]
      ensures Last() != null && Last().value == x
      ensures forall it :: it in old(backing.items) ==> it.Index() == old(it.Index())
    {
      ghost var before := backing.items;
      var item := new Item(x, backing);
      backing.items := backing.items + [item];
      self := this;
      assert backing.items[..|before|] == before;
      forall it | it in before ensures it.Index() == IndexOf(before, it) {
        IndexOfAppend(before, item, it);
      }
    }

    /** `addFirst`: unshifts a new item onto the shared array; it becomes the head with
        index 0, every earlier item's index grows by exactly one, and the list itself is
        returned for chaining. */
    method AddFirst(x: T) returns (self: LinkedList<T>)
      requires Valid()
      modifies backing
      ensures self == this && Valid()
      ensures Count() == old(Count()) + 1
      ensures backing.items[1..] == old(backing.items)
      ensures fresh(backing.items[0]) && backing.items[0].backing == backing
      ensures Values() == [x] + old(Values())
      ensures First() != null && First().value == x && First().Index() == 0
      ensures forall it :: it in old(backing.items) ==> it.Index() == old(it.Index()) + 1
    {
      ghost var before := backing.items;
      var item := new Item(x, backing);
      backing.items := [item] + backing.items;
      self := this;
      assert backing.items[1..] == before;
      forall it | it in before ensures it.Index() == IndexOf(before, it) + 1 {
        IndexOfPrepend(item, before, it);
      }
    }

    /** `clear`: rebinds the list to a fresh, empty array and returns the list. The old
        array is not touched, so items created before keep seeing it, with their indices
        and neighbours as they were. */
    method Clear() returns (self: LinkedList<T>)
      modifies this
      ensures self == this && Valid()
      ensures fresh(backing) && Count() == 0 && First() == null && Last() == null
      ensures old(backing).items == old(backing.items)
      ensures forall it :: it in old(backing.items) ==> it.backing != backing && it.Index() == old(it.Index())
      ensures old(Valid()) ==> forall it :: it in old(backing.items) ==> it.backing == old(backing)
    {
      backing := new Backing();
      self := this;
    }

    /** `each`: the items handed to the iteratee, one call per item, in position order. */
    method Each() returns (visited: seq<Item<T>>)
      ensures visited == backing.items
    {
      visited := [];
      var items := backing.items;
      for i := 0 to |items|
        invariant visited == items[..i]
      {
        visited := visited + [items[i]];
      }
    }
  }

  /** Chaining `addLast` and `addFirst`: after `addLast(a)` and then `addFirst(b)`,
      `b` heads the list with index 0 and no previous item, and `a` ends it with no next
      item. */
  method AddLastThenAddFirst<T>(a: T, b: T) returns (l: LinkedList<T>)
    ensures l.Valid() && l.Values() == [b, a]
    ensures l.First() != null && l.First().value == b && l.First().Index() == 0 && l.First().Previous() == null
    ensures l.Last() != null && l.Last().value == a && l.Last().Next() == null
  {
    l := new LinkedList([]);
    l := l.AddLast(a);
    l := l.AddFirst(b);
  }
}
