/**
 * The trackable-items table: adding an item for a user, and listing one
 * user's item names in creation order.
 */
module ItemService {
  import opened Wrappers
  import opened Db

  /** A row of the trackable-items table. */
  datatype TrackableItem = TrackableItem(item_id: nat, user_id: nat, item_name: string, created_at: int)

  /** `WHERE user_id = $1`: the user's rows, in table order. */
  function OwnItems(items: seq<TrackableItem>, userId: nat): (own: seq<TrackableItem>)
    ensures forall x :: x in own <==> x in items && x.user_id == userId
    ensures forall x :: multiset(own)[x] == if x.user_id == userId then multiset(items)[x] else 0
  {
    if items == [] then []
    else
      var last := items[|items| - 1];
      assert items == items[..|items| - 1] + [last];
      OwnItems(items[..|items| - 1], userId) + (if last.user_id == userId then [last] else [])
  }

  /** Rows in ascending `created_at` order. */
  predicate SortedByTime(items: seq<TrackableItem>) {
    forall i, j :: 0 <= i < j < |items| ==> items[i].created_at <= items[j].created_at
  }

  /** Inserts `x` into sorted rows after every row created no later than it. */
  function InsertByTime(x: TrackableItem, sorted: seq<TrackableItem>): (r: seq<TrackableItem>)
    requires SortedByTime(sorted)
    ensures SortedByTime(r)
    ensures multiset(r) == multiset(sorted) + multiset{x}
  {
    if sorted == [] then [x]
    else
      var init, last := sorted[..|sorted| - 1], sorted[|sorted| - 1];
      if last.created_at <= x.created_at then sorted + [x]
      else
        assert sorted == init + [last];
        var front := InsertByTime(x, init);
        forall i | 0 <= i < |front| ensures front[i].created_at <= last.created_at {
          assert front[i] in multiset(init) + multiset{x};
          if front[i] != x {
            assert front[i] in init;
          }
        }
        front + [last]
  }

  /**
   * `ORDER BY created_at ASC`: a sorted permutation of the rows. Rows created
   * at the same instant keep their table order.
   */
  function SortByTime(items: seq<TrackableItem>): (r: seq<TrackableItem>)
    ensures SortedByTime(r)
    ensures multiset(r) == multiset(items)
  {
    if items == [] then []
    else
      var init := items[..|items| - 1];
      assert items == init + [items[|items| - 1]];
      InsertByTime(items[|items| - 1], SortByTime(init))
  }

  function Names(items: seq<TrackableItem>): (names: seq<string>)
    ensures |names| == |items|
    ensures forall k :: 0 <= k < |items| ==> names[k] == items[k].item_name
  {
    seq(|items|, k requires 0 <= k < |items| => items[k].item_name)
  }

  /** The rows `getItems` returns: the user's rows in ascending `created_at` order. */
  function ListedItems(items: seq<TrackableItem>, userId: nat): (listed: seq<TrackableItem>)
    ensures SortedByTime(listed)
    ensures multiset(listed) == multiset(OwnItems(items, userId))
    ensures forall x :: multiset(listed)[x] == if x.user_id == userId then multiset(items)[x] else 0
  {
    SortByTime(OwnItems(items, userId))
  }

  /** What `getItems` lists: the names of the listed rows. */
  function ItemNames(items: seq<TrackableItem>, userId: nat): (names: seq<string>)
    ensures |names| == |ListedItems(items, userId)|
    ensures forall k :: 0 <= k < |names| ==> names[k] == ListedItems(items, userId)[k].item_name
  {
    Names(ListedItems(items, userId))
  }

  /**
   * The listing holds exactly the user's rows, each as often as in the
   * table, and no other user's; it is in ascending `created_at` order.
   */
  lemma ListedItemsSpec(items: seq<TrackableItem>, userId: nat)
    ensures var listed := ListedItems(items, userId);
            && SortedByTime(listed)
            && multiset(listed) == multiset(OwnItems(items, userId))
            && (forall x :: x in listed <==> x in items && x.user_id == userId)
            && (forall x :: multiset(listed)[x] == if x.user_id == userId then multiset(items)[x] else 0)
  {
    var listed := ListedItems(items, userId);
    forall x ensures x in listed <==> x in OwnItems(items, userId) {
      assert x in listed <==> x in multiset(listed);
      assert x in OwnItems(items, userId) <==> x in multiset(OwnItems(items, userId));
    }
  }

  /** A row created after every existing row goes to the end of the sorted rows. */
  lemma InsertLatest(x: TrackableItem, sorted: seq<TrackableItem>)
    requires SortedByTime(sorted)
    requires forall y :: y in sorted ==> y.created_at < x.created_at
    ensures InsertByTime(x, sorted) == sorted + [x]
  {
    if sorted != [] {
      assert sorted[|sorted| - 1] in sorted;
    }
  }

  /**
   * With a clock later than every row's creation time, a user's new item is
   * listed last, after the user's earlier items in their order.
   */
  lemma AddedItemListedLast(items: seq<TrackableItem>, x: TrackableItem)
    requires forall y :: y in items ==> y.created_at < x.created_at
    ensures ListedItems(items + [x], x.user_id) == ListedItems(items, x.user_id) + [x]
    ensures ItemNames(items + [x], x.user_id) == ItemNames(items, x.user_id) + [x.item_name]
  {
    var own := OwnItems(items, x.user_id);
    assert (items + [x])[..|items|] == items;
    assert OwnItems(items + [x], x.user_id) == own + [x];
    assert (own + [x])[..|own|] == own;
    var sorted := SortByTime(own);
    forall y | y in sorted ensures y.created_at < x.created_at {
      assert y in multiset(sorted);
    }
    InsertLatest(x, sorted);
    NamesSnoc(sorted, x);
  }

  /** Another user's new item does not change a user's listing. */
  lemma OtherUsersListingUnchanged(items: seq<TrackableItem>, x: TrackableItem, userId: nat)
    requires x.user_id != userId
    ensures ItemNames(items + [x], userId) == ItemNames(items, userId)
  {
    var more := items + [x];
    assert more[..|more| - 1] == items;
    assert more[|more| - 1] == x;
    var own := OwnItems(items, userId);
    assert OwnItems(more, userId) == own + [];
    assert own + [] == own;
  }

  lemma NamesSnoc(items: seq<TrackableItem>, x: TrackableItem)
    ensures Names(items + [x]) == Names(items) + [x.item_name]
  {
  }

  /** Item ids increase along the table and stay below `bound`. */
  predicate IncreasingItemIds(items: seq<TrackableItem>, bound: nat) {
    items == []
    || (var last := items[|items| - 1];
        last.item_id < bound && IncreasingItemIds(items[..|items| - 1], last.item_id))
  }

  /** The trackable-items table; `now` is the database clock. */
  class ItemTable {
    var items: seq<TrackableItem>
    var nextId: nat  // the next value of the item_id serial

    ghost predicate Valid()
      reads this
    {
      IncreasingItemIds(items, nextId)
    }

    constructor ()
      ensures Valid() && items == []
    {
      items := [];
      nextId := 1;
    }

    /** `addItem`: one new row for the user with that name, or the insert's error with nothing changed. */
    method AddItem(userId: nat, itemName: string, now: int, dbFails: bool) returns (r: Result<TrackableItem, DbError>)
      requires Valid()
      modifies this
      ensures Valid()
      ensures r.Success? <==> NameInsertError(itemName, dbFails).None?
      ensures r.Success? ==>
                && r.value == TrackableItem(old(nextId), userId, itemName, now)
                && items == old(items) + [r.value]
                && nextId == old(nextId) + 1
      ensures r.Failure? ==>
                && r.error == NameInsertError(itemName, dbFails).value
                && items == old(items) && nextId == old(nextId)
    {
      var err := NameInsertError(itemName, dbFails);
      if err.Some? {
        return Failure(err.value);
      }
      var item := TrackableItem(nextId, userId, itemName, now);
      assert (items + [item])[..|items|] == items;
      items, nextId := items + [item], nextId + 1;
      r := Success(item);
    }

    /** `getItems`: the user's item names in creation order, or the query's error. */
    method GetItems(userId: nat, dbFails: bool) returns (r: Result<seq<string>, DbError>)
      ensures r == if dbFails then Failure(StoreFailure) else Success(ItemNames(items, userId))
    {
      if dbFails {
        return Failure(StoreFailure);
      }
      r := Success(ItemNames(items, userId));
    }
  }
}
