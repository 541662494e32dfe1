/** The shopping-list store as an object: the `List` class, whose `items` field its methods update
    in place, and the local-storage slot that `addItem`, `deleteItem` and `persistData` write the
    list through to.
    Each method states its new state directly, and also as one step of the state machine in
    ListModel, so that the lemmas there about sequences of calls apply to the object as well.
 */
module ShoppingList {
  import opened ListModel

  /** The browser's local storage, reduced to the one key the list uses, 'items'. It holds
      a whole array of items, or nothing when the key is absent. The JSON text it really holds is
      not modelled: an item reads back as it was written. */
  class Storage<C> {
    var items: Option<seq<Item<C>>>

    constructor (initial: Option<seq<Item<C>>>)
      ensures items == initial
    {
      items := initial;
    }
  }

  class List<C> {
    var items: seq<Item<C>>
    const storage: Storage<C>

    /** The list and its slot, as a value of the state machine. */
    ghost function State(): ListState<C>
      reads this, storage
    {
      ListState(items, storage.items)
    }

    /** A new list is empty; making it does not touch storage. */
    constructor (storage: Storage<C>)
      ensures items == [] && this.storage == storage
    {
      this.items := [];
      this.storage := storage;
    }

    /** Appends a new item with the generator's id `id` and the given fields, writes the list
        through to storage and returns the item it appended. */
    method AddItem(id: Id, count: C, unit: string, ingredient: string) returns (item: Item<C>)
      modifies this, storage
      ensures item == Item(id, count, unit, ingredient)
      ensures items == old(items) + [item]
      ensures storage.items == Some(items)
      ensures State() == Step(old(State()), Add(id, count, unit, ingredient))
      ensures old(DistinctIds(items)) && id !in old(Ids(items)) ==>
        DistinctIds(items) && Ids(items) == old(Ids(items)) + {id}
    {
      item := Item(id, count, unit, ingredient);
      ghost var freshId := DistinctIds(items) && id !in Ids(items);
      if freshId {
        AppendFreshDistinct(items, item);
      }
      items := items + [item];
      PersistData();
    }

    /** Removes the first item carrying `id`, if any, and writes the list through to storage
        (also when nothing was removed). */
    method DeleteItem(id: Id)
      modifies this, storage
      ensures items == RemoveFirst(old(items), id)
      ensures id in old(Ids(items)) ==> |items| == old(|items|) - 1
      ensures id !in old(Ids(items)) ==> items == old(items)
      ensures storage.items == Some(items)
      ensures State() == Step(old(State()), Delete(id))
    {
      var index := IndexOf(items, id);
      RemoveFirstIsSplice(items, id);
      if index > -1 {
        items := items[..index] + items[index + 1..];
      }
      PersistData();
    }

    /** Sets the count of the first item carrying `id`. The source dereferences the result of
        `find` without a check, so calling it with an id no item carries throws: that is the
        precondition. Storage is not written. */
    method UpdateCount(id: Id, newCount: C)
      requires id in Ids(items)
      modifies this
      ensures items == SetCount(old(items), id, newCount)
      ensures |items| == old(|items|)
      ensures items[IndexOf(old(items), id)] == old(items[IndexOf(items, id)]).(count := newCount)
      ensures forall k :: 0 <= k < |items| && k != IndexOf(old(items), id) ==> items[k] == old(items[k])
      ensures storage.items == old(storage.items)
      ensures State() == Step(old(State()), Update(id, newCount))
    {
      var index := IndexOf(items, id);
      ghost var expected := SetCount(items, id, newCount);
      items := items[index := items[index].(count := newCount)];
      assert items == expected;
    }

    /** Writes the whole list to the 'items' slot. */
    method PersistData()
      modifies storage
      ensures storage.items == Some(items)
      ensures State() == Step(old(State()), Persist)
    {
      storage.items := Some(items);
    }

    /** Replaces the list wholesale with the stored array when the slot holds one (an empty array
        included); leaves it alone when the key is absent. */
    method ReadStorage()
      modifies this
      ensures storage.items.Some? ==> items == storage.items.value
      ensures storage.items.None? ==> items == old(items)
      ensures storage.items == old(storage.items)
      ensures State() == Step(old(State()), Reload)
    {
      var stored := storage.items;
      if stored.Some? {
        items := stored.value;
      }
    }
  }
}
