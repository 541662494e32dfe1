/** Values of the shopping-list store.

    A line item is a record with an id, a count, a unit and an ingredient name. The store keeps an
    ordered sequence of them, written through to the 'items' slot of the browser's local storage.
    This module states the store's operations as functions on sequences of items, and the whole
    store (items plus slot) as a small state machine whose steps are the store's public calls.
 */
module ListModel {

  datatype Option<T> = None | Some(value: T)

  type Id = string

  /** One line of the shopping list. The count is whatever the caller passes in (a number or a
      string), so it is kept opaque as the type parameter C. */
  datatype Item<C> = Item(id: Id, count: C, unit: string, ingredient: string)

  /** The ids occurring in a list. */
  function Ids<C>(s: seq<Item<C>>): set<Id>
  {
    set k | 0 <= k < |s| :: s[k].id
  }

  /** No id occurs twice. */
  predicate DistinctIds<C>(s: seq<Item<C>>)
  {
    forall i, j :: 0 <= i < j < |s| ==> s[i].id != s[j].id
  }

  /** `items.findIndex(el => el.id === id)`: the index of the first item with this id, -1 if none. */
  function IndexOf<C>(s: seq<Item<C>>, id: Id): (r: int)
    ensures -1 <= r < |s|
    ensures r == -1 <==> id !in Ids(s)
    ensures 0 <= r ==> s[r].id == id && forall j :: 0 <= j < r ==> s[j].id != id
  {
    if s == [] then -1
    else if s[0].id == id then 0
    else
      var r := IndexOf(s[1..], id);
      assert Ids(s) == {s[0].id} + Ids(s[1..]) by { IdsCons(s); }
      if r == -1 then -1 else r + 1
  }

  lemma IdsCons<C>(s: seq<Item<C>>)
    requires s != []
    ensures Ids(s) == {s[0].id} + Ids(s[1..])
  {
  }

  /** The list without its first item carrying `id`; the list itself when no item carries it. */
  function RemoveFirst<C>(s: seq<Item<C>>, id: Id): (r: seq<Item<C>>)
    ensures id !in Ids(s) ==> r == s
    ensures id in Ids(s) ==> |r| == |s| - 1
    ensures multiset(r) <= multiset(s)
  {
    if s == [] then []
    else
      IdsCons(s);
      if s[0].id == id then
        assert s == [s[0]] + s[1..];
        s[1..]
      else
        var t := RemoveFirst(s[1..], id);
        assert s == [s[0]] + s[1..];
        [s[0]] + t
  }

  /** The list with the count of its first item carrying `id` replaced by `c`. */
  function SetCount<C>(s: seq<Item<C>>, id: Id, c: C): (r: seq<Item<C>>)
    requires id in Ids(s)
    ensures |r| == |s|
    ensures r[IndexOf(s, id)] == s[IndexOf(s, id)].(count := c)
    ensures forall k :: 0 <= k < |s| && k != IndexOf(s, id) ==> r[k] == s[k]
  {
    IdsCons(s);
    if s[0].id == id then [s[0].(count := c)] + s[1..]
    else [s[0]] + SetCount(s[1..], id, c)
  }

  /** What `readStorage` leaves in the list: the stored array when there is one (an empty array is
      truthy too), the current list when the slot is empty. */
  function Restore<C>(items: seq<Item<C>>, stored: Option<seq<Item<C>>>): (r: seq<Item<C>>)
    ensures stored.Some? ==> r == stored.value
    ensures stored.None? ==> r == items
  {
    match stored
    case None => items
    case Some(s) => s
  }

  // ----- Lemmas about the list functions -----

  /** `deleteItem` finds the index and splices one element out there: that is RemoveFirst, so the
      items before and after the removed one keep their order. */
  lemma {:induction false} RemoveFirstIsSplice<C>(s: seq<Item<C>>, id: Id)
    ensures IndexOf(s, id) > -1 ==>
      RemoveFirst(s, id) == s[..IndexOf(s, id)] + s[IndexOf(s, id) + 1..]
    ensures IndexOf(s, id) == -1 ==> RemoveFirst(s, id) == s
  {
    if s != [] && s[0].id != id {
      var t := s[1..];
      RemoveFirstIsSplice(t, id);
      var i := IndexOf(t, id);
      assert RemoveFirst(s, id) == [s[0]] + RemoveFirst(t, id);
      if i > -1 {
        assert IndexOf(s, id) == i + 1;
        SpliceCons(s, i);
      } else {
        assert IndexOf(s, id) == -1;
        assert [s[0]] + t == s;
      }
    }
  }

  lemma SpliceCons<C>(s: seq<Item<C>>, i: nat)
    requires i + 1 < |s|
    ensures s[..i + 1] + s[i + 2..] == [s[0]] + (s[1..][..i] + s[1..][i + 1..])
  {
  }

  /** Appending an item with a fresh id and then deleting that id gives back the original list. */
  lemma {:induction false} RemoveFirstAfterAppend<C>(s: seq<Item<C>>, x: Item<C>)
    requires x.id !in Ids(s)
    ensures RemoveFirst(s + [x], x.id) == s
  {
    if s == [] {
      assert [] + [x] == [x];
    } else {
      IdsCons(s);
      assert (s + [x])[1..] == s[1..] + [x];
      RemoveFirstAfterAppend(s[1..], x);
      assert s == [s[0]] + s[1..];
    }
  }

  /** On a list with distinct ids, deleting an id removes it altogether and keeps the ids distinct. */
  lemma RemoveFirstDistinct<C>(s: seq<Item<C>>, id: Id)
    requires DistinctIds(s)
    ensures DistinctIds(RemoveFirst(s, id))
    ensures Ids(RemoveFirst(s, id)) == Ids(s) - {id}
  {
    RemoveFirstIsSplice(s, id);
    var i := IndexOf(s, id);
    if i > -1 {
      SpliceDistinct(s, i);
      assert s[i].id == id;
    } else {
      assert RemoveFirst(s, id) == s && id !in Ids(s);
      assert Ids(s) - {id} == Ids(s);
    }
  }

  /** Splicing out the item at index i of a list with distinct ids removes exactly its id. */
  lemma SpliceDistinct<C>(s: seq<Item<C>>, i: nat)
    requires i < |s| && DistinctIds(s)
    ensures DistinctIds(s[..i] + s[i + 1..])
    ensures Ids(s[..i] + s[i + 1..]) == Ids(s) - {s[i].id}
  {
    var r := s[..i] + s[i + 1..];
    assert |r| == |s| - 1;
    assert forall k :: 0 <= k < |r| ==> r[k] == s[if k < i then k else k + 1];
    forall x | x in Ids(r) ensures x in Ids(s) - {s[i].id} {
      var k :| 0 <= k < |r| && r[k].id == x;
      assert s[if k < i then k else k + 1].id == x;
    }
    forall x | x in Ids(s) - {s[i].id} ensures x in Ids(r) {
      var k :| 0 <= k < |s| && s[k].id == x;
      assert r[if k < i then k else k - 1].id == x;
    }
  }

  /** Deleting never adds an id. */
  lemma RemoveFirstIds<C>(s: seq<Item<C>>, id: Id)
    ensures Ids(RemoveFirst(s, id)) <= Ids(s)
  {
    RemoveFirstIsSplice(s, id);
    var i := IndexOf(s, id);
    if i > -1 {
      var r := s[..i] + s[i + 1..];
      forall x | x in Ids(r) ensures x in Ids(s) {
        var k :| 0 <= k < |r| && r[k].id == x;
        assert s[if k < i then k else k + 1].id == x;
      }
    }
  }

  /** With distinct ids, deleting the same id twice is the same as deleting it once. */
  lemma DeleteIdempotent<C>(s: seq<Item<C>>, id: Id)
    requires DistinctIds(s)
    ensures RemoveFirst(RemoveFirst(s, id), id) == RemoveFirst(s, id)
  {
    RemoveFirstDistinct(s, id);
  }

  /** Setting a count changes no id, unit or ingredient, and so keeps each item's position. */
  lemma SetCountKeepsIds<C>(s: seq<Item<C>>, id: Id, c: C)
    requires id in Ids(s)
    ensures Ids(SetCount(s, id, c)) == Ids(s)
    ensures IndexOf(SetCount(s, id, c), id) == IndexOf(s, id)
    ensures DistinctIds(s) ==> DistinctIds(SetCount(s, id, c))
  {
    var r := SetCount(s, id, c);
    assert forall k :: 0 <= k < |s| ==> r[k].id == s[k].id;
    assert Ids(r) == Ids(s) by {
      forall x | x in Ids(r) ensures x in Ids(s) {
        var k :| 0 <= k < |r| && r[k].id == x;
      }
      forall x | x in Ids(s) ensures x in Ids(r) {
        var k :| 0 <= k < |s| && s[k].id == x;
        assert r[k].id == x;
      }
    }
  }

  /** Two count updates of the same item: the last one wins. */
  lemma SetCountLastWins<C>(s: seq<Item<C>>, id: Id, a: C, b: C)
    requires id in Ids(s)
    ensures id in Ids(SetCount(s, id, a))
    ensures SetCount(SetCount(s, id, a), id, b) == SetCount(s, id, b)
  {
  }

  // ----- The store as a state machine -----

  /** The in-memory list together with the 'items' slot of local storage (None when the key is
      absent). */
  datatype ListState<C> = ListState(items: seq<Item<C>>, stored: Option<seq<Item<C>>>)

  /** The store's public calls: `addItem` (carrying the id the id generator produced for it),
      `deleteItem`, `updateCount`, `persistData` and `readStorage`. */
  datatype Op<C> =
    | Add(id: Id, count: C, unit: string, ingredient: string)
    | Delete(id: Id)
    | Update(id: Id, count: C)
    | Persist
    | Reload

  /** A call the source can complete: `updateCount` throws when `find` returns undefined, that is
      when `findIndex` finds no item carrying the id. */
  predicate Enabled<C>(st: ListState<C>, op: Op<C>)
    ensures Enabled(st, op) <==> !op.Update? || IndexOf(st.items, op.id) != -1
  {
    op.Update? ==> op.id in Ids(st.items)
  }

  /** A call that writes the whole list through to the slot. */
  predicate WritesThrough<C>(op: Op<C>)
  {
    op.Add? || op.Delete? || op.Persist?
  }

  /** The effect of one call. Adding, deleting and persisting leave the slot holding exactly the
      list; a count update and a read leave the slot as it was, and a count update keeps the ids;
      a read from a filled slot leaves the list equal to it. */
  function Step<C>(st: ListState<C>, op: Op<C>): (r: ListState<C>)
    requires Enabled(st, op)
    ensures WritesThrough(op) ==> InSync(r)
    ensures !WritesThrough(op) ==> r.stored == st.stored
    ensures op.Reload? && st.stored.Some? ==> InSync(r)
    ensures op.Reload? && st.stored.None? ==> r == st
    ensures op.Update? ==> |r.items| == |st.items| && Ids(r.items) == Ids(st.items)
    ensures op.Add? ==> Ids(r.items) == Ids(st.items) + {op.id}
    ensures op.Delete? ==> Ids(r.items) <= Ids(st.items)
  {
    match op
    case Add(id, c, u, g) =>
      var items := st.items + [Item(id, c, u, g)];
      AppendIds(st.items, Item(id, c, u, g));
      ListState(items, Some(items))
    case Delete(id) =>
      var items := RemoveFirst(st.items, id);
      RemoveFirstIds(st.items, id);
      ListState(items, Some(items))
    case Update(id, c) =>
      SetCountKeepsIds(st.items, id, c);
      ListState(SetCount(st.items, id, c), st.stored)
    case Persist => ListState(st.items, Some(st.items))
    case Reload => ListState(Restore(st.items, st.stored), st.stored)
  }

  /** Every call of the sequence can complete in the state its predecessors leave. */
  predicate Runnable<C>(st: ListState<C>, ops: seq<Op<C>>)
    decreases |ops|
  {
    ops == [] || (Enabled(st, ops[0]) && Runnable(Step(st, ops[0]), ops[1..]))
  }

  function Run<C>(st: ListState<C>, ops: seq<Op<C>>): ListState<C>
    requires Runnable(st, ops)
    decreases |ops|
  {
    if ops == [] then st else Run(Step(st, ops[0]), ops[1..])
  }

  /** The slot holds exactly the in-memory list. */
  ghost predicate InSync<C>(st: ListState<C>)
  {
    st.stored == Some(st.items)
  }

  /** Every call except a count update keeps the slot equal to the list. */
  lemma {:induction false} RunKeepsSync<C>(st: ListState<C>, ops: seq<Op<C>>)
    requires Runnable(st, ops) && InSync(st)
    requires forall k :: 0 <= k < |ops| ==> !ops[k].Update?
    ensures InSync(Run(st, ops))
    decreases |ops|
  {
    if ops != [] {
      RunKeepsSync(Step(st, ops[0]), ops[1..]);
    }
  }

  /** After any nonempty sequence of additions, deletions and explicit writes, whatever the starting state, the
      slot holds exactly the in-memory list. */
  lemma {:induction false} WritesLeaveSlotInSync<C>(st: ListState<C>, ops: seq<Op<C>>)
    requires ops != []
    requires forall k :: 0 <= k < |ops| ==> WritesThrough(ops[k])
    ensures Runnable(st, ops)
    ensures InSync(Run(st, ops))
    decreases |ops|
  {
    var next := Step(st, ops[0]);
    if |ops| > 1 {
      WritesLeaveSlotInSync(next, ops[1..]);
    }
  }

  /** A count update is not written through: once it changes the count, the slot no longer matches
      the list, and reading storage afterwards brings back the state before the update. */
  lemma UpdateIsLostOnReload<C>(st: ListState<C>, id: Id, c: C)
    requires InSync(st) && id in Ids(st.items)
    ensures Runnable(st, [Update(id, c), Reload])
    ensures st.items[IndexOf(st.items, id)].count != c ==> !InSync(Step(st, Update(id, c)))
    ensures Run(st, [Update(id, c), Reload]) == st
  {
    var i := IndexOf(st.items, id);
    var after := Step(st, Update(id, c));
    assert after.items[i].count == c;
    assert Run(st, [Update(id, c), Reload]) == Run(after, [Reload]);
  }

  /** Reading storage twice in a row is the same as reading it once. */
  lemma ReloadIdempotent<C>(st: ListState<C>)
    ensures Runnable(st, [Reload, Reload])
    ensures Run(st, [Reload, Reload]) == Step(st, Reload)
  {
    var once := Step(st, Reload);
    assert Run(st, [Reload, Reload]) == Run(once, [Reload]);
  }

  /** Adding an item with a fresh id and deleting it again leaves the list as it was, with the slot
      holding it. */
  lemma AddThenDelete<C>(st: ListState<C>, id: Id, c: C, u: string, g: string)
    requires id !in Ids(st.items)
    ensures Runnable(st, [Add(id, c, u, g), Delete(id)])
    ensures Run(st, [Add(id, c, u, g), Delete(id)]) == ListState(st.items, Some(st.items))
  {
    var mid := Step(st, Add(id, c, u, g));
    RemoveFirstAfterAppend(st.items, Item(id, c, u, g));
    assert Run(st, [Add(id, c, u, g), Delete(id)]) == Run(mid, [Delete(id)]);
  }

  /** Ids are distinct in memory and in the slot. */
  predicate UniqueIds<C>(st: ListState<C>)
  {
    DistinctIds(st.items) && (st.stored.Some? ==> DistinctIds(st.stored.value))
  }

  /** The generator's id for an addition does not occur in the list yet. */
  predicate FreshId<C>(st: ListState<C>, op: Op<C>)
  {
    op.Add? ==> op.id !in Ids(st.items)
  }

  /** Appending an item adds exactly its id. */
  lemma AppendIds<C>(s: seq<Item<C>>, x: Item<C>)
    ensures Ids(s + [x]) == Ids(s) + {x.id}
  {
    var r := s + [x];
    forall y | y in Ids(r) ensures y in Ids(s) + {x.id} {
      var k :| 0 <= k < |r| && r[k].id == y;
      if k < |s| { assert s[k].id == y; }
    }
    forall y | y in Ids(s) ensures y in Ids(r) {
      var k :| 0 <= k < |s| && s[k].id == y;
      assert r[k].id == y;
    }
    assert r[|s|].id == x.id;
  }

  /** Appending an item whose id is fresh keeps the ids distinct. */
  lemma AppendFreshDistinct<C>(s: seq<Item<C>>, x: Item<C>)
    requires DistinctIds(s) && x.id !in Ids(s)
    ensures DistinctIds(s + [x])
    ensures Ids(s + [x]) == Ids(s) + {x.id}
  {
    var r := s + [x];
    forall i, j | 0 <= i < j < |r| ensures r[i].id != r[j].id {
      if j == |s| { assert s[i].id in Ids(s); }
    }
    AppendIds(s, x);
  }

  /** Every call keeps the ids distinct, provided an addition gets a fresh id. */
  lemma StepKeepsUniqueIds<C>(st: ListState<C>, op: Op<C>)
    requires Enabled(st, op) && UniqueIds(st) && FreshId(st, op)
    ensures UniqueIds(Step(st, op))
  {
    match op
    case Add(id, c, u, g) => AppendFreshDistinct(st.items, Item(id, c, u, g));
    case Delete(id) => RemoveFirstDistinct(st.items, id);
    case Update(id, c) => SetCountKeepsIds(st.items, id, c);
    case Persist =>
    case Reload =>
  }

  /** Each addition of the sequence gets an id that is fresh in the state it runs in. */
  predicate FreshIds<C>(st: ListState<C>, ops: seq<Op<C>>)
    requires Runnable(st, ops)
    decreases |ops|
  {
    ops == [] || (FreshId(st, ops[0]) && FreshIds(Step(st, ops[0]), ops[1..]))
  }

  /** Over any run whose additions get fresh ids, the ids stay distinct. */
  lemma {:induction false} RunKeepsUniqueIds<C>(st: ListState<C>, ops: seq<Op<C>>)
    requires Runnable(st, ops) && FreshIds(st, ops) && UniqueIds(st)
    ensures UniqueIds(Run(st, ops))
    decreases |ops|
  {
    if ops != [] {
      StepKeepsUniqueIds(st, ops[0]);
      RunKeepsUniqueIds(Step(st, ops[0]), ops[1..]);
    }
  }
}
