# Shopping-list store of the forky recipe app

This project models the shopping-list store of the forky recipe app, the `List` class in
`starter/src/js/modules/List.js`, and proves what it does. The store keeps an ordered array of
line items `{id, count, unit, ingredient}`. It appends an item with a freshly generated id. It
removes the first item with a given id. It sets the count of the first item with a given id. It
copies the whole array into the `'items'` key of the browser's local storage after every addition,
deletion and explicit `persistData` call, and it can replace the array wholesale with what that key
holds.

The project has two modules:

- `ListModel` (`list_model.dfy`) holds the values. It has the item record, the `findIndex` search
  (`IndexOf`), removal of the first match (`RemoveFirst`), the count update (`SetCount`) and the
  storage read-back (`Restore`). It also has the whole store as a state machine: `ListState` is
  the list plus its storage slot, `Op` is a public call, and `Step`/`Run` apply calls. The
  lemmas about single operations and about sequences of calls live here.
- `ShoppingList` (`shopping_list.dfy`) holds the object. `List` is a class whose `items` field
  its methods reassign in place. `Storage` stands for local storage's `'items'` key. Every
  method states its new state directly and also as `Step(old(State()), op)`, so the lemmas
  about sequences of calls apply to the object too.

The environment becomes parameters:

- The `uniqid()` call becomes the `id` parameter of `AddItem`. Whether it is fresh is a
  hypothesis of the distinct-ids guarantees, not a precondition.
- Local storage becomes a `Storage` object passed to the constructor. It holds `Some(array)`
  when the key is set and `None` when it is absent.
- An item's `count` is an opaque type parameter `C`, because the store never looks at it.

## Behaviour worth noting

- `updateCount` with an id that no item carries throws (List.js:37): `find` returns `undefined` and the assignment to its `count` fails. So `UpdateCount` requires a match, and `Enabled` excludes that call from runs.
- `updateCount` does not write through (List.js:36-38): it never calls `persistData`, so the slot goes stale. `UpdateIsLostOnReload` proves this: after a changed count, slot and list differ, and reading storage brings back the old count.

## Model

| member | source | states |
|---|---|---|
| `ShoppingList.List.constructor` | starter/src/js/modules/List.js:4-6 | a new list has no items and leaves storage untouched |
| `ShoppingList.List.AddItem` | starter/src/js/modules/List.js:8-22 | appends exactly one item carrying the generated id, count, unit and ingredient and keeps every earlier item; returns that item, which is the new last element; the slot then holds exactly the list; with a fresh id, distinct ids stay distinct and the id set grows by that id |
| `ShoppingList.List.DeleteItem` | starter/src/js/modules/List.js:24-34 | the list becomes the old one without its first item carrying the id (one shorter if there was one, unchanged if none); the slot is rewritten with the list in both cases |
| `ShoppingList.List.UpdateCount` | starter/src/js/modules/List.js:36-38 | requires a matching item (otherwise the source throws); only the count of the first matching item becomes the new count, its id, unit and ingredient stay, every other item is unchanged, the length is unchanged and the slot is not written |
| `ShoppingList.List.PersistData` | starter/src/js/modules/List.js:40-42 | the slot holds exactly the current list, and the list is unchanged |
| `ShoppingList.List.ReadStorage` | starter/src/js/modules/List.js:44-51 | when the slot holds an array (an empty one included) the list becomes that array; when the key is absent the list is unchanged; the slot is not written |
| `ListModel.IndexOf` | starter/src/js/modules/List.js:25 | the result is -1 exactly when no item carries the id, and otherwise the index of an item carrying it with no earlier item carrying it |
| `ListModel.RemoveFirst` | starter/src/js/modules/List.js:25-29 | the list is unchanged when no item carries the id, and otherwise one shorter; the result is a sub-multiset of the list |
| `ListModel.SetCount` | starter/src/js/modules/List.js:37 | same length; the first matching item gets the new count and keeps its other fields; every other item is unchanged |
| `ListModel.Restore` | starter/src/js/modules/List.js:45-50 | a slot that holds an array (an empty one included) becomes the list; an absent key leaves the list as it was |
| `ListModel.Enabled` | starter/src/js/modules/List.js:37 | a call can complete unless it is a count update for an id that `findIndex` does not find, which is exactly when `find` returns undefined and the assignment throws |
| `ListModel.Step` | starter/src/js/modules/List.js:8-51 | adding, deleting and persisting leave the slot holding exactly the list; a count update and a read leave the slot unchanged; a count update keeps the length and the id set; an addition adds exactly its id; a deletion adds none; a read from a filled slot leaves list and slot equal, and from an absent key changes nothing |
| `ListModel.ReloadIdempotent` | starter/src/js/modules/List.js:44-51 | reading storage twice in a row gives the same state as reading it once |
| `ListModel.RemoveFirstIsSplice` | starter/src/js/modules/List.js:25-29 | the findIndex-then-splice of the source is the removal of the first match: the items before and after it stay, in order, and a miss leaves the list unchanged |
| `ListModel.RemoveFirstAfterAppend` | starter/src/js/modules/List.js:16-28 | appending an item with a fresh id and then deleting that id gives back the original list |
| `ListModel.RemoveFirstDistinct` | starter/src/js/modules/List.js:24-29 | on a list with distinct ids, deleting an id removes it from the id set entirely and leaves the ids distinct |
| `ListModel.DeleteIdempotent` | starter/src/js/modules/List.js:24-29 | on a list with distinct ids, deleting the same id twice equals deleting it once |
| `ListModel.SetCountKeepsIds` | starter/src/js/modules/List.js:36-38 | a count update keeps the id set, the position of the matching item and the distinctness of the ids |
| `ListModel.SetCountLastWins` | starter/src/js/modules/List.js:36-38 | two count updates of the same id equal the last one alone |
| `ListModel.AppendFreshDistinct` | starter/src/js/modules/List.js:9-16 | appending an item whose id does not occur keeps the ids distinct and adds exactly that id |
| `ListModel.RunKeepsSync` | starter/src/js/modules/List.js:8-51 | once the slot equals the list, any sequence of calls without a count update keeps it equal |
| `ListModel.WritesLeaveSlotInSync` | starter/src/js/modules/List.js:8-42 | after any nonempty sequence of additions, deletions and explicit `persistData` calls, from any state, the slot holds exactly the in-memory list |
| `ListModel.UpdateIsLostOnReload` | starter/src/js/modules/List.js:36-51 | from a state whose slot matches the list, a count update that changes the count leaves the slot stale, and reading storage afterwards restores the state before the update |
| `ListModel.AddThenDelete` | starter/src/js/modules/List.js:8-34 | adding an item with a fresh id and deleting it again leaves the list as it was, with the slot holding it |
| `ListModel.StepKeepsUniqueIds` | starter/src/js/modules/List.js:8-51 | each call keeps the ids distinct in the list and in the slot, provided an addition gets a fresh id |
| `ListModel.RunKeepsUniqueIds` | starter/src/js/modules/List.js:8-51 | over any sequence of calls whose additions get fresh ids, the ids stay distinct in the list and in the slot |

## Left out

- How `uniqid` makes ids, at List.js line 1 and line 10: it is a foreign library. It becomes the `id` parameter of `AddItem`, and its uniqueness is a hypothesis of the distinct-ids guarantees.
- JSON serialisation at List.js lines 41 and 45: the slot holds a sequence of items, not text. Serialisation is taken to be lossless, so the model does not capture that a `NaN`, `Infinity` or `-Infinity` count would read back as `null`. It also does not capture a slot holding JSON that is neither an array nor `null`.
- Storage failures: storage writes and reads are assumed not to throw. In the source, `localStorage.setItem` (List.js:41) can throw when the quota is full or storage is disabled. It would do so after the `push` (List.js:16) or the `splice` (List.js:28), leaving list and slot out of step; the model's `AddItem` and `DeleteItem` always complete with the two equal. `JSON.parse` (List.js:45) throwing on text that is not JSON is not modelled either.
- Object identity: items are values, not objects. A caller holding the item that `addItem` returned does not see a later `updateCount` of that item, though in the source it would, through the shared object.
- `starter/src/js/modules/Search.js`: an HTTP request and an alert, with no logic of its own.
- `starter/src/js/index.js`: DOM wiring and rendering. This includes delete-all, which drops the list and removes the storage key, and the like toggle and servings guard, which rely on the recipe and likes modules.
- The recipe and likes modules that `index.js` imports are not part of this model.
