# object-changes-observer in Dafny

This project models the core of object-changes-observer, a TypeScript library that
watches a nested object or array for changes. It covers the `ChangesObserver`
session and the reversible change record `Changes`. The observer wraps every object
and array of a value in a surrogate. Each set or delete through a surrogate is
intercepted and does three things:

- it records an undo entry (a `Changes`) in the session's journal and performs the
  write on the raw target;
- it recomputes the node's `changed` flag by comparing the node's JSON
  serialisation with that of the shallow copy taken when the node was wrapped;
- it may publish a change event carrying the current change count.

`countChanges` counts dirty nodes under the `CountFields` strategy (the default) and
journal entries under `CountAllChanges`. `cancelChanges` reverses the journal newest
first and cleans every flag. `applyChanges` takes a deep copy of the current state
as the new original and wraps a second copy afresh.

The model is organised as follows:

- `json.dfy` (module `Json`): property keys (`Prop`: named keys and array indices
  kept apart) and JSON values, plus the fuel measure `FuelEnough`. `FuelEnough`
  says that a given depth suffices to serialise a value.
- `arena.dfy` (module `Arena`): JavaScript objects and arrays as nodes of an arena
  (`Heap`). Field values can be leaves, raw references (`Ref`) or surrogates
  (`Proxy`); a `Proxy` carries its `Handler`, which holds the saved copy and the
  `changed` flag. The module also holds `JSON.stringify` as `Ser`/`SerNode`, the
  spread copy `{...object}`, the dirtiness test `Differs`, and the relation
  `Denotes`, which says that a surrogate tree stands for a JSON value.
- `changes.dfy` (module `ChangeRecords`): the class `Changes`.
- `journal.dfy` (module `Journal`): the journal as a sequence of records and the
  proof that reversing it restores the arena it started from.
- `observer.dfy` (module `Observer`): the class `ChangesObserver`, its session
  invariant `Valid()` and its operations. The set and deleteProperty traps are the
  methods `HandleChange` and `DeleteProperty`. They take the handler whose trap
  fires.

Each trap, cancel and apply returns the events it published. The order follows
the calls on the three subjects `onChanges`, `onCanceled` and `onApplied`. The
session's id is a constructor parameter.

## Model

| member | source | states |
|---|---|---|
| ChangeRecords.Changes.constructor | src/changes.ts:4-11 | `before` is `target[prop]` as read before the write. The node then has `value` assigned to `prop`, or `prop` deleted when `value` is undefined. |
| ChangeRecords.Changes.Cancel | src/changes.ts:13-15 | Assigns `before` back to `target[prop]`, which is `Undo` of the record. |
| ChangeRecords.ConstructThenCancel | src/changes.ts:5-14 | Construct-then-cancel gives `target[prop]` back its old value. The node is exactly as before iff `prop` was present. Otherwise `prop` is now present and undefined. |
| ChangeRecords.CancelIdempotent | src/changes.ts:13-15 | Cancelling a record twice leaves the same arena as cancelling it once. |
| Arena.Write | src/changes.ts:6-10 | The write a record performs. Only `prop` of the target node changes. `prop` is present exactly when the value is defined, and it reads back as the value. |
| Arena.Assign | src/changes.ts:14 | A plain assignment. Only `prop` of the node changes, and it is present holding the value, even when that value is undefined. |
| Arena.WriteBack | src/changes.ts:5-14 | Writing a present, defined property back to its old value undoes any write to it. |
| Arena.Heap.Alloc | src/changes-observer.ts:125 | A new node gets a fresh id, and no existing node changes. |
| Arena.Handler.constructor | src/changes-observer.ts:149-154 | A new handler governs its node, starts clean and holds the given saved copy. |
| Arena.Ser | src/changes-observer.ts:137-138 | `JSON.stringify` of a field value: a leaf serialises to a leaf, never to an array or object. |
| Arena.SerNode | src/changes-observer.ts:137-138 | An array node serialises to a JSON array with `length` items. An object node serialises to a JSON object whose keys are exactly its properties that are not undefined. |
| Arena.SpreadCopy | src/changes-observer.ts:151 | `{...object}` copies every own property and its value. For an array it copies the indices but not `length`. |
| Arena.Differs | src/changes-observer.ts:137-140 | The saved copy of an array is an object literal, so an array node is always dirty after a trap. |
| Arena.SameDefinedMembersIsClean | src/changes-observer.ts:137-140 | An object whose properties read as those of its saved copy is clean after a trap. |
| Arena.SerOfDenoted | src/changes-observer.ts:75-76 | Serialising a surrogate tree gives back exactly the JSON value it was built from. This is the `JSON.stringify` half of the deep-copy round trip. |
| Journal.Undo | src/changes.ts:14 | Undoing a record changes only its property, which becomes present with the remembered value. |
| Journal.UndoAll | src/changes-observer.ts:58-60 | Reversing a journal keeps exactly the same nodes. |
| Journal.UndoStep | src/changes-observer.ts:58-60 | Undoing the newest record turns a state that restores the arena after that write into one that restores the arena before it. |
| Journal.UndoReplay | src/changes-observer.ts:58-60 | Reversing a whole consistent journal restores the arena it started from. |
| Journal.JournalAppend | src/changes-observer.ts:135 | Journaling a write whose `before` was read just before it keeps the journal describing the arena. |
| Journal.CancelRestores | src/changes-observer.ts:57-60 | Reversing a journal newest first gives back every node of the starting arena. Each property gets its old value, and each touched property that was absent is present and undefined. |
| Journal.RestoredReadsBack | src/changes.ts:14 | After that reversal every property of the starting arena reads as it did. |
| Journal.RestoresExactly | src/changes.ts:14 | A node is restored exactly iff no property absent from it was touched. |
| Observer.CountTrueIsCardinality | src/changes-observer.ts:107-113 | The CountFields count is the number of handlers whose flag is set. |
| Observer.CountTrueZero | src/changes-observer.ts:107-113 | The CountFields count is zero iff no flag is set. |
| Observer.CountTrueUpdate | src/changes-observer.ts:139-142 | Setting one flag moves the count by the flip of that flag. |
| Observer.ChangesObserver.constructor | src/changes-observer.ts:28-38 | The input must be an object, an array or null, since `Object.create` throws on anything else. The strategy defaults to CountFields. `original` is the input value. The surrogate stands for the input, and every surrogate in it carries one of the session's handlers. Every new node gets exactly one clean handler, and every handler is new. For an array or object, the surrogate's node is new. The journal is empty, its baseline is the current arena, and the count is 0. |
| Observer.ChangesObserver.Observe | src/changes-observer.ts:37 | Wrapping starts an empty journal over the new arena. The surrogate stands for the value and serialises back to it. Each surrogate in it carries one of the session's handlers. The handlers are exactly those made while wrapping: all new, one per new node. |
| Observer.ChangesObserver.StartValid | src/changes-observer.ts:20-21 | A fresh session with an empty journal and freshly wrapped handlers is valid and counts 0. |
| Observer.ChangesObserver.ChangeCount | src/changes-observer.ts:105-118 | The count under CountFields is the number of handler positions whose flag is set. Under CountAllChanges it is the journal length. |
| Observer.ChangesObserver.CountChanges | src/changes-observer.ts:105-118 | Returns the number of dirty handlers under CountFields, and the journal length under CountAllChanges. |
| Observer.ChangesObserver.HandleChange | src/changes-observer.ts:134-147 | Performs the write and appends exactly one record, also for `__id`. The flag of `h` becomes whether the serialised node differs from its saved copy; an `__id` write changes no flag. The count moves only by that flip, or by one under CountAllChanges. An event with the new count is published iff the property is not `__id` and either the strategy is CountAllChanges or the count moved. The session stays valid. The handler's node must have existed when the journal started. |
| Observer.ChangesObserver.Reclassify | src/changes-observer.ts:136-144 | Recomputes the flag of `h` and publishes the event by the strategy rule. |
| Observer.ChangesObserver.SetFlag | src/changes-observer.ts:139-140 | Returns the counts before and after the flag is set, and relates them. |
| Observer.ChangesObserver.CountAfterSet | src/changes-observer.ts:139-142 | Setting the flag of `h` changes the count by that flag's flip, and not at all when `h` is not one of the session's handlers. |
| Observer.ChangesObserver.AppendChange | src/changes-observer.ts:135 | The write is performed and one record is appended. The journal invariant is kept. The count grows by one under CountAllChanges only. |
| Observer.ChangesObserver.Push | src/changes-observer.ts:135 | `changes.push(new Changes(...))`: the new record holds the value read before the write. |
| Observer.ChangesObserver.DeleteProperty | src/changes-observer.ts:134-153 | A delete through a surrogate removes the property, so it reads as undefined; no other node or property changes. Exactly one record is appended, also for `__id`. The flag of `h` becomes whether the serialised node differs from its saved copy; an `__id` delete changes no flag. The count moves only by that flip, or by one under CountAllChanges. An event with value undefined is published by the same rule as for a set. The session stays valid. |
| Observer.ChangesObserver.CreateObject | src/changes-observer.ts:134-135 | Models an object literal in the caller's code, such as the value of `proxy.x = {a: 1}`. The trap stores such a value as given and does not wrap it. The new raw object gets a fresh node, and no other node changes. Nothing is journaled and the count is unchanged; the session stays valid. |
| Observer.ChangesObserver.SetRaw | src/changes-observer.ts:134-135 | Models a plain assignment in the caller's code through such a raw reference. It targets a node created after the journal started, and no trap runs. It assigns the property, appends no record, leaves the count unchanged, and keeps the session valid. |
| Observer.ChangesObserver.CancelChanges | src/changes-observer.ts:57-67 | The arena is the journal reversed newest first, and an empty journal changes nothing. The journal is emptied, with the restored arena as its new baseline, and all flags are clean, so the count is 0. Publishes a count-0 change event, then a cancel event. |
| Observer.ChangesObserver.CancelledIsBaseline | src/changes-observer.ts:57-60 | What that reversal leaves: every node as it was when the journal started, with absent touched properties now present and undefined. |
| Observer.ChangesObserver.Rewind | src/changes-observer.ts:58-60 | Reversing the journal keeps every handler's node in the arena. |
| Observer.ChangesObserver.UndoChanges | src/changes-observer.ts:58-60 | The loop over the reversed journal computes `UndoAll`. |
| Observer.ChangesObserver.ClearFlags | src/changes-observer.ts:61-63 | Every handler is clean afterwards. |
| Observer.ChangesObserver.StartJournal | src/changes-observer.ts:64-65 | With clean handlers, an emptied journal is valid, and the count it reports is 0. |
| Observer.ChangesObserver.ApplyChanges | src/changes-observer.ts:72-79 | `original` is the serialised current state. The new surrogate stands for it and serialises back to it, so it is structurally equal to the old state. Each surrogate in it carries one of the new handlers. For an array or object, its node is new. Journal and handlers are new: one handler per new node, each a new object. The journal's baseline is the new arena. The count is 0. Publishes a count-0 change event, then an applied event with the original and the surrogate. |
| Observer.ChangesObserver.CreateProxy | src/changes-observer.ts:123-158 | A leaf is returned unchanged, with no handler added and no node allocated. An array or object becomes a new surrogate that stands for it, and every surrogate in it carries one of the session's handlers. Each new node gets exactly one clean handler, and each handler added is a new object. |
| Observer.ChangesObserver.ProxyArray | src/changes-observer.ts:124-125 | An array becomes a surrogate over a new array node with the wrapped elements. |
| Observer.ChangesObserver.WrapItems | src/changes-observer.ts:125 | Element `i` of the new array stands for `items[i]`, and `length` is the number of items. |
| Observer.ChangesObserver.ProxyObject | src/changes-observer.ts:126-129 | An object becomes a surrogate over a new object node with the wrapped members. |
| Observer.ChangesObserver.WrapMembers | src/changes-observer.ts:127-129 | Has the same keys as the input, and each member stands for the input's member. |
| Observer.ChangesObserver.Wrap | src/changes-observer.ts:149-158 | Allocates the node and a clean handler whose saved copy is the node's spread copy. Pushes the handler and returns the surrogate. |

## Left out

- The JavaScript `Proxy` plumbing (src/changes-observer.ts:157). The `get` path is not modelled; a read through a surrogate is a read of the node. The traps are explicit method calls.
- The rxjs subjects and observables (src/changes-observer.ts:22-24, 84-100). Each operation returns the events it publishes instead.
- `uuid()` (src/changes-observer.ts:33): the id is a constructor parameter.
- `sha256`, `getHash` and the `async`/`await` in the trap (src/changes-observer.ts:137-138, 164-166). Hashing stands in for string equality, so the model compares serialisations directly. The flag update is atomic, and the race between pending hashes and later writes is not modelled.
- The getters `id`, `getProxy`, `valueChanged`, `changesApplied` and `changesCancelled` (src/changes-observer.ts:43-100). They only return fields.
- `Object.create(o)` in the constructor (src/changes-observer.ts:32). `original` holds the input value itself; the prototype link is never read.
- `JSON.parse` of the text: deep copies are taken on JSON trees, not strings. Numbers are integers, not IEEE doubles.
- Key order of JSON objects: members are maps. In JavaScript, deleting a key and adding it back moves it to the end, so the node stays dirty; the model calls it clean.
- Serialisation depth is bounded by fuel (the number of nodes ever allocated). Wrapping always builds a tree, so values shared between two places of the input are not modelled.
- Observer.ChangesObserver.HandleChange admits a write that closes a cycle, such as storing a surrogate under one of its own descendants. `Ser` then cuts the cycle at the fuel bound and returns a value, so the model computes a flag, moves the count and may publish. In the source, `JSON.stringify` throws on the cycle (src/changes-observer.ts:137-138). The write is still journaled and performed, but the trap stops before the flag update: no flag changes and nothing is published. A later `applyChanges` throws at line 75, after it has emptied the journal and the handlers. Observer.ChangesObserver.ApplyChanges does not model that throw.
- Observer.ChangesObserver.CreateProxy does not model reuse of the caller's own object in place (src/changes-observer.ts:127-128). The input is a JSON tree that is copied into new nodes. An object assigned later through a trap stays a raw `Ref` and is not wrapped (`CreateObject`, `SetRaw`), as in the source.
- Array semantics of `length`: an array is a map of index properties plus `length`. Writing an index beyond `length` does not grow it, and writing `length` does not truncate. `splice` and `push` appear only as the sequence of sets and deletes they perform. A value written to `length` is stored as given. In JavaScript, src/changes.ts:7 converts a number-like value (`"2"` becomes 2) or throws a RangeError, and then nothing is journaled, because the throw comes before the push at src/changes-observer.ts:135. Deleting `length` fails at src/changes.ts:9.
- Property keys: `Prop` keeps named keys (`Named`) and array indices (`Index`) apart. By convention a `Named` key is never a canonical index string such as `"0"`; in JavaScript `"0"` and the index 0 are the same key. The model does not enforce this, so a trap called with `Named("0")` on an array node writes a property that `SerNode` ignores.
- Observer.ChangesObserver.CancelledIsBaseline and Journal.CancelRestores hold for arrays only because the model has no implicit `length` update. In JavaScript, cancelling does not restore an array after a `push`, a write at an index at or beyond `length`, or a write that shortens `length`. The raw array changes `length` or drops elements itself, without a trap, so the `before` of a later record (or no record at all) misses the old value.
- Observer.ChangesObserver.SetRaw covers only nodes created after the journal started. A raw write to an older raw object, reached through a `Ref` stored before the journal started, also escapes the journal in the source; the model does not include it, because cancel could not restore it.
- Observer.ChangesObserver.HandleChange and Observer.ChangesObserver.DeleteProperty require that the handler's node existed when the journal started. This holds for every handler a session creates: handlers are made while wrapping, before the journal is reset.
- Handlers left over from before an `applyChanges` can still be trapped. `HandleChange` requires that the handler's node exists and belongs to the current journal's starting arena. Both hold for old handlers, because the starting arena includes every node allocated so far. Such a write is journaled, but the flag change does not move the count.
- Observer.ChangesObserver.CancelChanges states its result as the journal reversed (`UndoAll`). What that restores is stated by `CancelledIsBaseline` and `Journal.CancelRestores`, which hold for every session satisfying the invariant.
- `changes.reverse()` reverses the array in place. The journal is reset right after, so the model walks it backwards instead.
