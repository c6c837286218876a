# multi_vector in Dafny

A model of `MultiVector<T>` from the Rust crate `multi_vector`, with proofs
about it. A MultiVector holds a set of named BumpyVectors. A BumpyVector is
a fixed-capacity store of entries, each occupying a non-overlapping span
`[index, index + size)`. Entries are inserted in groups. Every entry of a
group is wrapped in a `MultiEntry` that stores:

- its own vector's name;
- the caller's data;
- the link record of the group, which is the ordered list of the
  `(vector, index)` coordinates of all its members.

Removing any member of a group removes the whole group. Unlinking a member
splits it off into a group of its own.

Files:

- `wrappers.dfy`: `Option` and `Result`.
- `bumpy_vector.dfy` (module `Bumpy`): the contract of the external
  `bumpy_vector` crate, as a value type with its invariant. It covers
  insert with its three refusals, point lookup, removal, an in-place
  payload write, the entry count and the capacity.
- `registry.dfy` (module `Registry`): the registry as a value (vector name
  to store). It gives the pure meaning of each state-changing operation:
  - `InsertEach`/`InsertGroup` for a group insert;
  - `RemoveLinks` for removal along a list of coordinates;
  - `Unlink`/`Detach`/`Relink` for unlinking;
  - `TotalLen` for the total entry count.
  It also proves the facts that hold of every registry, among them the
  all-or-nothing insert and the exact rollback.
- `groups.dfy` (module `Groups`): the group invariant `Consistent`, and what
  each operation does to it.
- `multi_vector.dfy` (module `MultiVectors`): the `MultiVector` class. Its
  one field, `vectors`, is updated in place by the methods, with the source's
  loops. Each method is proved to leave exactly the registry that its pure
  counterpart computes. The public operations (`CreateVector`,
  `DestroyVector`, `InsertEntries`, `InsertEntry`, `UnlinkEntry`,
  `RemoveEntries`) also keep `Consistent`. The internal helpers
  (`ForceRemove`, `Rollback`, `WriteLinks`, `RemoveEach`) make no such
  promise: run on part of a group, they can leave records pointing at
  removed or relinked entries.

`Consistent` states that every stored entry:

- names its own vector;
- has its own start coordinate in its record;
- has a record without repeats;
- has a record whose every coordinate is the start offset of an entry
  carrying the very same record.

The source never states this invariant. It is what `insert_entries`
establishes and what `unlink_entry` and `remove_entries` rely on.

## Model

| member | source | states |
|---|---|---|
| MultiVectors.MultiVector.constructor | src/lib.rs:155-159 | A new instance has no vectors; it is valid and consistent. |
| MultiVectors.MultiVector.CreateVector | src/lib.rs:186-194 | If the name is taken: DuplicateName, state unchanged. Otherwise an empty store of capacity `max_size` is added under the name, the vector count grows by one, the total entry count is unchanged, and consistency is kept. |
| Groups.CreateConsistent | src/lib.rs:186-194 | Adding an empty vector under a new name keeps every group consistent. |
| MultiVectors.MultiVector.DestroyVector | src/lib.rs:231-245 | A missing vector gives UnknownVector and a non-empty one gives NotEmpty, both with state unchanged. Otherwise it returns the capacity and removes exactly that vector: one fewer vector, same total entry count, consistency kept. |
| Groups.DestroyConsistent | src/lib.rs:231-245 | Dropping an empty vector keeps every group consistent, since no record can point into it. |
| Registry.RemoveLinks | src/lib.rs:250-259 | Removes along the coordinates in order. It keeps the same vector names, valid stores and every capacity, and returns one slot per coordinate. The slots are those the removal loop of `remove_entries` (lines 562-571) collects. |
| Registry.RemoveOne | src/lib.rs:252-257 | One removal step. The slot is the entry covering the coordinate, or None for an unknown vector or an uncovered offset. On None nothing changes; otherwise only that vector changes, its count drops by one, and every capacity is kept. It is also the step of `remove_entries` at lines 564-569, pushing the removed entry or None. |
| MultiVectors.MultiVector.ForceRemove | src/lib.rs:250-259 | The new state is the removal along the coordinates, in order. Unknown vectors and uncovered offsets are skipped. |
| Registry.References | src/lib.rs:310-312 | One coordinate per item, in item order, each the item's vector name and offset. |
| Registry.Wrap | src/lib.rs:329-337 | The stored entry has the item's offset, size and data, its own vector's name, and the group's record. |
| Registry.InsertEach | src/lib.rs:314-351 | The insert loop. An empty item list succeeds with the registry unchanged. A failure is UnknownVector or the store's refusal. On success every store stays valid. |
| Registry.InsertGroup | src/lib.rs:307-351 | The whole `insert_entries`: the loop run with the group's references. Same guarantees as InsertEach. |
| MultiVectors.MultiVector.InsertEntries | src/lib.rs:307-354 | Ok exactly when the group insert succeeds, and then the state is the inserted registry. On the first refusal it returns that error (UnknownVector, or the store's refusal) and the state is exactly as before. Consistency is kept. |
| MultiVectors.MultiVector.Rollback | src/lib.rs:319-324 | Removing the coordinates recorded in `backtrack` restores the registry as it was before the call. |
| Registry.RollbackRestores | src/lib.rs:314-351 | If a registry extends another by entries at distinct recorded coordinates, removing those coordinates gives back the original exactly. |
| Registry.InsertEachExtends | src/lib.rs:314-351 | A successful insert loop extends the registry by exactly the group's coordinates. |
| Groups.InsertGroupEffect | src/lib.rs:307-354 | After a successful insert, each item is found at its coordinate with its own vector name, its data, and the full ordered coordinate list as record. Older entries are untouched, the total count grows by the number of items, and an empty group changes nothing. |
| Groups.InsertGroupOkIff | src/lib.rs:314-351 | The insert succeeds iff every item names an existing vector, is non-empty, fits, overlaps no stored entry, and overlaps no other item of the same vector. |
| Registry.InsertableSucceeds | src/lib.rs:314-351 | Insertable items are inserted without a refusal. |
| Registry.SucceedsInsertable | src/lib.rs:314-351 | A group insert that succeeds had insertable items. |
| Groups.InsertGroupConsistent | src/lib.rs:307-354 | A successful group insert keeps the registry consistent. |
| Groups.InsertThenRemove | src/lib.rs:934-991 | Removing a freshly inserted group gives back the registry as it was before the insert. It returns the items, in insertion order, as stored. Every item's group is the full coordinate list. |
| MultiVectors.MultiVector.InsertEntry | src/lib.rs:359-361 | Same as a group insert of the single item. |
| MultiVectors.MultiVector.UnlinkEntry | src/lib.rs:404-433 | A missing vector gives UnknownVector and an uncovered offset gives EntryNotFound, both with state unchanged. Otherwise the state is the unlinked registry. Consistency is kept. |
| Registry.Unlink | src/lib.rs:404-433 | A missing vector gives UnknownVector and an uncovered offset gives EntryNotFound. It succeeds exactly when the vector exists and an entry covers the offset. On success every store keeps its layout (same names, offsets and sizes). |
| Registry.Detach | src/lib.rs:406-430 | The successful case of Unlink. Every store stays valid and keeps its layout. |
| Registry.Relink | src/lib.rs:425-430 | Writing a record into each covered coordinate in turn keeps every store valid and keeps the layout. |
| MultiVectors.MultiVector.WriteLinks | src/lib.rs:424-430 | Each entry covering a coordinate of the list gets the new record, in list order. |
| Registry.Without | src/lib.rs:413-417 | The order-keeping filter of the source. Its contract states that the filtered list holds exactly the other coordinates, and is the list itself when the coordinate is absent. It keeps a list without repeats free of repeats, and is one shorter when the coordinate occurred. |
| Groups.UnlinkEffect | src/lib.rs:404-433 | On a consistent registry, unlink cannot hit the panicking lookups, and it succeeds. The detached entry's record becomes its own start coordinate alone. Every other member gets the old record without that coordinate. No data, vector name, span or other entry changes. |
| Groups.UnlinkConsistent | src/lib.rs:404-433 | Unlink keeps a consistent registry consistent. |
| Groups.UnlinkThenRemove | src/lib.rs:993-1040 | After unlinking a member of an N-member group, the detached entry's group is itself alone and removing it removes one entry. Removing at any remaining member removes N − 1 entries. |
| Registry.Lookup | src/lib.rs:449-451 | Some exactly when the vector exists and one of its entries covers the offset; that entry is returned. |
| MultiVectors.MultiVector.GetEntry | src/lib.rs:449-451 | Returns what Registry.Lookup returns on the current registry. |
| Registry.GroupOf | src/lib.rs:495-501 | A missing vector gives UnknownVector and an uncovered offset gives EntryNotFound. Otherwise it returns the record of the covering entry. It is also the first step of `remove_entries` at lines 553-559. |
| MultiVectors.MultiVector.GetEntries | src/lib.rs:494-509 | Read-only. A missing vector gives UnknownVector and an uncovered offset gives EntryNotFound. Otherwise there is one slot per coordinate of the entry's record, in order, each the entry covering that coordinate. |
| Groups.GetGroupConsistent | src/lib.rs:494-509 | On a consistent registry every slot is Some: it is the member starting at that coordinate, in that vector, carrying the same record. |
| MultiVectors.MultiVector.RemoveEntries | src/lib.rs:552-574 | The errors are those of GetEntries, with state unchanged. Otherwise it returns one slot per coordinate of the record, removes along the record, and lowers the total count by the number of Some slots. Consistency is kept. |
| MultiVectors.MultiVector.RemoveEach | src/lib.rs:562-571 | State and slots equal the removal along the list. An unknown vector or an uncovered offset yields None. |
| Registry.RemoveLinksLen | src/lib.rs:562-571 | The total entry count drops by exactly the number of entries removed. |
| Groups.RemoveGroupConsistent | src/lib.rs:552-574 | On a consistent registry, every slot is Some and is the member at that coordinate, whose record is the group. The total drops by the group's size, every other entry stays in place, and the registry stays consistent. |
| Groups.RecordsShared | src/lib.rs:310-336 | On a consistent registry two entries that share a coordinate share their whole record, so groups are disjoint. |
| MultiVectors.MultiVector.VectorCount | src/lib.rs:577-579 | Zero exactly when there are no vectors. CreateVector and DestroyVector state how it changes. |
| MultiVectors.MultiVector.VectorExists | src/lib.rs:582-584 | True exactly when the vector's length and capacity are known. |
| MultiVectors.MultiVector.LenVector | src/lib.rs:587-591 | Some exactly when the vector exists, holding its number of entries. |
| MultiVectors.MultiVector.MaxSizeVector | src/lib.rs:594-598 | Some exactly when the vector exists, holding its capacity. |
| MultiVectors.MultiVector.Len | src/lib.rs:601-603 | Returns the total number of entries over all vectors. |
| Registry.TotalLenPick | src/lib.rs:601-603 | The total does not depend on which vector is summed first. |
| Registry.TotalLenZero | src/lib.rs:601-603 | The total is zero exactly when every vector is empty. |
| Bumpy.New | src/lib.rs:191 | A new store is valid, empty, and has the requested capacity. |
| Bumpy.BumpyVector.LenZero | src/lib.rs:237 | The count checked by `destroy_vector` (and reported by `len_vector` at line 590) is zero exactly when the store holds no entry. |
| Bumpy.BumpyVector.Insert | src/lib.rs:340-346 | Succeeds exactly when the entry is non-empty, fits the capacity and overlaps nothing. It then adds exactly that entry, keeps the others, and raises the count by one. |
| Bumpy.BumpyVector.Get | src/lib.rs:407 | Some exactly when an entry covers the offset; that entry is stored under its start. It is also the lookup of `get_entry`, `get_entries` and `remove_entries` at lines 450, 496 and 554. |
| Bumpy.BumpyVector.Remove | src/lib.rs:566 | Returns what Get returns. It removes exactly that entry and lowers the count by one, or changes nothing. It is also the removal `_force_remove` performs at line 254. |
| Bumpy.BumpyVector.Replace | src/lib.rs:429 | Rewrites only the payload of the entry covering the offset; every span is unchanged. |

## Left out

- Serialization (the optional `serde` derives) is not modelled.
- Error messages are not modelled: errors are a datatype naming the failure and its vector and offset. The store's own refusal is carried as `InsertFailed(vector, cause)`.
- Registry.TotalLen is a definition (the sum of the per-vector counts); its properties are stated by `TotalLenPick`, `TotalLenZero` and `MultiVector.Len`.
- HashMap iteration order is not modelled. `Len` sums in an arbitrary order, and the total is proved independent of that order.
- `usize` overflow of offsets, sizes and counts is not modelled: integers are unbounded.
- The `bumpy_vector` crate is not part of this model. `Bumpy` states only the behaviour the linking layer relies on. The order of the three insert refusals (zero size, past the end, overlap) is a modelling choice; the error reported for a refused item may differ from the crate's.
- MultiVectors.MultiVector.UnlinkEntry: the `unwrap` calls of its relink loop panic when a coordinate of the record is not covered. The model requires instead that every coordinate is covered (`UnlinkResolves`). `Groups.UnlinkEffect` proves this always holds on a consistent registry.
- MultiVectors.MultiVector.DestroyVector: the "disappeared" branch after the emptiness check cannot be reached, because the vector was found just before. The model has no such branch.
- References versus copies: `get_entry` and `get_entries` return borrowed entries; the model returns the entry values.
