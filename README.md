# active_repository, modelled in Dafny

ActiveRepository gives a model class one interface for two kinds of storage.
A class either persists in memory, in ActiveHash's class-level table, or it
delegates to a model class, an ActiveRecord or Mongoid class. Every class
operation (`all`, `where`, `exists?`, `delete_all`, `create`,
`find_or_create`) asks `get_model_class` where to go. Objects coming back
from a delegate store are serialized into repository instances. The
instance operations (`save`, `persist`, `reload`, `update_attribute`,
`update_attributes`, `attributes=`) take the same routes.

The project models the files that make up that core:

- `values.dfy`: attribute values, hash keys, caller hashes, attribute maps, the `to_s` form that keys the index, and the errors.
- `records.dfy`: instances as heap objects with an attribute map.
  - `attributes=`, with its `_id` to `id` rename, for a caller's ordered hash (`AssignHash`) and for another object's attribute map (`AssignAttrs`), with a lemma that the two agree.
  - The `set_timestamps` callback and `valid?`.
- `write_support.dfy`: the patched ActiveHash table.
  - A class `Table` with the record sequence, the `id.to_s` index and the dirty flag.
  - `insert`, `validate_unique_id`, `save`, `persisted?`, `==` and `exists?`.
  - The table invariant (the index is exact, every stored record has an id, a clean table is empty). It is proved to be kept by the corrected `insert` (`Table.Insert`, which rebuilds the index after the removal), by `save` and `delete_all` built on it, and to be broken by the source's `insert` as written (`Table.InsertAsWritten`, see "## Findings").
- `delegate.dfy`: a reference delegate store, class `Store`. It offers the capabilities the repository calls (`where(...).first`, `find`, `exists?`, `new`, `save`, `create`, `update_attribute`, `delete_all`). A Mongoid store keeps ids in `_id`.
- `base.dfy`: the class `Repository` with `model_class`/`save_in_memory`, the routing, class and instance `serialize!`, `where`, `reload`, `save`, `persist` and `convert`.
- `writers.dfy`: `create`, `find_or_create`, `update_attribute` and `update_attributes`.

Records are objects because the source relies on object identity. `find`
returns the stored object itself, `save` re-targets the save onto it, and
`insert` compares `to_s`, Ruby's default object identity. So `to_s`
equality is reference equality here.

Inputs that the source takes from outside the core become parameters:
- `next_id` is `nextId`.
- The clock is `now`. One value serves every clock read of an operation: both `DateTime.now` reads of a `set_timestamps` call, and every `set_timestamps` call an operation makes. For example, `persist` stamps at its own `valid?` (`base.rb` line 168) and again at `insert`'s `valid?` (`write_support.rb` line 34). In the source a newly persisted record's `created_at` comes from the first read and its `updated_at` from the later one; in the model both hold the same `now`.
- The class's validations are the table's `validations` function.

ActiveHash's own `find`, `find_by_id`, `next_id`, `mark_dirty` and `all`
are not part of this model. They are represented by an index lookup:
- `find(nil)` is nil.
- An unknown id is `RecordNotFound`.
- `all` is the record sequence itself.

Three behaviours of the source are easy to miss, and the model keeps them:
- `create` of an instance that fails validation still returns a serialized copy of the candidate. The `false` branch at `writers.rb` line 35 leaves `object` as it was, and line 38 is reached either way. Its guard `object.class.name == self` compares a string with a class, so it never holds and the copy is always returned.
- Re-inserting the object that is already stored (`write_support.rb` lines 22-36) first deletes it and then appends it again, so it moves to the end of the table.
- In memory, `save` of an instance whose explicit id no record has fails with `RecordNotFound`. `save(force=false)` calls `find(id)` before anything else (`base.rb` line 182), and ActiveHash's `find` raises for an unknown id. `create` with such an id fails the same way, because it saves through `save` (`writers.rb` line 32).

`writers.rb` defines `create` twice with identical bodies (lines 3-16 and 26-39). The second definition is the one in effect and is the one modelled.

Each state-changing method's `modifies` clause says which objects that
existed before the call it may change, and Dafny holds every caller to it.
A table's or a store's own fields are the record sequence, the index and
the dirty flag, or the object list and the id sequence, not the attributes
of the records they hold. The records a method may change besides the
instance are named by ghost functions:
- `SaveTarget`: the record a non-forced in-memory `save` goes to.
- `Redirect`: the stored record `find` gives for an id.
- `ConvertChanges`: the records in-memory `convert` may touch.
- `ConvertTargets` and `PersistTargets`: these records for each route of `convert` and `persist`.
- `Writers.Counterparts`: the record or store object `find` returns for the instance's id.

## Model

| member | source | states |
|---|---|---|
| Values.IdString | lib/active_repository/write_support.rb:23 | `id.to_s`: nil gives the empty string, a string id gives itself |
| Values.IdStringIntInjective | lib/active_repository/write_support.rb:35 | two different integer ids never share an index key |
| Values.IdStringConflates | lib/active_repository/write_support.rb:27 | ids of different kinds can share a key: `1` and `"1"`, nil and `""` |
| Records.SetterName | lib/active_repository/writers.rb:45 | the key `_id` is sent to `id=`; every other key, symbol or string, to the setter of its own name |
| Records.AssignHash | lib/active_repository/writers.rb:43-47 | after mass assignment every old name is still set and every setter some pair targets is set |
| Records.AssignAttributes | lib/active_repository/writers.rb:43-47 | the loop over the pairs of a hash ends in `AssignHash` of the old attributes |
| Records.AssignHashKeys | lib/active_repository/writers.rb:43-47 | mass assignment sets exactly the old names plus the setters targeted by the hash, and never creates `_id` |
| Records.AssignHashLastWins | lib/active_repository/writers.rb:43-47 | an attribute ends with the value of the last pair targeting it, or keeps its old value when none does |
| Records.AssignHashUntouched | lib/active_repository/writers.rb:43-47 | an attribute no pair targets keeps its old value |
| Records.AssignHashLast | lib/active_repository/writers.rb:43-47 | the pair that targets an attribute last decides its value |
| Records.AssignHashHas | lib/active_repository/writers.rb:43-47 | an attribute is set afterwards exactly when it was set before or some pair targets it |
| Records.AssignAttrs | lib/active_repository/writers.rb:43-47 | assigning another object's attribute map: each name but `_id` gets the map's value, `_id` goes to `id` (and wins over `id` when the map holds both), names the map lacks keep their value, and `_id` itself never changes |
| Records.AssignAttrsAgrees | lib/active_repository/writers.rb:43-47 | assigning another object's attribute map gives the same result whatever order the map is iterated in (unless it holds both `id` and `_id`) |
| Records.AssignAttrsIdempotent | lib/active_repository/base.rb:197-203 | assigning the same map twice is assigning it once; an object assigned its own `_id`-free attributes is unchanged |
| Records.SerializeTwice | lib/active_repository/base.rb:197-203 | a serialized copy never holds `_id`, and serializing its attributes again gives the same attributes |
| Records.Stamped | lib/active_repository/base.rb:244-247 | `created_at` is filled only when declared and nil, `updated_at` is refreshed whenever declared, nothing else changes |
| Records.SetTimestamps | lib/active_repository/base.rb:244-247 | the instance's new attributes are `Stamped` of the old ones |
| Records.Validate | lib/active_repository/base.rb:68 | `valid?` first runs the timestamp callback, then answers the validations on the stamped attributes; the id is untouched |
| WriteSupport.IndexKey | lib/active_repository/write_support.rb:23 | a record's key is its string id, and is empty exactly when the id is nil or the empty string |
| WriteSupport.Eql | lib/active_repository/write_support.rb:61-65 | records that are `==` have a non-nil id and the same index key |
| WriteSupport.EqlIsEquivalenceOnIdentified | lib/active_repository/write_support.rb:61-65 | `==` is symmetric and transitive, reflexive exactly on records with an id, and a record without an id equals nothing |
| WriteSupport.Kept | lib/active_repository/write_support.rb:24 | `all.delete(record)` removes the record itself and every element `==` to it, and keeps every other one |
| WriteSupport.KeptConcat | lib/active_repository/write_support.rb:24 | deletion works element by element, so the survivors keep their order and their repetitions |
| WriteSupport.KeptOne | lib/active_repository/write_support.rb:24 | a single element survives exactly when it is neither the record nor `==` to it |
| WriteSupport.KeptKeys | lib/active_repository/write_support.rb:22-25 | removal keeps index keys unique and, for a stored record, takes its key out with it |
| WriteSupport.IndexedHasUniqueIds | lib/active_repository/write_support.rb:41-43 | an exact index implies that no two stored records share an id or a key |
| WriteSupport.Reindex | lib/active_repository/write_support.rb:35 | a rebuilt index maps every stored key to a position holding a record with that key |
| WriteSupport.ReindexIsExact | lib/active_repository/write_support.rb:35 | with unique keys the rebuilt index is exact |
| WriteSupport.SoundAppend | lib/active_repository/write_support.rb:35-36 | appending a record with an id and a fresh key, indexed at the old length, keeps the table invariant |
| WriteSupport.Lookup | lib/active_repository/write_support.rb:27 | over an exact index, the lookup finds a record exactly when one has the id's key, and it is that record |
| WriteSupport.RenumberedIsSound | lib/active_repository/write_support.rb:22-25 | removing a stored record and re-indexing without its key leaves a sound table without the record |
| WriteSupport.KeptByMask | lib/active_repository/write_support.rb:24 | which elements the deletion keeps depends only on which elements it matches |
| WriteSupport.ReindexUnchanged | lib/active_repository/write_support.rb:35 | the rebuilt index depends only on the records' attributes |
| WriteSupport.AssignNextId | lib/active_repository/write_support.rb:29 | a falsy id is replaced by `next_id`: the attributes become `WithId` of the old ones |
| WriteSupport.AssignedId | lib/active_repository/write_support.rb:29 | a falsy id (nil or false) is replaced by `next_id`, any other id kept |
| WriteSupport.WithId | lib/active_repository/write_support.rb:29 | only `id` changes, to the assigned id |
| WriteSupport.Table.constructor | lib/active_repository/write_support.rb:28 | a class starts with an empty, clean, valid table |
| WriteSupport.Table.FindById | lib/active_repository/base.rb:90 | `find_by_id` on a valid table: a stored record with the id's key, and nothing exactly when no stored record has that key |
| WriteSupport.Table.Find | lib/active_repository/write_support.rb:69 | `find`: nil for a nil id, the indexed record for a known id, `RecordNotFound` otherwise |
| WriteSupport.Table.ExistsByFind | lib/active_repository/write_support.rb:67-74 | ActiveHash's patched `exists?` holds exactly for a nil id or an id whose key a stored record has; every repository class overrides it with `base.rb` line 89 (`Table.Exists`), so no other member uses it |
| WriteSupport.Table.Exists | lib/active_repository/base.rb:90 | `find_by_id(id).present?` holds exactly when a stored record has the id's key |
| WriteSupport.Table.ValidateUniqueId | lib/active_repository/write_support.rb:41-43 | `IdError` exactly when the index already holds the record's key |
| WriteSupport.Table.DeleteEqual | lib/active_repository/write_support.rb:24 | the in-place removal leaves `Kept` of the old sequence |
| WriteSupport.Table.NilIdKeepsOutcome | lib/active_repository/base.rb:185 | writing nil over a nil id changes nothing that the table's `save` leaves |
| WriteSupport.Table.ValidKeepsIds | lib/active_repository/write_support.rb:35 | changes to stored records that keep every id keep the table invariant |
| WriteSupport.Table.SoundUntouched | lib/active_repository/write_support.rb:35 | changes outside the table and its records keep the index sound |
| WriteSupport.Table.Untouched | lib/active_repository/write_support.rb:35 | changes outside the table, its records and one record keep the invariant and where that record is placed |
| WriteSupport.Table.OutcomeMembers | lib/active_repository/write_support.rb:49-54 | a save leaves only the old records and the saved one in the table |
| WriteSupport.Table.OutcomeKeeps | lib/active_repository/write_support.rb:22-25 | saving a record the table does not hold keeps every stored record in the table |
| WriteSupport.Table.OutcomeAttrs | lib/active_repository/write_support.rb:29-34 | a save that is not skipped and raises nothing leaves the record with its id assigned and its timestamps set |
| WriteSupport.Table.NeverSkips | lib/active_repository/write_support.rb:52 | a valid table never skips saving a record without an id or a stored record |
| WriteSupport.Table.StoredTwin | lib/active_repository/write_support.rb:50 | the stored record `find` returns when `exists?` holds: a stored record, for a non-nil id, present on a valid table exactly when a stored record has the instance's key, and holding that key |
| WriteSupport.Table.Skips | lib/active_repository/write_support.rb:52 | the skip of line 52 happens only for an instance with an id that a different stored record is `==` to |
| WriteSupport.Table.RemoveStale | lib/active_repository/write_support.rb:22-25 | the removal step as written: the survivors, and the index with the key dropped but positions not renumbered |
| WriteSupport.Table.RemoveRenumbered | lib/active_repository/write_support.rb:22-25 | the removal step with the index rebuilt for the survivors |
| WriteSupport.Table.AddRecord | lib/active_repository/write_support.rb:28-37 | id assignment; `IdError` exactly when dirty and the key is indexed, with nothing stored; otherwise dirty, stamped, and appended and indexed exactly when valid; the invariant is kept |
| WriteSupport.Table.AddChecked | lib/active_repository/write_support.rb:31-37 | once the record has its id: the same error, marking and storing as `AddRecord` |
| WriteSupport.Table.StoreIfValid | lib/active_repository/write_support.rb:34-37 | a valid record is appended and indexed at its position, an invalid one is not; both are stamped |
| WriteSupport.Table.AssignStoredId | lib/active_repository/write_support.rb:29 | the id is assigned and a sound table that does not hold the record stays sound |
| WriteSupport.Table.ValidateStored | lib/active_repository/write_support.rb:34 | the record is stamped, its id and key are kept, and the answer is the validations on the stamped attributes |
| WriteSupport.Table.Append | lib/active_repository/write_support.rb:35-36 | the record is appended and indexed at its position, keeping a sound table sound when its key is new |
| WriteSupport.Table.Insert | lib/active_repository/write_support.rb:21-39 | `insert` with a renumbered index: the assigned id, the state `Inserted` describes (errors, records, index, dirty flag, attributes), the invariant, and the record placed under its id |
| WriteSupport.Table.RemoveForInsert | lib/active_repository/write_support.rb:22-25 | after the renumbering removal the guard of line 27 holds, and a valid table has lost the record and kept a sound index |
| WriteSupport.Table.RemovalGuard | lib/active_repository/write_support.rb:27 | after the removal step, the guard of line 27 always holds |
| WriteSupport.Table.RemovalKeepsIndex | lib/active_repository/write_support.rb:22-25 | on a valid table, the renumbered removal leaves a sound table without the record, still empty if clean |
| WriteSupport.Table.InsertAsWritten | lib/active_repository/write_support.rb:21-39 | `insert` as written: `IdError` exactly when dirty and the key is in the stale index; otherwise the record is stamped and, when valid, appended to the survivors and indexed over the stale index |
| WriteSupport.Table.LocatedIsFound | lib/active_repository/write_support.rb:69 | a record the index entry of its key points at is what `find_by_id` and `find` return for its id |
| WriteSupport.Table.IdKept | lib/active_repository/write_support.rb:35 | a change to one record that keeps its id keeps a valid table valid |
| WriteSupport.Table.StoredIsLocated | lib/active_repository/write_support.rb:35-36 | in a valid table every stored record has an id and its key's entry points at it |
| WriteSupport.Table.FindsStored | lib/active_repository/write_support.rb:35-36 | on a valid table, every stored record is found under its own id |
| WriteSupport.Table.StaleIndexMisdirects | lib/active_repository/write_support.rb:22-36 | with records `a`, `b`, `c`, re-inserting `a` as written leaves an index under which `find_by_id("b")` returns `c` and which is no longer exact |
| WriteSupport.Table.Save | lib/active_repository/write_support.rb:49-54 | the table, index, dirty flag and attributes `SaveOutcome` gives: unchanged when the stored record is `==` to the instance but another object, otherwise what the corrected `insert` (`Table.Insert`) leaves; answers true or propagates `IdError`; keeps the invariant and places the record |
| WriteSupport.Table.Twin | lib/active_repository/write_support.rb:50 | the stored record `find` returns for the id when `exists?` holds |
| WriteSupport.Table.Persisted | lib/active_repository/write_support.rb:56-59 | `RecordNotFound` for an unknown id; false for a nil id; for a stored id, whether the `created_at` values agree; true for every stored record of a valid table |
| WriteSupport.Table.DeleteAll | lib/active_repository/base.rb:85 | ActiveHash's `delete_all` empties the table and keeps the invariant |
| Delegate.FieldFor | lib/active_repository/base.rb:210 | the condition or attribute `id` targets the store's id field |
| Delegate.Select | lib/active_repository/base.rb:150-152 | the matching records are exactly those meeting every condition, the first one first |
| Delegate.FirstMatchSkips | lib/active_repository/base.rb:210 | an object that does not meet the conditions is skipped when looking for the first match |
| Delegate.SelectConcat | lib/active_repository/base.rb:150-152 | selecting works element by element, so the matches keep the order and repetitions of the records |
| Delegate.SelectOne | lib/active_repository/base.rb:150-152 | a single record is selected exactly when it meets the conditions |
| Delegate.Apply | lib/active_repository/writers.rb:27 | `new(attributes)` on a store object keeps the old fields, sets the field of every pair, and the last pair's field holds its value |
| Delegate.ApplyFields | lib/active_repository/writers.rb:27 | `new(attributes)` on a store object sets exactly its old fields plus the fields some pair is written to |
| Delegate.ApplyUnwritten | lib/active_repository/writers.rb:27 | a field no pair is written to keeps its value |
| Delegate.ApplyLast | lib/active_repository/writers.rb:27 | the pair written last to a field decides its value |
| Delegate.ApplyLastWins | lib/active_repository/writers.rb:27 | each field ends with the value of the last pair written to it (`id` writes the id field), or keeps its old value |
| Delegate.MeetsIdCondition | lib/active_repository/base.rb:210 | a condition on `id` is one on the id field, and no conditions are met by every object |
| Delegate.Merge | lib/active_repository/base.rb:218 | `object.attributes = attributes`: every name goes to its field, `id` to the id field |
| Delegate.Store.IdField | lib/active_repository/writers.rb:57 | a Mongoid store keeps ids in `_id`, any other in `id` |
| Delegate.Store.Where | lib/active_repository/base.rb:157 | the store's `where` returns exactly the objects meeting the conditions |
| Delegate.Store.First | lib/active_repository/base.rb:210 | `where(...).first` is the first meeting object, and nil exactly when none meets |
| Delegate.Store.Find | lib/active_repository/writers.rb:53 | an object with that id; `RecordNotFound` exactly for a nil or unknown id |
| Delegate.Store.ValidUntouched | lib/active_repository/base.rb:220 | changes outside the store and its objects keep the store invariant |
| Delegate.Store.FindsStored | lib/active_repository/writers.rb:53 | in a valid store, `find` answers every stored object under its own id |
| Delegate.Store.Exists | lib/active_repository/base.rb:90 | holds exactly for a non-nil id some object has |
| Delegate.Store.DeleteAll | lib/active_repository/base.rb:85 | the store is emptied |
| Delegate.Store.New | lib/active_repository/base.rb:212 | a fresh unsaved object with the assigned attributes |
| Delegate.Store.Saved | lib/active_repository/base.rb:220 | `save` generates an id exactly when the object has none |
| Delegate.Store.SavedIdIsNew | lib/active_repository/writers.rb:29-35 | in a valid store, attributes whose id names no object are saved with an id that names no object |
| Delegate.Store.Advanced | lib/active_repository/base.rb:220 | the id sequence never goes back and moves past the id a saved object ends with |
| Delegate.Store.Save | lib/active_repository/base.rb:220 | the object gets `Saved` attributes, the sequence advances, a new object is appended, and a valid store stays valid for a stored object or one whose id is not taken |
| Delegate.Store.AssignSequenceId | lib/active_repository/base.rb:220 | the id step of `save`: `Saved` attributes, the advanced sequence, and for a new object with a free id, an id no stored object has |
| Delegate.Store.AppendObject | lib/active_repository/base.rb:220 | the object is appended, and a valid store stays valid when its id is set, new and below the sequence |
| Delegate.Store.Create | lib/active_repository/writers.rb:35 | a fresh object with `Saved` attributes is appended |
| Delegate.Store.UpdateAttribute | lib/active_repository/writers.rb:60 | the field the key names (`id` names the id field) is set and the object saved; a stored object keeps a valid store valid unless the id field is set |
| Base.ModelClassOf | lib/active_repository/base.rb:103-106 | the class itself when there is no model class or it saves in memory, the model class otherwise |
| Base.InMemoryIff | lib/active_repository/base.rb:103-106 | a class routes to itself exactly when it has no model class, saves in memory, or is its own model class |
| Base.FirstWins | lib/active_repository/base.rb:125 | the current model class is kept once set; otherwise the new value is taken |
| Base.SetModelClassRoutes | lib/active_repository/base.rb:124-128 | after `set_model_class` the class routes to the model class it ended up with, or to itself when there is none; once set, a later call does not replace it |
| Base.Concat | lib/active_repository/base.rb:151 | the conditions of all hash arguments, each kept and none added |
| Base.ConcatMeets | lib/active_repository/base.rb:150-152 | meeting the concatenated conditions is meeting every argument's conditions |
| Base.Repository.constructor | lib/active_repository/base.rb:70 | a class starts with no model class and saving in memory |
| Base.Repository.GetModelClass | lib/active_repository/base.rb:103-106 | `get_model_class`: the class itself without a model class or when saving in memory, the model class otherwise |
| Base.Repository.InMemory | lib/active_repository/base.rb:103-106 | `self == get_model_class` holds exactly when there is no model class, the class saves in memory, or it is its own model class |
| Base.Repository.Mongoid | lib/active_repository/base.rb:234-241 | a class that persists in memory is never Mongoid; a delegating class is Mongoid exactly when its store is |
| Base.Repository.SetModelClass | lib/active_repository/base.rb:124-128 | the first model class wins; saving in memory is on exactly when the class is its own model class |
| Base.Repository.SetSaveInMemory | lib/active_repository/base.rb:137-139 | sets the flag, leaves the model class |
| Base.Repository.Serialize | lib/active_repository/base.rb:111 | a fresh instance of the class holding the assigned attributes |
| Base.Repository.SerializeEach | lib/active_repository/base.rb:112 | one fresh instance per element, in order, each with that element's attributes |
| Base.Repository.SerializeValue | lib/active_repository/base.rb:109-116 | arrays give one instance per element, hashes and documents and other objects one instance |
| Base.Repository.SerializeInto | lib/active_repository/base.rb:197-203 | non-nil attributes are assigned; the result is a copy, never the instance itself |
| Base.Repository.All | lib/active_repository/base.rb:73-76 | the table's records, or one serialized copy per store object |
| Base.Repository.DeleteAll | lib/active_repository/base.rb:84-86 | empties the table (keeping its invariant) or the store, never both |
| Base.Repository.Exists | lib/active_repository/base.rb:89-100 | in memory, a record has the id's key; otherwise the store holds an object with that id |
| Base.Repository.Where | lib/active_repository/base.rb:148-163 | `ArgumentError` without arguments; the records meeting all conditions in memory; serialized copies of the store's matches for the first argument otherwise |
| Base.Repository.Reloaded | lib/active_repository/base.rb:174-178 | the counterpart's attributes, the instance's own for a nil id in memory, `RecordNotFound` when there is none |
| Base.Repository.Reload | lib/active_repository/base.rb:174-178 | assigns the counterpart's attributes and returns a copy; on error the instance is untouched |
| Base.Repository.SaveTarget | lib/active_repository/base.rb:182-188 | the record the in-memory `save` hands to the table: the instance itself with `force` or a nil id, otherwise a stored record holding the instance's id key |
| Base.Repository.ClearId | lib/active_repository/base.rb:185 | writing nil over a nil id keeps what the table's `save` leaves and keeps the table valid |
| Base.Repository.SaveItself | lib/active_repository/base.rb:184-186 | the instance itself goes through the table's `save`, and the table ends as `SaveOutcome` says |
| Base.Repository.SaveLocal | lib/active_repository/base.rb:180-190 | `RecordNotFound` for an unknown id with nothing changed; otherwise the table's `save` of the instance (with `force` or a nil id) or of the stored record found under the id, as `SaveOutcome` gives it; no other record changes; true on success; the invariant is kept and the saved record placed |
| Base.Repository.Transfer | lib/active_repository/base.rb:214-218 | the instance's hash loses `id` and is assigned to the object; ids stay, so the table stays valid |
| Base.Repository.SaveObject | lib/active_repository/base.rb:220 | the in-memory `save` of an object changes only the table, the object and the stored record it is re-targeted to (`SaveTarget`), and a re-targeted save leaves the object itself alone; an unknown id is `RecordNotFound`; a save of a stored object or one without an id keeps the table valid, adds at most that object, and places it stamped with its id assigned; an object the table did not hold, saved as itself, keeps every stored record in the table |
| Base.Repository.SaveTransferred | lib/active_repository/base.rb:214-220 | the instance's hash without `id` is assigned to the object, which is saved in memory, changing only the instance, the object, the table and the records the object's id or the instance's `_id` redirect the save to; on a valid table, for an instance outside it without `_id` and an object stored or without an id, the table stays valid, the instance stays outside it without `id`, and a successful save places the object stamped with the assigned attributes |
| Base.Repository.TakeId | lib/active_repository/base.rb:222 | the instance takes the object's id, and an instance outside the table leaves the table as it was |
| Base.Repository.ConvertOnto | lib/active_repository/base.rb:214-224 | changes only the instance, the object, the table and the stored records the object's id or the instance's `_id` redirect the save to; the object gets the instance's attributes but `id`, is saved in memory and placed, and the instance takes its id |
| Base.Repository.ConvertInMemory | lib/active_repository/base.rb:208-224 | `convert` into the class's own table changes only the instance, the table and the stored records `ConvertChanges` names (those holding the instance's id, and those its id or `_id` redirect the save to); the first record with the instance's id, or a new one, ends placed holding the assigned attributes, stamped, with its id; the instance takes that id |
| Base.Repository.ConvertObject | lib/active_repository/base.rb:209-212 | `where(:id => id).first \|\| new`: the first table record with the instance's id, or a fresh empty instance of the class with a nil id |
| Base.Repository.ConvertToStore | lib/active_repository/base.rb:208-224 | changes only the instance, the store's own fields and the first store object with the instance's id; that object, or a new appended one, receives the attributes but `id` and is saved; the instance loses `id` and takes the object's id |
| Base.Repository.SaveOntoObject | lib/active_repository/base.rb:214-222 | the object gets `Saved` of the merged attributes, is appended if new, and the instance takes its id |
| Base.Repository.Convert | lib/active_repository/base.rb:208-225 | routes on `get_model_class`: changes only the instance, the table's and the store's own fields and `ConvertTargets` (the records `ConvertChanges` names in memory, the first store object with the id through a delegate); in memory the store's own fields stay as they were and the effect is what `ConvertInMemory` states; through a delegate the table's own fields stay as they were and the effect is what `ConvertToStore` states |
| Base.Repository.PersistSaving | lib/active_repository/base.rb:167-171 | changes only the instance, the table and the target of the in-memory `save`; an invalid instance gives nil with only the instance stamped, the table's own fields and every other stored record as they were; a valid one goes to the in-memory `save`, which keeps the table valid and places its target |
| Base.Repository.PersistToTable | lib/active_repository/base.rb:167-171 | changes only the instance, the table and the records `ConvertChanges` names; an invalid instance gives nil with only the instance stamped, the table's own fields and every other stored record as they were; a valid one is converted into the table, which stays valid, and the first record with its id ends placed with the instance's attributes |
| Base.Repository.ValidateApart | lib/active_repository/base.rb:168 | `valid?` on an instance the table does not hold stamps it, answers the validations, keeps its id, and leaves the table's validity and the first record with the instance's id as they were |
| Base.Repository.PersistToStore | lib/active_repository/base.rb:167-171 | changes only the instance, the store's own fields and the first store object with the instance's id; an invalid instance gives nil with only the instance stamped and every other record and object as it was; a valid one is converted into the store, updating the first object with its id or appending one, and the answer is true |
| Base.Repository.Persist | lib/active_repository/base.rb:167-171 | changes only the instance, the table's and the store's own fields and `PersistTargets` (the `save` target for a class saving in memory, the `convert` targets otherwise); nil for an invalid instance, with only the instance stamped and the table, the store and every other record and object as they were; a class saving in memory saves; any other converts, into the table or the store as `get_model_class` says, with each route's effect stated |
| Base.Repository.SaveHere | lib/active_repository/base.rb:180-190 | the in-memory branch of `save` changes only the instance, the table and the stored record it is re-targeted to; `RecordNotFound` for an unknown id, otherwise what the table's `save` of its target leaves, true on success, and the target placed |
| Base.Repository.Save | lib/active_repository/base.rb:180-194 | in memory, changes only the instance, the table and the `save` target, the store's own fields stay as they were and the table ends as the table's `save` of the target leaves it; otherwise changes only the instance, the store's own fields and the first store object with the id, the table's own fields stay as they were, and `persist` updates or appends the store object (an invalid instance is only stamped) |
| Writers.IdFieldOf | lib/active_repository/writers.rb:29 | the field `object.id` reads: `id` in memory, the store's id field otherwise |
| Writers.NewAttrs | lib/active_repository/writers.rb:27 | `get_model_class.new(attributes)`: in memory exactly the setters the hash targets are set; through a store every field a pair writes is set |
| Writers.NewAttrsLastWins | lib/active_repository/writers.rb:27 | `new(attributes)` gives each name the value of the last pair whose setter or field it is, and nil when no pair reaches it |
| Writers.CandidateAttrs | lib/active_repository/writers.rb:27-29 | the new object's attributes, with the id field cleared exactly when that id exists |
| Writers.CandidateIdIsFree | lib/active_repository/writers.rb:29 | the candidate's id is nil or names no existing object |
| Writers.Candidate | lib/active_repository/writers.rb:27-29 | a fresh object of the model class holding `CandidateAttrs` |
| Writers.CreateHere | lib/active_repository/writers.rb:26-32 | in memory: changes no object that existed before except the table's own fields, and keeps every stored record in the table; an unknown explicit id is `RecordNotFound`; otherwise the table stays valid, the copy holds the candidate as saved, and a valid candidate is found under `next_id` |
| Writers.SaveCandidate | lib/active_repository/writers.rb:32 | the candidate is saved in memory, changing only the table, the candidate and the record its save is re-targeted to; saved as itself, it keeps every stored record in the table; a fresh one without an id ends, when valid, found under `next_id` holding its stamped attributes; the copy holds them |
| Writers.CreateInStore | lib/active_repository/writers.rb:33-38 | through a delegate: the candidate is appended exactly when its serialized copy is valid, under an id no object had; the copy holds its saved attributes |
| Writers.StoreCandidate | lib/active_repository/writers.rb:33-38 | the candidate is saved when its copy is valid, keeping a valid store valid with a new id; the result is a copy |
| Writers.SaveIfCopyValid | lib/active_repository/writers.rb:34-35 | the object is saved exactly when a serialized copy of it is valid |
| Writers.Create | lib/active_repository/writers.rb:26-39 | corrected `create`: changes no object that existed before except the table's and the store's own fields, and in memory keeps every stored record in the table; a fresh copy; in memory an unknown explicit id is `RecordNotFound`, the table stays valid and a valid candidate is found under `next_id`; through a delegate the candidate is stored exactly when its copy is valid, under a new id, and the store stays valid |
| Writers.CreateAsWritten | lib/active_repository/writers.rb:26-39 | `create` as written: no object that existed before changes except the table's and the store's own fields; a valid delegate candidate makes the store create a new object from the caller's attributes, which carries an id that already exists whenever the caller's id does |
| Writers.FirstMatch | lib/active_repository/writers.rb:19 | `get_model_class.where(attributes).first`: the first meeting record or object, nil exactly when none meets |
| Writers.ConcatMeetsOne | lib/active_repository/writers.rb:19 | one hash of conditions, concatenated, is met exactly when the hash is |
| Writers.FindOrCreate | lib/active_repository/writers.rb:18-24 | corrected `find_or_create`: changes no object that existed before except the table's and the store's own fields, and in memory keeps every stored record in the table; with a match, the serialized first match, with the table's and the store's own fields unchanged too, so no object that existed before changes; otherwise what `Create` makes on the routed class, never `NoMethodError` |
| Writers.CreateMissingHere | lib/active_repository/writers.rb:21-23 | without a match in memory: what `CreateHere` makes, serialized once more with no change; no object that existed before changes except the table's own fields, and every stored record stays in the table |
| Writers.CreateMissingInStore | lib/active_repository/writers.rb:21-23 | without a match through a delegate: what `CreateInStore` makes, serialized once more with no change |
| Writers.Reserialize | lib/active_repository/writers.rb:23 | `serialize!(object.attributes)` returns a fresh copy, and a serialized copy serializes to the same attributes |
| Writers.FindOrCreateAsWritten | lib/active_repository/writers.rb:18-24 | as written: no object that existed before changes except the table's and the store's own fields; without a match, `NoMethodError` when there is no model class, and the delegate's own `create` for another model class |
| Writers.ForwardedKey | lib/active_repository/writers.rb:57 | for a Mongoid store `id` is forwarded as `_id`; every other key unchanged |
| Writers.UpdateAttribute | lib/active_repository/writers.rb:49-65 | changes only the instance, the store's own fields and, through a delegate, the object `find` returns for the instance's id (`Counterparts`); in memory, the attribute is assigned and the instance reloaded from the table (a stored one keeps its new attributes), and the store's own fields stay as they were; through a delegate, `RecordNotFound` with the instance and the store as they were, so no object changes, or the object gets the forwarded field and is saved and the instance is reloaded from it |
| Writers.UpdateAttributeHere | lib/active_repository/writers.rb:50-51 | in memory: assignment then `reload`, as `UpdateAttributeEffectHere` states, and a located record stays located with exactly the attribute changed |
| Writers.UpdateUnstoredHere | lib/active_repository/writers.rb:50-51 | in memory, an instance the table does not hold is assigned the attribute and reloaded from the table as it was, under the id the assignment left |
| Writers.UpdateStoredHere | lib/active_repository/writers.rb:50-51 | in memory, a stored instance is assigned the attribute and, unless the key is `id` or `_id` is set, reloads itself, ending with exactly that attribute changed, still located and the table still valid |
| Writers.UpdateAttributeInStore | lib/active_repository/writers.rb:52-64 | through a delegate: changes only the instance, the store's own fields and the object `find` returns for the instance's id; the effect `UpdateAttributeEffectInStore` states |
| Writers.ReloadFromStore | lib/active_repository/writers.rb:64 | `reload` of a delegating instance assigns the attributes of the object found under its id and leaves the store alone |
| Writers.StoreUpdate | lib/active_repository/writers.rb:55-61 | a Mongoid store assigns the instance too; the object gets the forwarded field and is saved; a valid store stays valid and still finds it |
| Writers.UpdateHere | lib/active_repository/writers.rb:51 | `super` in memory assigns the attribute; a stored record keeps a valid table valid and reloads to itself |
| Writers.Updated | lib/active_repository/writers.rb:75-77 | after a run of `update_attribute` calls, the field of the last call holds its value |
| Writers.UpdatedElsewhere | lib/active_repository/writers.rb:75-77 | a field no call sets keeps its value, or stays absent |
| Writers.UpdatedLastWins | lib/active_repository/writers.rb:75-77 | the last call that sets a field decides its value |
| Writers.UpdatedConcat | lib/active_repository/writers.rb:75-77 | two runs of calls one after the other are the concatenated run |
| Writers.Forwarded | lib/active_repository/writers.rb:75-77 | the forwarded calls are the pairs not under `:id`, each one, and nothing else |
| Writers.ForwardedConcat | lib/active_repository/writers.rb:75-77 | the calls for a concatenated hash are the calls for each part, in order, so the calls keep the order and repetitions of the hash |
| Writers.ForwardedOne | lib/active_repository/writers.rb:76 | a single pair is one call unless its key is `:id` |
| Writers.ForwardedSkipsOnlySymbolId | lib/active_repository/writers.rb:76 | only the symbol `:id` is skipped; the string `"id"` is forwarded |
| Writers.SendUpdateHere | lib/active_repository/writers.rb:76 | in memory, the counterpart's own `update_attribute`: a stored record ends with exactly that attribute set, and stays located |
| Writers.SendUpdateToStore | lib/active_repository/writers.rb:76 | on a store object, the field is set and the object saved; unless the id field is set, the store stays valid and only that field changes |
| Writers.Forward | lib/active_repository/writers.rb:75-77 | changes only the store's own fields and the counterpart, and keeps the store's list of objects; a nil counterpart fails with `NoMethodError` exactly when some pair is forwarded; a held counterpart ends with `Updated` of the forwarded calls, in order, when they keep the id |
| Writers.ForwardHere | lib/active_repository/writers.rb:75-77 | the loop in memory: a located counterpart ends with `Updated` of the calls and stays located |
| Writers.ForwardToStore | lib/active_repository/writers.rb:75-77 | the loop through a store: the object ends with `Updated` of the calls and the store stays valid |
| Writers.UpdatedKeepsId | lib/active_repository/writers.rb:75-77 | calls that keep the id leave the id field and the absence of `_id` as they were |
| Writers.UpdateAttributes | lib/active_repository/writers.rb:67-80 | changes only the instance, the store's own fields and the counterpart `find` returns for the instance's id (`Counterparts`: the table's record in memory, the store's object otherwise); `RecordNotFound` for a missing counterpart; `NoMethodError` in memory for a nil id with a forwarded pair; a held counterpart ends with `Updated` of the forwarded calls and the instance is assigned its attributes |
| Writers.UpdateAttributesHere | lib/active_repository/writers.rb:67-80 | in memory, changes only the instance and the table's record `find` returns for its id; the same errors and effects as `UpdateAttributes` |
| Writers.UpdateFoundHere | lib/active_repository/writers.rb:75-79 | in memory, once the id finds `o`: `o` ends with `Updated` of the calls and the instance reloads its attributes |
| Writers.ForwardToFound | lib/active_repository/writers.rb:75-77 | the calls go to `o`, which keeps its id, stays located and keeps the table valid |
| Writers.FoundCounterpart | lib/active_repository/writers.rb:70-72 | the counterpart found under an id in a valid table is located under that id, and is the instance itself when the instance is stored |
| Writers.ReloadFromTable | lib/active_repository/writers.rb:79 | `reload` in memory after the calls: the instance gets `o`'s attributes, and keeps the table valid |
| Writers.UpdateAttributesInStore | lib/active_repository/writers.rb:67-80 | through a delegate, changes only the instance, the store's own fields and the object `find` returns for its id; the same errors and effects as `UpdateAttributes` |
| Writers.UpdateFoundInStore | lib/active_repository/writers.rb:75-79 | through a delegate, once the id finds `o`: `o` ends with `Updated` of the calls and the instance reloads its attributes |
| Writers.ReloadFromObject | lib/active_repository/writers.rb:79 | `reload` from a valid store: the instance gets `o`'s attributes, `o` keeps them and the store stays valid |

## Left out

- WriteSupport.Table.Save: saves through the corrected `Table.Insert`, not through `Table.InsertAsWritten`, and so do every in-memory save, persist and create built on it (`Base.Repository.SaveLocal`, `SaveItself`, `SaveHere`, `Save`, `PersistSaving`, `PersistToTable`, `Persist`, `SaveObject`, `ConvertOnto`, `ConvertInMemory`, `Convert`, `Writers.CreateHere`, `SaveCandidate`, `Create`, `CreateMissingHere` and `FindOrCreate`). After a stored record that is not the last one is saved again, the model's index is exact, where the source's points later keys at the wrong positions (`WriteSupport.Table.StaleIndexMisdirects`).
- `lib/active_repository/adapters/persistence_adapter.rb` and the real ActiveRecord and Mongoid classes: the delegate is the reference store `Delegate.Store`. Database constraints, queries and transactions are not modelled.
- The delegate's id generation is an auto-increment counter: a generated id is `Int(sequence)`, and `save` moves the sequence past the id the object ends with. A real database may generate ids in another way.
- `where` with an SQL string (`args_to_query`): only hash conditions are modelled. In memory they are the conjunction of all argument hashes.
- The finder methods defined by `set_model_class` (base.rb lines 129-132), `constantize` and `serialized_attributes`: metaprogramming and reflection on class names.
- The protected instance method `model_class` (base.rb lines 228-230) calls itself without end. No operation of the core calls it.
- `readonly?` (write_support.rb lines 45-47) is the constant false and constrains nothing.
- The clock and ActiveHash's `next_id` are the parameters `now` and `nextId`. Validations are an uninterpreted function.
- A `NoMethodError` from an attribute the class does not declare: every attribute name is assignable.
- `dup` is a fresh copy with equal attributes. That the copy shares the attribute hash with the original is not modelled (only `convert`, which changes that hash, models it).
- The ActiveHash side of `new(attributes)` for an in-memory class is modelled as `attributes=`. The `super` of `update_attribute` in memory is modelled as an assignment of the attribute.
- On the delegate path, the instance is never one of the store's objects, since in Ruby they are instances of different classes. So `Base.Repository.Convert`, `Base.Repository.Persist`, `Base.Repository.Save`, `Writers.UpdateAttribute` and `Writers.UpdateAttributes` require `rec !in store.objects` when the class does not route to itself.
- Concurrency and class-attribute inheritance between subclasses: each class is one `Repository` object.
- WriteSupport.Table.Insert: keeps the table invariant only when `next_id` is neither nil nor false. A falsy `next_id` stores a record without an id, which the invariant excludes.
- Writers.Create: in memory, states the stored record and the copy only for a valid table and a `next_id` that is neither nil nor false.
- Writers.FindOrCreate: without a match in memory, states the stored record and the copy only under the same conditions as `Writers.Create`.
- Base.Repository.Persist: for a class that routes to itself without saving in memory, states the converted record only when the instance is not itself stored and its stamped attributes hold no `_id`, and states the attributes of the first record with the instance's id but not those of a newly created one (`Base.Repository.ConvertInMemory` states both).
- Writers.UpdateAttribute: for a stored instance in memory, states its attributes only when the key is not `id` and the attributes hold no `_id`. Otherwise `reload` looks the record up under a new id.
- Writers.UpdateAttributes: states the counterpart's and the instance's attributes only when no forwarded call sets the id field (or `_id` in memory) and the counterpart is held by a valid table or store.
- Writers.Forward: states the counterpart's attributes under the same conditions as `Writers.UpdateAttributes`.

## Findings

| source | as written | input that shows it | evidently intended | confidence | as-written member | corrected member |
|---|---|---|---|---|---|---|
| lib/active_repository/write_support.rb:22-36 | re-inserting a stored record drops its key and deletes it, but leaves later index positions unchanged, then appends it at the end | records `a`, `b`, `c` with ids `"a"`, `"b"`, `"c"`, then `a` is saved again: the index maps `"b"` to 1, where `c` now sits, so `find("b")` returns `c` | the index keeps pointing at each record's position after the removal | medium, not executed | WriteSupport.Table.InsertAsWritten, WriteSupport.Table.StaleIndexMisdirects | WriteSupport.Table.Insert |
| lib/active_repository/writers.rb:29-35 | on the delegate path the id cleared at line 29 is not used: `get_model_class.create(attributes)` receives the caller's original hash | a delegating class whose store holds an object with id 1; `create(id: 1)` with valid attributes: id 1 is handed to the store's `create`, a duplicate in the reference store, a uniqueness error under a primary-key constraint | the store saves the candidate whose taken id was cleared | medium, not executed | Writers.CreateAsWritten | Writers.Create |
| lib/active_repository/writers.rb:21 | without a match, `model_class.create` is called, and `model_class` is nil for a class that persists in memory by default | a class without model class and an empty table; `find_or_create(name: "x")`: `NoMethodError` on nil | the repository's own `create`, which routes through `get_model_class` | high, not executed | Writers.FindOrCreateAsWritten | Writers.FindOrCreate |
