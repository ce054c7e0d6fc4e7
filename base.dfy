/** The repository class: the routing between the in-memory table and the
    delegate store, the conversion of store objects into repository
    instances, and the instance-level `save`, `persist`, `reload` and
    `convert`. */
module Base {
  import opened Values
  import opened Records
  import opened WriteSupport
  import opened Delegate

  /** `get_model_class`: the class itself unless a model class is set and
      saving in memory is off, in which case the model class. The second
      line of the method is reached only with `save_in_memory` false. */
  function ModelClassOf(name: string, modelClass: Option<string>, saveInMemory: bool): (r: string)
    ensures modelClass.None? || saveInMemory ==> r == name
    ensures modelClass.Some? && !saveInMemory ==> r == modelClass.value
  {
    if modelClass.None? || saveInMemory then name
    else if saveInMemory then name
    else modelClass.value
  }

  /** A class persists in memory exactly when it has no model class, saves in
      memory, or is its own model class. */
  lemma InMemoryIff(name: string, modelClass: Option<string>, saveInMemory: bool)
    ensures ModelClassOf(name, modelClass, saveInMemory) == name
            <==> modelClass.None? || saveInMemory || modelClass == Some(name)
  {
  }

  /** The model class after `self.model_class = value if model_class.nil?`. */
  function FirstWins(current: Option<string>, value: Option<string>): (r: Option<string>)
    ensures current.Some? ==> r == current
    ensures current.None? ==> r == value
  {
    if current.None? then value else current
  }

  /** After `set_model_class` the class persists through whatever model class
      it ended up with: itself when that is nil or the class itself, the
      other class otherwise. Once a model class is set, a later call never
      changes it. */
  lemma SetModelClassRoutes(name: string, current: Option<string>, value: Option<string>, later: Option<string>)
    ensures var m := FirstWins(current, value);
            ModelClassOf(name, m, m == Some(name)) == (if m.Some? then m.value else name)
    ensures var m := FirstWins(current, value);
            m.Some? ==> FirstWins(m, later) == m
  {
  }

  /** The conditions of several hashes, one after the other. */
  function Concat(args: seq<Hash>): (h: Hash)
    ensures forall i, j :: 0 <= i < |args| && 0 <= j < |args[i]| ==> args[i][j] in h
    ensures forall k :: 0 <= k < |h| ==> exists i :: 0 <= i < |args| && h[k] in args[i]
    decreases |args|
  {
    if args == [] then []
    else
      var rest := Concat(args[1..]);
      assert forall i :: 1 <= i < |args| ==> args[i] == args[1..][i - 1];
      args[0] + rest
  }

  /** A record meets the concatenated conditions exactly when it meets those
      of every hash. */
  lemma {:induction false} ConcatMeets(a: Attrs, args: seq<Hash>, idField: string)
    ensures Meets(a, Concat(args), idField) <==> forall i :: 0 <= i < |args| ==> Meets(a, args[i], idField)
    decreases |args|
  {
    if args != [] {
      ConcatMeets(a, args[1..], idField);
      var h := Concat(args);
      assert h == args[0] + Concat(args[1..]);
      assert Meets(a, h, idField) <==> Meets(a, args[0], idField) && Meets(a, Concat(args[1..]), idField) by {
        var r := Concat(args[1..]);
        if Meets(a, args[0], idField) && Meets(a, r, idField) {
          forall k | 0 <= k < |h| ensures Get(a, FieldFor(h[k].0.name, idField)) == h[k].1 {
            if k >= |args[0]| { assert h[k] == r[k - |args[0]|]; }
          }
        }
        if Meets(a, h, idField) {
          forall k | 0 <= k < |args[0]| ensures Get(a, FieldFor(args[0][k].0.name, idField)) == args[0][k].1 {
            assert h[k] == args[0][k];
          }
          forall k | 0 <= k < |r| ensures Get(a, FieldFor(r[k].0.name, idField)) == r[k].1 {
            assert h[|args[0]| + k] == r[k];
          }
        }
      }
      forall i | 1 <= i < |args| ensures args[1..][i - 1] == args[i] { }
    }
  }

  /** What class `serialize!` is handed, by Ruby class. */
  datatype Source =
    | HashArg(a: Attrs)
    | IndifferentHashArg(a: Attrs)
    | ArrayArg(objs: seq<Record>)
    | BsonDocument(a: Attrs)
    | ObjectArg(o: Record)

  /** The result of class `serialize!`: one instance, or one per array element. */
  datatype Serialized = One(rec: Record) | Many(recs: seq<Record>)

  /** The record an optional lookup gives, if any, as a set. */
  function AsSet(o: Option<Record>): set<Record>
  {
    if o.Some? then {o.value} else {}
  }

  class Repository {
    /** The repository class's own name (`self`). */
    const name: string
    /** The class's in-memory table. */
    const table: Table
    /** The store the class delegates to when it does not persist in memory. */
    const store: Store
    /** The `model_class` class attribute. */
    var modelClass: Option<string>
    /** The `save_in_memory` class attribute. */
    var saveInMemory: bool

    /** A class as it is defined: no model class, saving in memory (line 70). */
    constructor (name: string, table: Table, store: Store)
      ensures this.name == name && this.table == table && this.store == store
      ensures modelClass == None && saveInMemory
    {
      this.name := name;
      this.table := table;
      this.store := store;
      modelClass := None;
      saveInMemory := true;
    }

    /** `get_model_class`. */
    function GetModelClass(): (r: string)
      reads this
      ensures modelClass.None? || saveInMemory ==> r == name
      ensures modelClass.Some? && !saveInMemory ==> r == modelClass.value
    {
      ModelClassOf(name, modelClass, saveInMemory)
    }

    /** `self == get_model_class`, the condition every routing decision tests:
        it holds exactly when there is no model class, the class saves in
        memory, or it is its own model class. */
    predicate InMemory()
      reads this
      ensures InMemory() <==> modelClass.None? || saveInMemory || modelClass == Some(name)
    {
      GetModelClass() == name
    }

    /** `mongoid?`: the model class is a Mongoid document. A class persisting
        in memory is its own model class and never is one. */
    function Mongoid(): (b: bool)
      reads this, store
      ensures b ==> !InMemory()
      ensures !InMemory() ==> (b <==> store.mongoid)
    {
      !InMemory() && store.mongoid
    }

    /** `set_model_class`: the first non-nil value wins; saving in memory is
        then switched on exactly when the class is its own model class. */
    method SetModelClass(value: Option<string>)
      modifies this
      ensures modelClass == FirstWins(old(modelClass), value)
      ensures saveInMemory == (modelClass == Some(name))
      ensures InMemory() <==> modelClass.None? || modelClass == Some(name)
    {
      if modelClass.None? {
        modelClass := value;
      }
      SetSaveInMemory(modelClass == Some(name));
    }

    /** `set_save_in_memory`. */
    method SetSaveInMemory(value: bool)
      modifies this
      ensures saveInMemory == value && modelClass == old(modelClass)
    {
      saveInMemory := value;
    }

    /** Class `serialize!` of a hash: a new instance is assigned the hash and
        a copy of it is returned. */
    method Serialize(a: Attrs) returns (copy: Record)
      ensures fresh(copy) && copy.cls == name && copy.attrs == AssignAttrs(map[], a)
    {
      var blank := new Record(name, map[]);
      copy := SerializeInto(blank, Some(a));
    }

    /** `other.map { |o| serialize!(o.attributes) }`, element by element. */
    method SerializeEach(objs: seq<Record>) returns (r: seq<Record>)
      ensures |r| == |objs|
      ensures forall i :: 0 <= i < |r| ==> fresh(r[i]) && r[i].cls == name
                                           && r[i].attrs == AssignAttrs(map[], objs[i].attrs)
    {
      r := [];
      var i := 0;
      while i < |objs|
        invariant 0 <= i <= |objs| && |r| == i
        invariant forall j :: 0 <= j < i ==> fresh(r[j]) && r[j].cls == name
                                             && r[j].attrs == AssignAttrs(map[], objs[j].attrs)
      {
        var copy := Serialize(objs[i].attrs);
        r := r + [copy];
        i := i + 1;
      }
    }

    /** Class `serialize!`: hashes and documents become one instance, an array
        one instance per element in order, any other object one instance of
        its attributes. */
    method SerializeValue(src: Source) returns (out: Serialized)
      ensures src.ArrayArg? <==> out.Many?
      ensures src.ArrayArg? ==> |out.recs| == |src.objs|
                                && forall i :: 0 <= i < |out.recs| ==>
                                     fresh(out.recs[i]) && out.recs[i].attrs == AssignAttrs(map[], src.objs[i].attrs)
      ensures src.HashArg? || src.IndifferentHashArg? || src.BsonDocument? ==>
                fresh(out.rec) && out.rec.cls == name && out.rec.attrs == AssignAttrs(map[], src.a)
      ensures src.ObjectArg? ==> fresh(out.rec) && out.rec.cls == name && out.rec.attrs == AssignAttrs(map[], src.o.attrs)
    {
      match src
      case HashArg(a) =>
        var r := Serialize(a);
        out := One(r);
      case IndifferentHashArg(a) =>
        var r := Serialize(a);
        out := One(r);
      case ArrayArg(objs) =>
        var rs := SerializeEach(objs);
        out := Many(rs);
      case BsonDocument(a) =>
        var r := Serialize(a);
        out := One(r);
      case ObjectArg(o) =>
        var r := Serialize(o.attrs);
        out := One(r);
    }

    /** Instance `serialize!`: unless the attributes are nil they are
        assigned to the instance; a copy of the instance is returned, never the
        instance itself. */
    method SerializeInto(rec: Record, attributes: Option<Attrs>) returns (copy: Record)
      modifies rec
      ensures attributes.None? ==> rec.attrs == old(rec.attrs)
      ensures attributes.Some? ==> rec.attrs == AssignAttrs(old(rec.attrs), attributes.value)
      ensures fresh(copy) && copy != rec && copy.cls == rec.cls && copy.attrs == rec.attrs
    {
      if attributes.Some? {
        rec.attrs := AssignAttrs(rec.attrs, attributes.value);
      }
      copy := new Record(rec.cls, rec.attrs);
    }

    /** `all`: the table's records, or a serialized copy of every object of
        the store. */
    method All() returns (r: seq<Record>)
      ensures InMemory() ==> r == table.records
      ensures !InMemory() ==> |r| == |store.objects|
                              && forall i :: 0 <= i < |r| ==> fresh(r[i]) && r[i].cls == name
                                                              && r[i].attrs == AssignAttrs(map[], store.objects[i].attrs)
    {
      if InMemory() {
        r := table.records;
      } else {
        r := SerializeEach(store.objects);
      }
    }

    /** `delete_all`: empties the table or the store, never both. */
    method DeleteAll()
      modifies table, store
      ensures InMemory() ==> table.records == [] && table.index == map[] && table.Valid() && unchanged(store)
      ensures !InMemory() ==> store.objects == [] && unchanged(table)
    {
      if InMemory() {
        table.DeleteAll();
      } else {
        store.DeleteAll();
      }
    }

    /** `exists?`: in memory, a record is indexed under the id's string form;
        otherwise the store holds an object with that id. */
    function Exists(id: Value): (b: bool)
      reads this, table, table.records, store, store.objects
      ensures InMemory() && table.Valid() ==>
                (b <==> exists p :: 0 <= p < |table.records| && IndexKey(table.records[p]) == IdString(id))
      ensures !InMemory() ==>
                (b <==> id != Nil && exists p :: 0 <= p < |store.objects| && store.IdOf(store.objects[p]) == id)
    {
      if InMemory() then table.Exists(id) else store.Exists(id)
    }

    /** `where(*args)`: no arguments is an `ArgumentError` whatever the
        routing; in memory, the records meeting every condition of every
        argument; otherwise a serialized copy of each store object meeting
        the first argument. */
    method Where(args: seq<Hash>) returns (r: Result<seq<Record>>)
      ensures args == [] ==> r == Err(ArgumentError)
      ensures args != [] && InMemory() ==> r == Ok(Select(table.records, Concat(args), "id"))
      ensures args != [] && !InMemory() ==>
                r.Ok? && |r.value| == |store.Where(args[0])|
                && forall i :: 0 <= i < |r.value| ==>
                     fresh(r.value[i]) && r.value[i].attrs == AssignAttrs(map[], store.Where(args[0])[i].attrs)
    {
      if args == [] {
        return Err(ArgumentError);
      }
      if InMemory() {
        r := Ok(Select(table.records, Concat(args), "id"));
      } else {
        var objects := SerializeEach(store.Where(args[0]));
        r := Ok(objects);
      }
    }

    /** The attributes `reload` assigns: those of the record found under the
        instance's id (in memory, the instance's own when the id is nil). */
    function Reloaded(id: Value, own: Attrs): (r: Result<Attrs>)
      reads this, table, table.records, store, store.objects
      ensures InMemory() && id == Nil ==> r == Ok(own)
      ensures InMemory() && id != Nil ==> (r.Ok? <==> table.FindById(id).Some?)
      ensures InMemory() && id != Nil && r.Ok? ==> r.value == table.FindById(id).value.attrs
      ensures !InMemory() ==> (r.Ok? <==> store.Find(id).Ok?)
      ensures !InMemory() && r.Ok? ==> r.value == store.Find(id).value.attrs
      ensures r.Err? ==> r.error == RecordNotFound
    {
      if InMemory() then
        match table.Find(id)
        case Err(e) => Err(e)
        case Ok(None) => Ok(own)
        case Ok(Some(o)) => Ok(o.attrs)
      else
        match store.Find(id)
        case Err(e) => Err(e)
        case Ok(o) => Ok(o.attrs)
    }

    /** `reload`: assigns the attributes of the stored counterpart and returns
        a copy; a missing counterpart is `RecordNotFound`. */
    method Reload(rec: Record) returns (r: Result<Record>)
      modifies rec
      ensures old(Reloaded(rec.Id(), rec.attrs)).Err? ==> r == Err(RecordNotFound) && rec.attrs == old(rec.attrs)
      ensures old(Reloaded(rec.Id(), rec.attrs)).Ok? ==>
                && rec.attrs == AssignAttrs(old(rec.attrs), old(Reloaded(rec.Id(), rec.attrs)).value)
                && r.Ok? && fresh(r.value) && r.value.attrs == rec.attrs && r.value.cls == rec.cls
    {
      var src := Reloaded(rec.Id(), rec.attrs);
      if src.Err? {
        return Err(src.error);
      }
      var copy := SerializeInto(rec, Some(src.value));
      r := Ok(copy);
    }

    /** The record the in-memory `save(force)` hands to the table's `save`:
        the instance itself with `force` or a nil id, otherwise the stored
        record `find` returns for the id. */
    ghost function SaveTarget(rec: Record, force: bool): (t: Record)
      reads this, table, table.records, rec
      ensures force || rec.Id() == Nil ==> t == rec
      ensures t == rec || (t in table.records && (table.Valid() ==> IndexKey(t) == IdString(rec.Id())))
      ensures !force ==> t == if Redirect(rec.Id()).Some? then Redirect(rec.Id()).value else rec
    {
      var found := table.Find(rec.Id());
      if force || rec.Id() == Nil || found.Err? || found.value.None? then rec
      else found.value.value
    }

    /** The stored record a non-forced in-memory `save` of an instance with
        id `id` goes to instead of the instance (lines 182-188): the one
        `find` returns for a non-nil id, if any. */
    ghost function Redirect(id: Value): (t: Option<Record>)
      reads this, table
      ensures t.Some? ==> t.value in table.records && id != Nil
      ensures t == if id == Nil then None else table.FindById(id)
    {
      var k := IdString(id);
      if id != Nil && k in table.index && 0 <= table.index[k] < |table.records| then Some(table.records[table.index[k]])
      else None
    }

    /** The table records other than the instance that in-memory `convert`
        of an instance with id `id` and `_id` `mongoId` may change: a record
        holding that id (what `where(:id => id).first` picks, lines 210-212),
        and the record the `save` of line 220 is re-targeted to, the one
        stored under that id or under `mongoId`, which the transfer makes the
        object's id. */
    ghost predicate ConvertMayChange(id: Value, mongoId: Value, e: Record)
      reads this, table, e
    {
      || Get(e.attrs, "id") == id
      || Redirect(id) == Some(e)
      || Redirect(mongoId) == Some(e)
    }

    /** The table records in-memory `convert` of an instance with id `id`
        and `_id` `mongoId` may change, besides the instance. */
    ghost function ConvertChanges(id: Value, mongoId: Value): set<Record>
      reads this, table, table.records
    {
      set e | e in table.records && ConvertMayChange(id, mongoId, e)
    }

    /** The records besides the instance that `convert` of it may change:
        in memory those of `ConvertChanges`, through the delegate the store
        object with the instance's id, if any (lines 209-212). */
    ghost function ConvertTargets(rec: Record): set<Record>
      reads this, table, table.records, rec, store, store.objects
    {
      if InMemory() then ConvertChanges(rec.Id(), Get(rec.attrs, "_id"))
      else AsSet(store.First([(Sym("id"), rec.Id())]))
    }

    /** The records besides the instance that `persist` of it may change:
        the target of the in-memory `save` for a class saving in memory
        (line 168), those of `convert` otherwise. */
    ghost function PersistTargets(rec: Record): set<Record>
      reads this, table, table.records, rec, store, store.objects
    {
      if saveInMemory then {SaveTarget(rec, false)} else ConvertTargets(rec)
    }

    /** `self.id = nil if self.id.nil?` (line 185): the instance's id, nil
        already, is written as nil; nothing the table's `save` depends on
        changes. */
    method ClearId(rec: Record)
      requires rec.Id() == Nil
      modifies rec
      ensures rec.attrs == old(rec.attrs)["id" := Nil]
      ensures forall nextId, now :: table.SaveOutcome(rec, nextId, now) == old(table.SaveOutcome(rec, nextId, now))
      ensures old(table.Valid()) ==> table.Valid()
    {
      ghost var s := table.records;
      ghost var mask := seq(|s|, i requires 0 <= i < |s| reads s, rec => Deletes(s[i], rec));
      KeptByMask(s, rec, mask);
      ghost var wasValid := table.Valid();
      rec.attrs := rec.attrs["id" := Nil];
      assert rec.Id() == old(rec.Id()) && rec.CreatedAt() == old(rec.CreatedAt());
      assert forall i :: 0 <= i < |s| ==> mask[i] == Deletes(s[i], rec);
      KeptByMask(s, rec, mask);
      table.NilIdKeepsOutcome(rec);
      assert wasValid ==> rec !in s && table.Valid();
    }

    /** Lines 184-186 of `save(force)`: the instance itself, its nil id
        written as nil, goes through the table's `save`; the table ends as
        that `save` leaves it, and no other record changes. */
    method SaveItself(rec: Record, nextId: Value, now: Value) returns (r: Result<bool>)
      modifies table, rec
      ensures r.Ok? ==> r.value
      ensures r.Err? ==> r.error == IdError
      ensures Outcome(table.records, table.index, table.dirty, rec.attrs, if r.Ok? then None else Some(r.error))
              == old(table.SaveOutcome(rec, nextId, now))
      ensures old(table.Valid()) && !Falsy(nextId) ==> table.Valid()
      ensures old(table.Valid()) && !Falsy(nextId) && !old(table.Skips(rec)) && r.Ok? ==> table.Placed(rec)
    {
      if rec.Id() == Nil {
        ClearId(rec);
        assert !table.Skips(rec) && !old(table.Skips(rec));
      }
      r := table.Save(rec, nextId, now);
    }

    /** The in-memory branch of `save(force)`: looks the id up first (an
        unknown non-nil id is `RecordNotFound`); with `force` or a nil id the
        instance itself goes through the table's `save`, otherwise the stored
        record found under the id is saved with `force`. Either way the
        table ends as the table's `save` of that target leaves it, and no
        other record changes. */
    method SaveLocal(rec: Record, force: bool, nextId: Value, now: Value) returns (r: Result<bool>)
      modifies table, rec, SaveTarget(rec, force)
      ensures r.Ok? ==> r.value
      ensures r.Err? ==> r.error == RecordNotFound || r.error == IdError
      ensures old(table.Find(rec.Id())).Err? ==> r == Err(RecordNotFound)
      ensures old(table.Valid()) && r == Err(RecordNotFound) ==> old(table.Find(rec.Id())).Err?
      ensures r == Err(RecordNotFound) ==> unchanged(table) && unchanged(table.records) && unchanged(rec)
      ensures var target := old(SaveTarget(rec, force));
              r != Err(RecordNotFound) ==>
                && Outcome(table.records, table.index, table.dirty, target.attrs,
                           if r.Ok? then None else Some(r.error))
                   == old(table.SaveOutcome(target, nextId, now))
                && (target != rec ==> unchanged(rec))
      ensures forall e :: e in old(table.records) && e != old(SaveTarget(rec, force)) ==> unchanged(e)
      ensures old(table.Valid()) && !Falsy(nextId) ==> table.Valid()
      ensures var target := old(SaveTarget(rec, force));
              old(table.Valid()) && !Falsy(nextId) && !old(table.Skips(target)) && r.Ok? ==> table.Placed(target)
      decreases if force then 0 else 1
    {
      var found := table.Find(rec.Id());
      if found.Err? {
        return Err(RecordNotFound);
      }
      if force || rec.Id() == Nil {
        var saved := SaveItself(rec, nextId, now);
        if saved.Err? {
          return Err(saved.error);
        }
      } else {
        var stored := found.value.value;
        assert stored == SaveTarget(rec, force);
        var again := SaveLocal(stored, true, nextId, now);
        assert old(SaveTarget(stored, true)) == stored;
        assert stored != rec ==> unchanged(rec) by {
          if stored != rec && rec in old(table.records) {
            assert rec in old(table.records) && rec != old(SaveTarget(stored, true));
          }
        }
        if again.Err? {
          return again;
        }
      }
      r := Ok(true);
    }

    /** Lines 214-218 of `convert`: the instance's attribute hash loses `id`
        (`attributes` aliases it) and is assigned to the object. Stored ids
        keep their values when the hash has no `_id`, so the table stays
        valid. */
    method Transfer(rec: Record, obj: Record)
      modifies rec, obj
      ensures obj != rec ==> rec.attrs == old(rec.attrs) - {"id"}
      ensures obj.attrs == AssignAttrs(if obj == rec then old(rec.attrs) - {"id"} else old(obj.attrs), old(rec.attrs) - {"id"})
      ensures "_id" !in old(rec.attrs) && obj != rec ==> obj.Id() == old(obj.Id())
      ensures obj.Id() == if "_id" in old(rec.attrs) then old(rec.attrs)["_id"] else if obj == rec then Nil else old(obj.Id())
      ensures old(table.Valid()) && rec !in table.records && "_id" !in old(rec.attrs) && obj != rec ==> table.Valid()
    {
      var attributes := rec.attrs - {"id"};
      rec.attrs := attributes;
      obj.attrs := AssignAttrs(obj.attrs, attributes);
      if old(table.Valid()) && rec !in table.records && "_id" !in old(rec.attrs) && obj != rec {
        assert forall p :: 0 <= p < |table.records| ==> table.records[p].Id() == old(table.records[p].Id());
        table.ValidKeepsIds();
      }
    }

    /** The in-memory `save` of an object that is stored or has no id, as
        `convert` (line 220) and `create` make it. On a valid table the table
        stays valid and gains at most that object, and a successful save
        places it holding its attributes with its id assigned and the
        timestamps set. */
    method SaveObject(obj: Record, nextId: Value, now: Value) returns (saved: Result<bool>)
      modifies table, obj, SaveTarget(obj, false)
      ensures saved.Ok? ==> saved.value
      ensures saved.Err? ==> saved.error == RecordNotFound || saved.error == IdError
      ensures old(table.Find(obj.Id())).Err? ==> saved == Err(RecordNotFound)
      ensures old(table.Valid()) && !Falsy(nextId) && (old(obj.Id()) == Nil || obj in old(table.records)) ==>
                && table.Valid()
                && (forall e :: e in table.records ==> e in old(table.records) || e == obj)
                && (saved.Ok? ==> table.Placed(obj) && obj.attrs == Stamped(WithId(old(obj.attrs), nextId), table.fields, now))
      ensures old(SaveTarget(obj, false)) != obj ==> unchanged(obj)
      ensures obj !in old(table.records) && old(SaveTarget(obj, false)) == obj ==>
                forall e :: e in old(table.records) ==> e in table.records
    {
      if obj !in table.records {
        table.OutcomeKeeps(obj, nextId, now);
      }
      ghost var pre := table.Valid() && !Falsy(nextId) && (obj.Id() == Nil || obj in table.records);
      if pre {
        if obj in table.records {
          table.FindsStored(obj);
        }
        table.NeverSkips(obj);
        assert SaveTarget(obj, false) == obj;
        table.OutcomeMembers(obj, nextId, now);
        table.OutcomeAttrs(obj, nextId, now);
      }
      saved := SaveLocal(obj, false, nextId, now);
    }

    /** Line 222 of `convert`: the instance takes the saved object's id. An
        instance that is not stored leaves the table as it was. */
    method TakeId(rec: Record, obj: Record)
      modifies rec
      ensures rec.attrs == old(rec.attrs)["id" := obj.Id()]
      ensures rec != obj && rec !in table.records ==>
                table.Valid() == old(table.Valid()) && table.Placed(obj) == old(table.Placed(obj))
    {
      rec.attrs := rec.attrs["id" := obj.Id()];
      if rec != obj && rec !in table.records {
        table.Untouched(obj);
      }
    }

    /** Lines 214-220 of `convert`: the instance's attributes except `id`
        go onto the object, which is saved in memory. Besides the two, only
        the record that `save` is re-targeted to can change, the one stored
        under the object's id or under the instance's `_id`. On a valid
        table, for a stored object or one without an id, distinct from an
        instance that is not stored and has no `_id`, the table stays valid,
        the instance stays out of it, and the saved object ends where the
        table's `save` puts it. */
    method SaveTransferred(rec: Record, obj: Record, nextId: Value, now: Value) returns (saved: Result<bool>)
      modifies rec, obj, table, AsSet(Redirect(obj.Id())), AsSet(Redirect(Get(rec.attrs, "_id")))
      ensures saved.Ok? ==> saved.value
      ensures saved.Err? ==> saved.error == RecordNotFound || saved.error == IdError
      ensures old(table.Valid()) && !Falsy(nextId) && rec !in old(table.records) && "_id" !in old(rec.attrs)
              && obj != rec && (old(obj.Id()) == Nil || obj in old(table.records)) ==>
                && table.Valid()
                && rec !in table.records
                && rec.attrs == old(rec.attrs) - {"id"}
                && (saved.Ok? ==>
                      && table.Placed(obj)
                      && obj.attrs == Stamped(WithId(AssignAttrs(old(obj.attrs), old(rec.attrs) - {"id"}), nextId), table.fields, now))
    {
      ghost var byId, byMongoId := Redirect(obj.Id()), Redirect(Get(rec.attrs, "_id"));
      Transfer(rec, obj);
      ghost var target := SaveTarget(obj, false);
      assert target == obj || Some(target) == byId || Some(target) == byMongoId;
      saved := SaveObject(obj, nextId, now);
    }

    /** Lines 214-224 of `convert`, once the object is chosen: it is
        assigned the instance's attributes except `id`, saved in memory, and
        the instance takes its id. On a valid table, for a stored object or
        one without an id, distinct from an instance that is not stored and
        has no `_id`, the table stays valid and the saved object ends where
        the table's `save` puts it. */
    method ConvertOnto(rec: Record, obj: Record, nextId: Value, now: Value) returns (r: Result<Record>)
      modifies rec, obj, table, AsSet(Redirect(obj.Id())), AsSet(Redirect(Get(rec.attrs, "_id")))
      ensures r.Ok? ==> r.value == obj && rec.Id() == obj.Id()
      ensures r.Err? ==> r.error == RecordNotFound || r.error == IdError
      ensures old(table.Valid()) && !Falsy(nextId) && rec !in old(table.records) && "_id" !in old(rec.attrs)
              && obj != rec && (old(obj.Id()) == Nil || obj in old(table.records)) ==>
                && table.Valid()
                && (r.Ok? ==>
                      && table.Placed(obj)
                      && obj.attrs == Stamped(WithId(AssignAttrs(old(obj.attrs), old(rec.attrs) - {"id"}), nextId), table.fields, now)
                      && rec.attrs == (old(rec.attrs) - {"id"})["id" := obj.Id()])
    {
      var saved := SaveTransferred(rec, obj, nextId, now);
      if saved.Err? {
        return Err(saved.error);
      }
      TakeId(rec, obj);
      r := Ok(obj);
    }

    /** `convert` on a class that routes to itself (`get_model_class` is the
        class): the first record of the table whose id is the instance's, or
        a new instance, is assigned the instance's attributes except `id`
        (which the instance's own hash loses too, since `attributes` aliases
        it) and saved in memory; the instance then takes its id. On a valid
        table, for an instance that is not itself stored and has no `_id`,
        the saved record ends where the table's `save` puts it, holding the
        assigned attributes with its id assigned and the timestamps set. */
    method ConvertInMemory(rec: Record, nextId: Value, now: Value) returns (r: Result<Record>)
      requires InMemory()
      modifies rec, table, ConvertChanges(rec.Id(), Get(rec.attrs, "_id"))
      ensures var first := old(Select(table.records, [(Sym("id"), rec.Id())], "id"));
              r.Ok? ==> (if first != [] then r.value == first[0] else fresh(r.value) && r.value.cls == name)
      ensures r.Ok? ==> rec.Id() == r.value.Id()
      ensures r.Err? ==> r.error == RecordNotFound || r.error == IdError
      ensures var first := old(Select(table.records, [(Sym("id"), rec.Id())], "id"));
              var base := if first != [] then old(first[0].attrs) else map[];
              old(table.Valid()) && !Falsy(nextId) && rec !in old(table.records) && "_id" !in old(rec.attrs) ==>
                && table.Valid()
                && (r.Ok? ==>
                      && table.Placed(r.value)
                      && r.value.attrs == Stamped(WithId(AssignAttrs(base, old(rec.attrs) - {"id"}), nextId), table.fields, now)
                      && rec.attrs == (old(rec.attrs) - {"id"})["id" := r.value.Id()])
    {
      var obj := ConvertObject(rec);
      ghost var byId, byMongoId := Redirect(obj.Id()), Redirect(Get(rec.attrs, "_id"));
      ghost var changes := ConvertChanges(rec.Id(), Get(rec.attrs, "_id"));
      assert byId == None || byId == Redirect(rec.Id());
      assert obj in table.records ==> obj in changes;
      assert AsSet(byId) <= changes && AsSet(byMongoId) <= changes;
      r := ConvertOnto(rec, obj, nextId, now);
    }

    /** Lines 210-212 of `convert` on a class that routes to itself: the
        first table record whose id is the instance's, or a new instance of
        the class. Either way the object has no id or has the instance's. */
    method ConvertObject(rec: Record) returns (obj: Record)
      requires InMemory()
      ensures var first := Select(table.records, [(Sym("id"), rec.Id())], "id");
              if first != [] then obj == first[0] else fresh(obj) && obj.cls == name && obj.attrs == map[]
      ensures (obj in table.records && obj.Id() == rec.Id()) || (fresh(obj) && obj.Id() == Nil)
    {
      var found := Where([[(Sym("id"), rec.Id())]]);
      assert Concat([[(Sym("id"), rec.Id())]]) == [(Sym("id"), rec.Id())];
      if found.value != [] {
        obj := found.value[0];
        assert obj in table.records;
        ghost var cond := [(Sym("id"), rec.Id())];
        assert Meets(obj.attrs, cond, "id");
        assert Get(obj.attrs, FieldFor(cond[0].0.name, "id")) == cond[0].1;
      } else {
        obj := new Record(name, map[]);
      }
    }

    /** `convert` into the delegate store: the store object with the
        instance's id, or a new one, receives all the instance's attributes
        except `id` and is saved; the instance takes the object's id. The
        instance's own attribute hash loses `id` on the way, since that is
        the hash `attributes` aliases. The instance, a repository object, is
        never one of the store's. */
    method ConvertToStore(rec: Record) returns (obj: Record)
      requires rec !in store.objects
      modifies rec, store, AsSet(store.First([(Sym("id"), rec.Id())]))
      ensures var first := old(store.First([(Sym("id"), rec.Id())]));
              && (first.Some? ==> obj == first.value
                                  && obj.attrs == old(store.Saved(Merge(first.value.attrs, rec.attrs - {"id"}, store.IdField())))
                                  && store.objects == old(store.objects))
              && (first.None? ==> fresh(obj)
                                  && obj.attrs == old(store.Saved(Merge(map[], rec.attrs - {"id"}, store.IdField())))
                                  && store.objects == old(store.objects) + [obj])
      ensures obj in store.objects
      ensures rec.attrs == (old(rec.attrs) - {"id"})["id" := store.IdOf(obj)]
    {
      var first := store.First([(Sym("id"), rec.Id())]);
      if first.Some? {
        obj := first.value;
      } else {
        obj := store.New([]);
      }
      SaveOntoObject(rec, obj);
    }

    /** Lines 214-222 of `convert`: the instance's attributes but `id` go
        onto the store object, which is saved, and the instance takes its id. */
    method SaveOntoObject(rec: Record, obj: Record)
      requires rec !in store.objects && obj != rec
      modifies rec, store, obj
      ensures obj.attrs == old(store.Saved(Merge(obj.attrs, rec.attrs - {"id"}, store.IdField())))
      ensures store.objects == if obj in old(store.objects) then old(store.objects) else old(store.objects) + [obj]
      ensures rec.attrs == (old(rec.attrs) - {"id"})["id" := store.IdOf(obj)]
    {
      var attributes := rec.attrs - {"id"};
      rec.attrs := attributes;
      obj.attrs := Merge(obj.attrs, attributes, store.IdField());
      store.Save(obj);
      rec.attrs := rec.attrs["id" := store.IdOf(obj)];
    }

    /** `convert`: into the class's own table when it routes to itself,
        into the delegate store otherwise. */
    method Convert(rec: Record, nextId: Value, now: Value) returns (r: Result<Record>)
      requires !InMemory() ==> rec !in store.objects
      modifies rec, table, store, ConvertTargets(rec)
      ensures InMemory() ==>
                && unchanged(store)
                && (var first := old(Select(table.records, [(Sym("id"), rec.Id())], "id"));
                    r.Ok? ==> (if first != [] then r.value == first[0] else fresh(r.value) && r.value.cls == name))
                && (r.Ok? ==> rec.Id() == r.value.Id())
                && (r.Err? ==> r.error == RecordNotFound || r.error == IdError)
      ensures InMemory() ==>
                var first := old(Select(table.records, [(Sym("id"), rec.Id())], "id"));
                var base := if first != [] then old(first[0].attrs) else map[];
                old(table.Valid()) && !Falsy(nextId) && rec !in old(table.records) && "_id" !in old(rec.attrs) ==>
                  && table.Valid()
                  && (r.Ok? ==>
                        && table.Placed(r.value)
                        && r.value.attrs == Stamped(WithId(AssignAttrs(base, old(rec.attrs) - {"id"}), nextId), table.fields, now)
                        && rec.attrs == (old(rec.attrs) - {"id"})["id" := r.value.Id()])
      ensures !InMemory() ==>
                && unchanged(table)
                && r.Ok?
                && (var first := old(store.First([(Sym("id"), rec.Id())]));
                    && (first.Some? ==>
                          && r.value == first.value
                          && r.value.attrs == old(store.Saved(Merge(first.value.attrs, rec.attrs - {"id"}, store.IdField())))
                          && store.objects == old(store.objects))
                    && (first.None? ==>
                          && fresh(r.value)
                          && r.value.attrs == old(store.Saved(Merge(map[], rec.attrs - {"id"}, store.IdField())))
                          && store.objects == old(store.objects) + [r.value]))
                && r.value in store.objects
                && rec.attrs == (old(rec.attrs) - {"id"})["id" := store.IdOf(r.value)]
    {
      if InMemory() {
        r := ConvertInMemory(rec, nextId, now);
      } else {
        var obj := ConvertToStore(rec);
        r := Ok(obj);
      }
    }

    /** `persist` on a class that saves in memory: the instance is validated
        (stamping its timestamps); an invalid one is not persisted (nil); a
        valid one is saved by the in-memory branch of `save` (`SaveHere`),
        since saving in memory makes the class its own model class. */
    method PersistSaving(rec: Record, nextId: Value, now: Value) returns (r: Result<Option<bool>>)
      requires saveInMemory
      modifies rec, table, SaveTarget(rec, false)
      ensures var st := Stamped(old(rec.attrs), table.fields, now);
              !table.validations(st) ==>
                && r == Ok(None) && unchanged(table) && rec.attrs == st
                && (forall e :: e in old(table.records) && e != rec ==> unchanged(e))
      ensures r.Ok? && r.value.Some? ==> r.value.value
      ensures r.Err? ==> r.error == RecordNotFound || r.error == IdError
      ensures var st := Stamped(old(rec.attrs), table.fields, now);
              table.validations(st) && old(table.Valid()) && !Falsy(nextId) && rec !in old(table.records) ==>
                && table.Valid()
                && (r.Ok? ==> r.value.Some? && table.Placed(old(SaveTarget(rec, false))))
    {
      ghost var target := SaveTarget(rec, false);
      var ok := Validate(rec, table.fields, table.validations, now);
      if !ok {
        return Ok(None);
      }
      assert InMemory();
      assert SaveTarget(rec, false) == target;
      r := SaveHere(rec, nextId, now);
    }

    /** `persist` on a class that does not save in memory but is its own
        model class: the instance is validated; an invalid one is not
        persisted (nil); a valid one is converted into the table, and
        `persist` answers whether `convert` gave an object (always, unless
        it raised). */
    method PersistToTable(rec: Record, nextId: Value, now: Value) returns (r: Result<Option<bool>>)
      requires !saveInMemory && InMemory()
      modifies rec, table, ConvertChanges(rec.Id(), Get(rec.attrs, "_id"))
      ensures var st := Stamped(old(rec.attrs), table.fields, now);
              !table.validations(st) ==>
                && r == Ok(None) && unchanged(table) && rec.attrs == st
                && (forall e :: e in old(table.records) && e != rec ==> unchanged(e))
      ensures r.Ok? && r.value.Some? ==> r.value.value
      ensures r.Err? ==> r.error == RecordNotFound || r.error == IdError
      ensures var st := Stamped(old(rec.attrs), table.fields, now);
              var first := old(Select(table.records, [(Sym("id"), rec.Id())], "id"));
              table.validations(st) && old(table.Valid()) && !Falsy(nextId) && rec !in old(table.records) && "_id" !in st ==>
                && table.Valid()
                && (r.Ok? ==> r.value.Some?)
                && (r.Ok? && first != [] ==>
                      && table.Placed(first[0])
                      && first[0].attrs == Stamped(WithId(AssignAttrs(old(first[0].attrs), st - {"id"}), nextId), table.fields, now))
                && (r.Ok? ==> rec.attrs == (st - {"id"})["id" := rec.Id()])
    {
      var ok := ValidateApart(rec, now);
      if !ok {
        return Ok(None);
      }
      assert Get(rec.attrs, "_id") == Get(old(rec.attrs), "_id");
      var obj := ConvertInMemory(rec, nextId, now);
      r := if obj.Err? then Err(obj.error) else Ok(Some(true));
    }

    /** `valid?` (line 167) on an instance: its timestamps are stamped and
        the validations decide. When the table does not hold the instance,
        the table keeps its invariant and `where(:id => id)` selects the
        same records, holding the same attributes. */
    method ValidateApart(rec: Record, now: Value) returns (ok: bool)
      modifies rec
      ensures rec.attrs == Stamped(old(rec.attrs), table.fields, now)
      ensures ok == table.validations(rec.attrs)
      ensures rec.Id() == old(rec.Id())
      ensures var sel := old(Select(table.records, [(Sym("id"), rec.Id())], "id"));
              rec !in table.records ==>
                && table.Valid() == old(table.Valid())
                && Select(table.records, [(Sym("id"), rec.Id())], "id") == sel
                && (sel != [] ==> sel[0].attrs == old(sel[0].attrs))
    {
      ghost var sel := Select(table.records, [(Sym("id"), rec.Id())], "id");
      ok := Validate(rec, table.fields, table.validations, now);
      if rec !in table.records {
        assert forall p :: 0 <= p < |table.records| ==> table.records[p] != rec;
        if sel != [] {
          assert sel[0] in table.records;
        }
      }
    }

    /** `persist` on a class whose model class is the delegate: the instance
        is validated; an invalid one is not persisted (nil); a valid one is
        converted into the store, which always gives an object. */
    method PersistToStore(rec: Record, now: Value) returns (r: Result<Option<bool>>)
      requires !InMemory() && rec !in store.objects
      modifies rec, store, AsSet(store.First([(Sym("id"), rec.Id())]))
      ensures var st := Stamped(old(rec.attrs), table.fields, now);
              !table.validations(st) ==>
                r == Ok(None) && unchanged(store) && rec.attrs == st
      ensures var st := Stamped(old(rec.attrs), table.fields, now);
              var first := old(store.First([(Sym("id"), rec.Id())]));
              table.validations(st) ==>
                && r == Ok(Some(true))
                && (first.Some? ==>
                      && first.value.attrs == old(store.Saved(Merge(first.value.attrs, st - {"id"}, store.IdField())))
                      && store.objects == old(store.objects))
                && (first.None? ==>
                      && |store.objects| == |old(store.objects)| + 1
                      && store.objects[..|old(store.objects)|] == old(store.objects)
                      && store.objects[|old(store.objects)|].attrs == old(store.Saved(Merge(map[], st - {"id"}, store.IdField()))))
                && rec.attrs == (st - {"id"})["id" := rec.Id()]
      ensures !table.validations(Stamped(old(rec.attrs), table.fields, now)) ==>
                forall e :: (e in old(table.records) || e in old(store.objects)) && e != rec ==> unchanged(e)
    {
      ghost var first := store.First([(Sym("id"), rec.Id())]);
      var ok := Validate(rec, table.fields, table.validations, now);
      if !ok {
        return Ok(None);
      }
      assert store.First([(Sym("id"), rec.Id())]) == first;
      var obj := ConvertToStore(rec);
      r := Ok(Some(true));
    }

    /** `persist` (line 169): a class saving in memory validates and saves
        the instance, any other validates and converts it; `convert` goes to
        the table or to the store as the model class says (line 209). */
    method Persist(rec: Record, nextId: Value, now: Value) returns (r: Result<Option<bool>>)
      requires !InMemory() ==> rec !in store.objects
      modifies rec, table, store, PersistTargets(rec)
      ensures var st := Stamped(old(rec.attrs), table.fields, now);
              !table.validations(st) ==>
                && r == Ok(None) && unchanged(table) && unchanged(store) && rec.attrs == st
                && (forall e :: (e in old(table.records) || e in old(store.objects)) && e != rec ==> unchanged(e))
      ensures r.Ok? && r.value.Some? ==> r.value.value
      ensures r.Err? ==> r.error == RecordNotFound || r.error == IdError
      ensures InMemory() ==> unchanged(store)
      ensures var st := Stamped(old(rec.attrs), table.fields, now);
              table.validations(st) && saveInMemory && old(table.Valid()) && !Falsy(nextId) && rec !in old(table.records) ==>
                && table.Valid()
                && (r.Ok? ==> r.value.Some? && table.Placed(old(SaveTarget(rec, false))))
      ensures var st := Stamped(old(rec.attrs), table.fields, now);
              var first := old(Select(table.records, [(Sym("id"), rec.Id())], "id"));
              table.validations(st) && !saveInMemory && InMemory()
              && old(table.Valid()) && !Falsy(nextId) && rec !in old(table.records) && "_id" !in st ==>
                && table.Valid()
                && (r.Ok? ==> r.value.Some?)
                && (r.Ok? && first != [] ==>
                      && table.Placed(first[0])
                      && first[0].attrs == Stamped(WithId(AssignAttrs(old(first[0].attrs), st - {"id"}), nextId), table.fields, now))
                && (r.Ok? ==> rec.attrs == (st - {"id"})["id" := rec.Id()])
      ensures var st := Stamped(old(rec.attrs), table.fields, now);
              var first := old(store.First([(Sym("id"), rec.Id())]));
              table.validations(st) && !InMemory() ==>
                && r == Ok(Some(true))
                && unchanged(table)
                && (first.Some? ==>
                      && first.value.attrs == old(store.Saved(Merge(first.value.attrs, st - {"id"}, store.IdField())))
                      && store.objects == old(store.objects))
                && (first.None? ==>
                      && |store.objects| == |old(store.objects)| + 1
                      && store.objects[..|old(store.objects)|] == old(store.objects)
                      && store.objects[|old(store.objects)|].attrs == old(store.Saved(Merge(map[], st - {"id"}, store.IdField()))))
                && rec.attrs == (st - {"id"})["id" := rec.Id()]
    {
      if saveInMemory {
        r := PersistSaving(rec, nextId, now);
      } else if InMemory() {
        r := PersistToTable(rec, nextId, now);
      } else {
        r := PersistToStore(rec, now);
      }
    }

    /** The in-memory branch of `save(force = false)` (lines 181-190): the
        table's `save` of the instance, or of the record stored under its
        id, answering true. On a valid table it keeps the table valid and a
        successful save places the record saved. */
    method SaveHere(rec: Record, nextId: Value, now: Value) returns (r: Result<Option<bool>>)
      requires InMemory()
      modifies rec, table, SaveTarget(rec, false)
      ensures r.Ok? ==> r == Ok(Some(true))
      ensures r.Err? ==> r.error == RecordNotFound || r.error == IdError
      ensures old(table.Find(rec.Id())).Err? ==> r == Err(RecordNotFound)
      ensures old(table.Valid()) && r == Err(RecordNotFound) ==> old(table.Find(rec.Id())).Err?
      ensures var target := old(SaveTarget(rec, false));
              r != Err(RecordNotFound) ==>
                && Outcome(table.records, table.index, table.dirty, target.attrs,
                           if r.Ok? then None else Some(r.error))
                   == old(table.SaveOutcome(target, nextId, now))
                && (target != rec ==> unchanged(rec))
      ensures old(table.Valid()) && !Falsy(nextId) ==> table.Valid()
      ensures old(table.Valid()) && !Falsy(nextId) && r.Ok? ==> table.Placed(old(SaveTarget(rec, false)))
    {
      ghost var target := SaveTarget(rec, false);
      if table.Valid() {
        if rec.Id() == Nil {
          table.NeverSkips(rec);
        } else if table.Find(rec.Id()).Ok? {
          assert target in table.records;
          table.NeverSkips(target);
        }
      }
      var saved := SaveLocal(rec, false, nextId, now);
      r := if saved.Err? then Err(saved.error) else Ok(Some(saved.value));
    }

    /** `save(force = false)`: in memory, the in-memory branch; otherwise
        `persist`, which then converts into the store. */
    method Save(rec: Record, nextId: Value, now: Value) returns (r: Result<Option<bool>>)
      requires !InMemory() ==> rec !in store.objects
      modifies rec, table, store, if InMemory() then {SaveTarget(rec, false)} else ConvertTargets(rec)
      ensures InMemory() ==> unchanged(store) && (r.Ok? ==> r == Ok(Some(true)))
      ensures InMemory() ==> (r.Err? ==> r.error == RecordNotFound || r.error == IdError)
      ensures InMemory() && old(table.Find(rec.Id())).Err? ==> r == Err(RecordNotFound)
      ensures InMemory() && old(table.Valid()) && r == Err(RecordNotFound) ==> old(table.Find(rec.Id())).Err?
      ensures var target := old(SaveTarget(rec, false));
              InMemory() && r != Err(RecordNotFound) ==>
                && Outcome(table.records, table.index, table.dirty, target.attrs,
                           if r.Ok? then None else Some(r.error))
                   == old(table.SaveOutcome(target, nextId, now))
                && (target != rec ==> unchanged(rec))
      ensures InMemory() && old(table.Valid()) && !Falsy(nextId) ==> table.Valid()
      ensures var target := old(SaveTarget(rec, false));
              InMemory() && old(table.Valid()) && !Falsy(nextId) && r.Ok? ==> table.Placed(target)
      ensures var st := Stamped(old(rec.attrs), table.fields, now);
              var first := old(store.First([(Sym("id"), rec.Id())]));
              !InMemory() ==>
                && unchanged(table)
                && (!table.validations(st) ==>
                      && r == Ok(None) && unchanged(store) && rec.attrs == st
                      && (forall e :: (e in old(table.records) || e in old(store.objects)) && e != rec ==> unchanged(e)))
                && (table.validations(st) ==>
                      && r == Ok(Some(true))
                      && (first.Some? ==>
                            && first.value.attrs == old(store.Saved(Merge(first.value.attrs, st - {"id"}, store.IdField())))
                            && store.objects == old(store.objects))
                      && (first.None? ==>
                            && |store.objects| == |old(store.objects)| + 1
                            && store.objects[..|old(store.objects)|] == old(store.objects)
                            && store.objects[|old(store.objects)|].attrs == old(store.Saved(Merge(map[], st - {"id"}, store.IdField()))))
                      && rec.attrs == (st - {"id"})["id" := rec.Id()])
    {
      if InMemory() {
        r := SaveHere(rec, nextId, now);
      } else {
        r := Persist(rec, nextId, now);
      }
    }
  }
}
