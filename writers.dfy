/** The writer operations a repository class offers: `create`,
    `find_or_create`, and the instance-level `update_attribute` and
    `update_attributes` (`attributes=` is `Records.AssignAttributes`). */
module Writers {
  import opened Values
  import opened Records
  import opened WriteSupport
  import opened Delegate
  import opened Base

  /** The field an object of the class's model class keeps its id in. */
  function IdFieldOf(repo: Repository): (f: string)
    reads repo, repo.store
    ensures repo.InMemory() ==> f == "id"
    ensures !repo.InMemory() ==> f == repo.store.IdField()
  {
    if repo.InMemory() then "id" else repo.store.IdField()
  }

  /** The attributes `get_model_class.new(attributes)` starts with. */
  function NewAttrs(repo: Repository, h: Hash): (a: Attrs)
    reads repo, repo.store
    ensures repo.InMemory() ==> a.Keys == set i | 0 <= i < |h| :: SetterName(h[i].0)
    ensures !repo.InMemory() ==> forall i :: 0 <= i < |h| ==> FieldFor(h[i].0.name, repo.store.IdField()) in a
  {
    AssignHashKeys(map[], h);
    if repo.InMemory() then AssignHash(map[], h) else Apply(map[], h, repo.store.IdField())
  }

  /** What `new(attributes)` gives each name: the value of the last pair
      whose setter (in memory) or field (in the store) it is, and nothing
      when no pair reaches it. */
  lemma NewAttrsLastWins(repo: Repository, h: Hash, n: string)
    ensures repo.InMemory() && Untouched(h, n) ==> Get(NewAttrs(repo, h), n) == Nil
    ensures repo.InMemory() ==> forall i :: LastFor(h, i, n) ==> Get(NewAttrs(repo, h), n) == h[i].1
    ensures !repo.InMemory() && Unwritten(h, n, repo.store.IdField()) ==> Get(NewAttrs(repo, h), n) == Nil
    ensures !repo.InMemory() ==>
              forall i :: WrittenLast(h, i, n, repo.store.IdField()) ==> Get(NewAttrs(repo, h), n) == h[i].1
  {
    if repo.InMemory() {
      AssignHashLastWins(map[], h, n);
    } else {
      ApplyLastWins(map[], h, n, repo.store.IdField());
    }
  }

  /** The candidate of `create` after line 29: the id is cleared when an
      object with that id already exists. */
  function CandidateAttrs(repo: Repository, h: Hash): (a: Attrs)
    reads repo, repo.table, repo.table.records, repo.store, repo.store.objects
    ensures var n := NewAttrs(repo, h); var f := IdFieldOf(repo);
            repo.Exists(Get(n, f)) ==> Get(a, f) == Nil
    ensures var n := NewAttrs(repo, h); var f := IdFieldOf(repo);
            !repo.Exists(Get(n, f)) ==> a == n
    ensures forall g :: g != IdFieldOf(repo) ==> Get(a, g) == Get(NewAttrs(repo, h), g)
  {
    var n := NewAttrs(repo, h);
    var f := IdFieldOf(repo);
    if repo.Exists(Get(n, f)) then n[f := Nil] else n
  }

  /** `create` never sets out with an id that is already taken: the candidate's
      id is nil or names no existing object. */
  lemma CandidateIdIsFree(repo: Repository, h: Hash)
    ensures var f := IdFieldOf(repo); var id := Get(CandidateAttrs(repo, h), f);
            id == Nil || !repo.Exists(id)
  {
  }

  /** Lines 27-29 of `create`: a new object of the model class, its id
      cleared if that id exists. */
  method Candidate(repo: Repository, h: Hash) returns (obj: Record)
    ensures fresh(obj)
    ensures obj.cls == if repo.InMemory() then repo.name else repo.store.cls
    ensures obj.attrs == CandidateAttrs(repo, h)
  {
    if repo.InMemory() {
      obj := new Record(repo.name, map[]);
      AssignAttributes(obj, h);
    } else {
      obj := repo.store.New(h);
    }
    ghost var n := NewAttrs(repo, h);
    assert obj.attrs == n;
    var f := IdFieldOf(repo);
    var taken := repo.Exists(Get(obj.attrs, f));
    assert CandidateAttrs(repo, h) == if taken then n[f := Nil] else n;
    if taken {
      obj.attrs := obj.attrs[f := Nil];
    }
  }

  /** `create` on a class that is its own model class (lines 27-31): the
      candidate is saved in memory. An id that exists was cleared, so
      `insert` assigns `next_id`; an explicit id that does not exist ends in
      `RecordNotFound`, because `save` looks it up first. The result is a
      serialized copy of the candidate as saved. */
  method CreateHere(repo: Repository, h: Hash, nextId: Value, now: Value) returns (r: Result<Record>)
    requires repo.InMemory()
    modifies repo.table
    ensures forall e :: e in old(repo.table.records) ==> e in repo.table.records
    ensures r.Ok? ==> fresh(r.value) && r.value.cls == repo.name
    ensures r.Err? ==> r.error == RecordNotFound || r.error == IdError
    ensures var n := old(NewAttrs(repo, h)); var id := Get(n, "id");
            id != Nil && !old(repo.Exists(id)) ==> r == Err(RecordNotFound)
    ensures var c := old(CandidateAttrs(repo, h));
            var a := Stamped(WithId(c, nextId), repo.table.fields, now);
            old(repo.table.Valid()) && !Falsy(nextId) && Get(c, "id") == Nil ==>
              && repo.table.Valid()
              && (r.Ok? ==> r.value.attrs == AssignAttrs(map[], a))
              && (r.Ok? && repo.table.validations(a) ==>
                    repo.table.FindById(nextId).Some? && repo.table.FindById(nextId).value.attrs == a)
              && (r.Ok? && !repo.table.validations(a) ==>
                    forall e :: e in repo.table.records ==> e in old(repo.table.records))
  {
    var obj := Candidate(repo, h);
    ghost var n := NewAttrs(repo, h);
    if Get(n, "id") != Nil && !repo.Exists(Get(n, "id")) {
      assert obj.Id() == Get(n, "id") && repo.table.Find(obj.Id()).Err?;
    }
    CandidateIdIsFree(repo, h);
    assert repo.SaveTarget(obj, false) == obj;
    r := SaveCandidate(repo, obj, nextId, now);
  }

  /** Lines 32 and 38 of `create`: the new object of the class is saved
      and the result is a serialized copy of it. A fresh candidate without
      an id takes `next_id`, and then `find_by_id` finds it exactly when it
      validates. */
  method SaveCandidate(repo: Repository, obj: Record, nextId: Value, now: Value) returns (r: Result<Record>)
    requires repo.InMemory() && obj !in repo.table.records
    modifies repo.table, obj, repo.SaveTarget(obj, false)
    ensures old(repo.SaveTarget(obj, false)) == obj ==> forall e :: e in old(repo.table.records) ==> e in repo.table.records
    ensures r.Ok? ==> fresh(r.value) && r.value.cls == repo.name
    ensures r.Err? ==> r.error == RecordNotFound || r.error == IdError
    ensures old(repo.table.Find(obj.Id())).Err? ==> r == Err(RecordNotFound)
    ensures var a := Stamped(WithId(old(obj.attrs), nextId), repo.table.fields, now);
            old(repo.table.Valid()) && !Falsy(nextId) && old(obj.Id()) == Nil ==>
              && repo.table.Valid()
              && (r.Ok? ==> r.value.attrs == AssignAttrs(map[], a))
              && (r.Ok? && repo.table.validations(a) ==>
                    repo.table.FindById(nextId).Some? && repo.table.FindById(nextId).value.attrs == a)
              && (r.Ok? && !repo.table.validations(a) ==>
                    forall e :: e in repo.table.records ==> e in old(repo.table.records))
  {
    ghost var a := Stamped(WithId(obj.attrs, nextId), repo.table.fields, now);
    ghost var pre := repo.table.Valid() && !Falsy(nextId) && obj.Id() == Nil;
    var saved := repo.SaveObject(obj, nextId, now);
    if saved.Err? {
      return Err(saved.error);
    }
    if pre {
      assert obj.attrs == a && obj.Id() == nextId;
    }
    ghost var found := repo.table.FindById(nextId);
    var result := repo.Serialize(obj.attrs);
    assert repo.table.FindById(nextId) == found;
    r := Ok(result);
  }

  /** `create` on a class that delegates (lines 32-35, with the candidate
      itself handed to the store): the candidate is stored only if a
      serialized copy of it is valid, and then it is the object appended,
      under an id no object had. The result is a serialized copy. */
  method CreateInStore(repo: Repository, h: Hash, now: Value) returns (r: Result<Record>)
    requires !repo.InMemory()
    modifies repo.store
    ensures r.Ok? && fresh(r.value) && r.value.cls == repo.name
    ensures var c := old(CandidateAttrs(repo, h));
            var ok := repo.table.validations(Stamped(AssignAttrs(map[], c), repo.table.fields, now));
            && (!ok ==> repo.store.objects == old(repo.store.objects) && r.value.attrs == AssignAttrs(map[], c))
            && (ok ==>
                  && |repo.store.objects| == |old(repo.store.objects)| + 1
                  && repo.store.objects[..|old(repo.store.objects)|] == old(repo.store.objects)
                  && repo.store.objects[|old(repo.store.objects)|].attrs == old(repo.store.Saved(c))
                  && r.value.attrs == AssignAttrs(map[], old(repo.store.Saved(c))))
    ensures old(repo.store.Valid()) ==> repo.store.Valid()
    ensures old(repo.store.Valid()) && |repo.store.objects| > |old(repo.store.objects)| ==>
              var id := repo.store.IdOf(repo.store.objects[|old(repo.store.objects)|]);
              !old(repo.store.Exists(id))
  {
    var obj := Candidate(repo, h);
    assert obj.attrs == old(CandidateAttrs(repo, h));
    r := StoreCandidate(repo, obj, now);
  }

  /** Lines 33-37 of `create` for a new object of the delegate class: it is
      saved only if a serialized copy of it is valid, which in a valid store
      appends it under an id no object had when its own id named none. The
      result is a serialized copy. */
  method StoreCandidate(repo: Repository, obj: Record, now: Value) returns (r: Result<Record>)
    requires !repo.InMemory() && obj !in repo.store.objects
    modifies repo.store, obj
    ensures r.Ok? && fresh(r.value) && r.value.cls == repo.name
    ensures var ok := repo.table.validations(Stamped(AssignAttrs(map[], old(obj.attrs)), repo.table.fields, now));
            && (!ok ==> repo.store.objects == old(repo.store.objects) && r.value.attrs == AssignAttrs(map[], old(obj.attrs)))
            && (ok ==>
                  && repo.store.objects == old(repo.store.objects) + [obj]
                  && obj.attrs == old(repo.store.Saved(obj.attrs))
                  && r.value.attrs == AssignAttrs(map[], obj.attrs))
    ensures old(repo.store.Valid()) && !old(repo.store.Exists(Get(obj.attrs, repo.store.IdField()))) ==>
              && repo.store.Valid()
              && !old(repo.store.Exists(Get(repo.store.Saved(obj.attrs), repo.store.IdField())))
  {
    SaveIfCopyValid(repo, obj, now);
    r := Reserialize(repo, obj, obj.attrs);
  }

  /** Lines 34-35 of `create`: the object is saved in the store only if a
      serialized copy of it is valid. */
  method SaveIfCopyValid(repo: Repository, obj: Record, now: Value)
    requires !repo.InMemory() && obj !in repo.store.objects
    modifies repo.store, obj
    ensures var ok := repo.table.validations(Stamped(AssignAttrs(map[], old(obj.attrs)), repo.table.fields, now));
            && (!ok ==> repo.store.objects == old(repo.store.objects) && obj.attrs == old(obj.attrs))
            && (ok ==>
                  && repo.store.objects == old(repo.store.objects) + [obj]
                  && obj.attrs == old(repo.store.Saved(obj.attrs)))
    ensures old(repo.store.Valid()) && !old(repo.store.Exists(Get(obj.attrs, repo.store.IdField()))) ==>
              && repo.store.Valid()
              && !old(repo.store.Exists(Get(repo.store.Saved(obj.attrs), repo.store.IdField())))
  {
    var copy := repo.Serialize(obj.attrs);
    var ok := Validate(copy, repo.table.fields, repo.table.validations, now);
    if ok {
      if repo.store.Valid() && !repo.store.Exists(Get(obj.attrs, repo.store.IdField())) {
        repo.store.SavedIdIsNew(obj.attrs);
      }
      repo.store.Save(obj);
    }
  }

  /** `create` with the candidate itself handed to the delegate store (the
      source's behaviour is `CreateAsWritten`): saved in memory on a class
      that is its own model class, stored through the delegate otherwise. */
  method Create(repo: Repository, h: Hash, nextId: Value, now: Value) returns (r: Result<Record>)
    modifies repo.table, repo.store
    ensures repo.InMemory() ==> forall e :: e in old(repo.table.records) ==> e in repo.table.records
    ensures r.Ok? ==> fresh(r.value) && r.value.cls == repo.name
    ensures r.Err? ==> repo.InMemory() && (r.error == RecordNotFound || r.error == IdError)
    ensures repo.InMemory() ==> unchanged(repo.store)
    ensures var n := old(NewAttrs(repo, h)); var id := Get(n, "id");
            repo.InMemory() && id != Nil && !old(repo.Exists(id)) ==> r == Err(RecordNotFound)
    ensures var c := old(CandidateAttrs(repo, h));
            var a := Stamped(WithId(c, nextId), repo.table.fields, now);
            repo.InMemory() && old(repo.table.Valid()) && !Falsy(nextId) && Get(c, "id") == Nil ==>
              && repo.table.Valid()
              && (r.Ok? ==> r.value.attrs == AssignAttrs(map[], a))
              && (r.Ok? && repo.table.validations(a) ==>
                    repo.table.FindById(nextId).Some? && repo.table.FindById(nextId).value.attrs == a)
              && (r.Ok? && !repo.table.validations(a) ==>
                    forall e :: e in repo.table.records ==> e in old(repo.table.records))
    ensures !repo.InMemory() ==> r.Ok? && unchanged(repo.table)
    ensures var c := old(CandidateAttrs(repo, h));
            var ok := repo.table.validations(Stamped(AssignAttrs(map[], c), repo.table.fields, now));
            && (!repo.InMemory() && !ok ==>
                  repo.store.objects == old(repo.store.objects) && r.value.attrs == AssignAttrs(map[], c))
            && (!repo.InMemory() && ok ==>
                  && |repo.store.objects| == |old(repo.store.objects)| + 1
                  && repo.store.objects[..|old(repo.store.objects)|] == old(repo.store.objects)
                  && repo.store.objects[|old(repo.store.objects)|].attrs == old(repo.store.Saved(c))
                  && r.value.attrs == AssignAttrs(map[], old(repo.store.Saved(c))))
    ensures !repo.InMemory() && old(repo.store.Valid()) ==> repo.store.Valid()
    ensures !repo.InMemory() && old(repo.store.Valid()) && |repo.store.objects| > |old(repo.store.objects)| ==>
              var id := repo.store.IdOf(repo.store.objects[|old(repo.store.objects)|]);
              !old(repo.store.Exists(id))
  {
    if repo.InMemory() {
      r := CreateHere(repo, h, nextId, now);
    } else {
      r := CreateInStore(repo, h, now);
    }
  }

  /** `create` exactly as the source writes it: on the delegate path the
      store's `create` receives the caller's attributes, so the id cleared at
      line 29 comes back and the new object takes an id that already exists. */
  method CreateAsWritten(repo: Repository, h: Hash, nextId: Value, now: Value) returns (r: Result<Record>)
    modifies repo.table, repo.store
    ensures r.Ok? ==> fresh(r.value) && r.value.cls == repo.name
    ensures repo.InMemory() ==> unchanged(repo.store)
    ensures !repo.InMemory() ==> r.Ok? && unchanged(repo.table)
    ensures var c := old(CandidateAttrs(repo, h));
            var ok := repo.table.validations(Stamped(AssignAttrs(map[], c), repo.table.fields, now));
            var f := repo.store.IdField(); var n := Apply(map[], h, f);
            && (!repo.InMemory() && ok ==>
                  |repo.store.objects| == |old(repo.store.objects)| + 1
                  && repo.store.objects[|old(repo.store.objects)|].attrs == old(repo.store.Saved(n))
                  && r.value.attrs == AssignAttrs(map[], old(repo.store.Saved(n))))
            && (!repo.InMemory() && ok && old(repo.store.Exists(Get(n, f))) ==>
                  repo.store.IdOf(repo.store.objects[|old(repo.store.objects)|]) == Get(n, f))
  {
    var obj := Candidate(repo, h);
    if repo.InMemory() {
      var saved := repo.SaveLocal(obj, false, nextId, now);
      if saved.Err? {
        return Err(saved.error);
      }
    } else {
      var copy := repo.Serialize(obj.attrs);
      var ok := Validate(copy, repo.table.fields, repo.table.validations, now);
      if ok {
        obj := repo.store.Create(h);
      }
    }
    var result := repo.Serialize(obj.attrs);
    r := Ok(result);
  }

  /** `get_model_class.where(attributes).first`. */
  function FirstMatch(repo: Repository, h: Hash): (r: Option<Record>)
    reads repo, repo.table, repo.table.records, repo.store, repo.store.objects
    ensures repo.InMemory() && r.Some? ==> r.value in repo.table.records && Meets(r.value.attrs, h, "id")
    ensures repo.InMemory() && r.Some? ==>
              exists p :: 0 <= p < |repo.table.records| && repo.table.records[p] == r.value
                          && forall q :: 0 <= q < p ==> !Meets(repo.table.records[q].attrs, h, "id")
    ensures repo.InMemory() && r.None? ==>
              forall p :: 0 <= p < |repo.table.records| ==> !Meets(repo.table.records[p].attrs, h, "id")
    ensures !repo.InMemory() ==> r == repo.store.First(h)
  {
    if repo.InMemory() then
      var w := Select(repo.table.records, Concat([h]), "id");
      ConcatMeetsOne(h);
      if w == [] then None else Some(w[0])
    else repo.store.First(h)
  }

  /** One hash concatenated is its own conditions. */
  lemma ConcatMeetsOne(h: Hash)
    ensures forall a: Attrs :: Meets(a, Concat([h]), "id") <==> Meets(a, h, "id")
  {
    forall a: Attrs ensures Meets(a, Concat([h]), "id") <==> Meets(a, h, "id") {
      ConcatMeets(a, [h], "id");
    }
  }

  /** `find_or_create` with the repository's own `create` (the source's
      behaviour is `FindOrCreateAsWritten`): the first match if there is one,
      else what `create` makes of the attributes; a serialized copy either way. */
  method FindOrCreate(repo: Repository, h: Hash, nextId: Value, now: Value) returns (r: Result<Record>)
    modifies repo.table, repo.store
    ensures repo.InMemory() ==> forall e :: e in old(repo.table.records) ==> e in repo.table.records
    ensures r.Ok? ==> fresh(r.value) && r.value.cls == repo.name
    ensures old(FirstMatch(repo, h)).Some? ==>
              r.Ok? && r.value.attrs == AssignAttrs(map[], old(FirstMatch(repo, h)).value.attrs)
              && unchanged(repo.table) && unchanged(repo.store)
    ensures r.Err? ==>
              old(FirstMatch(repo, h)).None? && repo.InMemory() && (r.error == RecordNotFound || r.error == IdError)
    ensures var c := old(CandidateAttrs(repo, h));
            var a := Stamped(WithId(c, nextId), repo.table.fields, now);
            old(FirstMatch(repo, h)).None? && repo.InMemory()
            && old(repo.table.Valid()) && !Falsy(nextId) && Get(c, "id") == Nil ==>
              && unchanged(repo.store)
              && repo.table.Valid()
              && (r.Ok? ==> r.value.attrs == AssignAttrs(map[], a))
              && (r.Ok? && repo.table.validations(a) ==>
                    repo.table.FindById(nextId).Some? && repo.table.FindById(nextId).value.attrs == a)
    ensures var c := old(CandidateAttrs(repo, h));
            var ok := repo.table.validations(Stamped(AssignAttrs(map[], c), repo.table.fields, now));
            old(FirstMatch(repo, h)).None? && !repo.InMemory() ==>
              && r.Ok? && unchanged(repo.table)
              && (!ok ==> repo.store.objects == old(repo.store.objects) && r.value.attrs == AssignAttrs(map[], c))
              && (ok ==>
                    && |repo.store.objects| == |old(repo.store.objects)| + 1
                    && repo.store.objects[..|old(repo.store.objects)|] == old(repo.store.objects)
                    && repo.store.objects[|old(repo.store.objects)|].attrs == old(repo.store.Saved(c))
                    && r.value.attrs == AssignAttrs(map[], old(repo.store.Saved(c))))
              && (old(repo.store.Valid()) ==> repo.store.Valid())
  {
    var found := FirstMatch(repo, h);
    if found.None? && repo.InMemory() {
      r := CreateMissingHere(repo, h, nextId, now);
    } else if found.None? {
      r := CreateMissingInStore(repo, h, now);
    } else {
      var result := repo.Serialize(found.value.attrs);
      r := Ok(result);
    }
  }

  /** Lines 21 and 23 of `find_or_create` when nothing matches, on a class
      that is its own model class: what `create` returns on that class
      (`CreateHere`), serialized once more, which changes nothing because a
      serialized copy serializes to the same attributes. */
  method CreateMissingHere(repo: Repository, h: Hash, nextId: Value, now: Value) returns (r: Result<Record>)
    requires repo.InMemory()
    modifies repo.table
    ensures forall e :: e in old(repo.table.records) ==> e in repo.table.records
    ensures r.Ok? ==> fresh(r.value) && r.value.cls == repo.name
    ensures r.Err? ==> r.error == RecordNotFound || r.error == IdError
    ensures var c := old(CandidateAttrs(repo, h));
            var a := Stamped(WithId(c, nextId), repo.table.fields, now);
            old(repo.table.Valid()) && !Falsy(nextId) && Get(c, "id") == Nil ==>
              && repo.table.Valid()
              && (r.Ok? ==> r.value.attrs == AssignAttrs(map[], a))
              && (r.Ok? && repo.table.validations(a) ==>
                    repo.table.FindById(nextId).Some? && repo.table.FindById(nextId).value.attrs == a)
  {
    ghost var c := CandidateAttrs(repo, h);
    var created := CreateHere(repo, h, nextId, now);
    if created.Err? {
      return Err(created.error);
    }
    r := Reserialize(repo, created.value, Stamped(WithId(c, nextId), repo.table.fields, now));
  }

  /** Lines 21 and 23 of `find_or_create` when nothing matches, on a class
      that delegates: what `create` returns on that class (its delegate
      path, `CreateInStore`), serialized once more. */
  method CreateMissingInStore(repo: Repository, h: Hash, now: Value) returns (r: Result<Record>)
    requires !repo.InMemory()
    modifies repo.store
    ensures r.Ok? && fresh(r.value) && r.value.cls == repo.name
    ensures old(repo.store.Valid()) ==> repo.store.Valid()
    ensures var c := old(CandidateAttrs(repo, h));
            var ok := repo.table.validations(Stamped(AssignAttrs(map[], c), repo.table.fields, now));
            && (!ok ==> repo.store.objects == old(repo.store.objects) && r.value.attrs == AssignAttrs(map[], c))
            && (ok ==>
                  && |repo.store.objects| == |old(repo.store.objects)| + 1
                  && repo.store.objects[..|old(repo.store.objects)|] == old(repo.store.objects)
                  && repo.store.objects[|old(repo.store.objects)|].attrs == old(repo.store.Saved(c))
                  && r.value.attrs == AssignAttrs(map[], old(repo.store.Saved(c))))
  {
    ghost var c := CandidateAttrs(repo, h);
    ghost var ok := repo.table.validations(Stamped(AssignAttrs(map[], c), repo.table.fields, now));
    ghost var saved := repo.store.Saved(c);
    var created := CreateInStore(repo, h, now);
    r := Reserialize(repo, created.value, if ok then saved else c);
  }

  /** `serialize!` of an object's attributes, wrapped as a result; a
      serialized copy serializes to the same attributes. */
  method Reserialize(repo: Repository, obj: Record, ghost m: Attrs) returns (r: Result<Record>)
    ensures r.Ok? && fresh(r.value) && r.value.cls == repo.name
    ensures r.value.attrs == AssignAttrs(map[], obj.attrs)
    ensures obj.attrs == AssignAttrs(map[], m) ==> r.value.attrs == obj.attrs
  {
    SerializeTwice(m);
    var result := repo.Serialize(obj.attrs);
    r := Ok(result);
  }

  /** `find_or_create` exactly as the source writes it: without a match it
      calls `create` on `model_class`, which is nil for a class that has never
      been given one (`NoMethodError`), the class itself when it is its own
      model class, and the delegate class otherwise, whose `create` skips the
      repository's id clearing and validation. */
  method FindOrCreateAsWritten(repo: Repository, h: Hash, nextId: Value, now: Value) returns (r: Result<Record>)
    modifies repo.table, repo.store
    ensures r.Ok? ==> fresh(r.value) && r.value.cls == repo.name
    ensures old(FirstMatch(repo, h)).Some? ==>
              r.Ok? && r.value.attrs == AssignAttrs(map[], old(FirstMatch(repo, h)).value.attrs)
    ensures old(FirstMatch(repo, h)).None? && repo.modelClass.None? ==> r == Err(NoMethodError)
    ensures old(FirstMatch(repo, h)).None? && repo.modelClass.Some? && repo.modelClass.value != repo.name ==>
              r.Ok? && unchanged(repo.table) && |repo.store.objects| == |old(repo.store.objects)| + 1
  {
    var found := FirstMatch(repo, h);
    var obj: Record;
    if found.None? {
      match repo.modelClass
      case None =>
        return Err(NoMethodError);
      case Some(m) =>
        if m == repo.name {
          var created := CreateAsWritten(repo, h, nextId, now);
          if created.Err? {
            return Err(created.error);
          }
          obj := created.value;
        } else {
          obj := repo.store.Create(h);
        }
    } else {
      obj := found.value;
    }
    var result := repo.Serialize(obj.attrs);
    r := Ok(result);
  }

  /** The key `update_attribute` forwards to the store: `id` becomes `_id`
      for a Mongoid store, every other key is forwarded unchanged. */
  function ForwardedKey(mongoid: bool, key: string): (k: string)
    ensures mongoid && key == "id" ==> k == "_id"
    ensures !(mongoid && key == "id") ==> k == key
  {
    if mongoid && key == "id" then "_id" else key
  }

  /** What `update_attribute` does in memory. An instance that is not
      stored is assigned the attributes the table holds under its new id
      (its own ones if that id is nil), or the call fails when none is
      stored there. A stored one, in a valid table, reloads itself, so it
      ends with exactly the assigned attribute changed, unless the key is
      `id` or the attributes hold `_id`. */
  twostate predicate UpdateAttributeEffectHere(repo: Repository, rec: Record, key: string, value: Value,
                                               new r: Result<Record>)
    reads repo, repo.table, repo.table.records, rec
  {
    var a1 := old(rec.attrs)[key := value];
    var src := old(repo.Reloaded(Get(a1, "id"), a1));
    && (rec !in old(repo.table.records) ==>
          && (src.Err? ==> r == Err(RecordNotFound) && rec.attrs == a1)
          && (src.Ok? ==> r.Ok? && rec.attrs == AssignAttrs(a1, src.value)))
    && (rec in old(repo.table.records) && old(repo.table.Valid()) && key != "id" && "_id" !in a1 ==>
          repo.table.Valid() && r.Ok? && rec.attrs == a1)
  }

  /** What `update_attribute` does through a delegate store. Without an
      object under the instance's id nothing changes and the call fails.
      Otherwise that object gets the forwarded key and is saved, the list of
      objects stays, and the instance (assigned too by a Mongoid store) is
      reloaded from what the store then holds under its id; in a valid
      store, with the id field untouched, that is the object just saved. */
  twostate predicate UpdateAttributeEffectInStore(repo: Repository, rec: Record, key: string, value: Value,
                                                  new r: Result<Record>)
    reads repo, repo.store, repo.store.objects, rec
  {
    var found := old(repo.store.Find(rec.Id()));
    var f := FieldFor(ForwardedKey(repo.store.mongoid, key), repo.store.IdField());
    var a1 := if repo.store.mongoid then old(rec.attrs)[key := value] else old(rec.attrs);
    && (found.Err? ==> r == Err(RecordNotFound) && unchanged(rec) && unchanged(repo.store))
    && (found.Ok? ==>
          && repo.store.objects == old(repo.store.objects)
          && found.value.attrs == old(repo.store.Saved(found.value.attrs[f := value]))
          && var src := repo.store.Find(Get(a1, "id"));
          && (src.Err? ==> r == Err(RecordNotFound) && rec.attrs == a1)
          && (src.Ok? ==> r.Ok? && rec.attrs == AssignAttrs(a1, src.value.attrs))
          && (old(repo.store.Valid()) && f != repo.store.IdField() ==>
                repo.store.Valid() && r.Ok? && rec.attrs == AssignAttrs(a1, found.value.attrs)))
  }

  /** `update_attribute(key, value)`: in memory the instance's attribute is
      assigned; otherwise the store object with the instance's id gets the
      forwarded key and is saved (a Mongoid store also assigns the instance).
      It ends with `reload`, which assigns the instance the attributes of
      the counterpart found under its id. In memory, an instance that is
      not stored reloads from the table as it was; a stored one, in a valid
      table, finds itself again, unless its `id` is the key. Through a valid
      store, unless the key reaches the id field, the reload finds the
      object just saved. The instance is never one of the store's objects. */
  method UpdateAttribute(repo: Repository, rec: Record, key: string, value: Value) returns (r: Result<Record>)
    requires !repo.InMemory() ==> rec !in repo.store.objects
    modifies rec, repo.store, if repo.InMemory() then {} else Counterparts(repo, rec.Id())
    ensures r.Ok? ==> fresh(r.value) && r.value.attrs == rec.attrs
    ensures r.Err? ==> r.error == RecordNotFound
    ensures repo.InMemory() ==> unchanged(repo.store) && UpdateAttributeEffectHere(repo, rec, key, value, r)
    ensures !repo.InMemory() ==> UpdateAttributeEffectInStore(repo, rec, key, value, r)
  {
    if repo.InMemory() {
      r := UpdateAttributeHere(repo, rec, key, value);
    } else {
      r := UpdateAttributeInStore(repo, rec, key, value);
    }
  }

  /** `update_attribute` on a class that is its own model class: `super`,
      then `reload` (lines 50-51 and 64). */
  method UpdateAttributeHere(repo: Repository, rec: Record, key: string, value: Value) returns (r: Result<Record>)
    requires repo.InMemory()
    modifies rec
    ensures r.Ok? ==> fresh(r.value) && r.value.attrs == rec.attrs
    ensures r.Err? ==> r.error == RecordNotFound
    ensures UpdateAttributeEffectHere(repo, rec, key, value, r)
    ensures var a1 := old(rec.attrs)[key := value];
            old(repo.table.Locates(rec)) && old(rec.Id()) != Nil && key != "id" && "_id" !in a1 ==>
              r.Ok? && rec.attrs == a1 && rec.Id() == old(rec.Id()) && repo.table.Locates(rec)
  {
    if rec in repo.table.records {
      r := UpdateStoredHere(repo, rec, key, value);
    } else {
      r := UpdateUnstoredHere(repo, rec, key, value);
    }
  }

  /** `update_attribute` in memory on an instance the table does not hold:
      `reload` looks up the id the assignment left, in the table as it was. */
  method UpdateUnstoredHere(repo: Repository, rec: Record, key: string, value: Value) returns (r: Result<Record>)
    requires repo.InMemory() && rec !in repo.table.records
    modifies rec
    ensures r.Ok? ==> fresh(r.value) && r.value.attrs == rec.attrs
    ensures r.Err? ==> r.error == RecordNotFound
    ensures UpdateAttributeEffectHere(repo, rec, key, value, r)
  {
    ghost var src0 := repo.Reloaded(Get(old(rec.attrs)[key := value], "id"), old(rec.attrs)[key := value]);
    UpdateHere(repo, rec, key, value);
    assert repo.Reloaded(rec.Id(), rec.attrs) == src0;
    r := repo.Reload(rec);
  }

  /** `update_attribute` in memory on a stored instance: unless the key is
      `id`, `reload` finds the instance itself again. */
  method UpdateStoredHere(repo: Repository, rec: Record, key: string, value: Value) returns (r: Result<Record>)
    requires repo.InMemory() && rec in repo.table.records
    modifies rec
    ensures r.Ok? ==> fresh(r.value) && r.value.attrs == rec.attrs
    ensures r.Err? ==> r.error == RecordNotFound
    ensures UpdateAttributeEffectHere(repo, rec, key, value, r)
    ensures var a1 := old(rec.attrs)[key := value];
            old(repo.table.Locates(rec)) && old(rec.Id()) != Nil && key != "id" && "_id" !in a1 ==>
              r.Ok? && rec.attrs == a1 && rec.Id() == old(rec.Id()) && repo.table.Locates(rec)
  {
    ghost var found := repo.table.Locates(rec) && rec.Id() != Nil && key != "id";
    UpdateHere(repo, rec, key, value);
    ghost var mid := rec.attrs;
    if found {
      assert repo.table.Locates(rec);
      repo.table.LocatedIsFound(rec);
    }
    r := repo.Reload(rec);
    if found && "_id" !in mid {
      AssignAttrsIdempotent(mid, mid);
    }
    if old(repo.table.Valid()) && key != "id" && "_id" !in mid {
      AssignAttrsIdempotent(mid, mid);
      assert rec.attrs == mid;
      assert forall p :: 0 <= p < |repo.table.records| ==>
               repo.table.records[p].Id() == old(repo.table.records[p].Id());
      repo.table.ValidKeepsIds();
    }
  }

  /** `update_attribute` on a class that delegates (lines 52-64): the store
      object found under the instance's id gets the forwarded key and is
      saved, a Mongoid store also assigning the instance, and the instance
      is reloaded from the store. */
  method UpdateAttributeInStore(repo: Repository, rec: Record, key: string, value: Value) returns (r: Result<Record>)
    requires !repo.InMemory() && rec !in repo.store.objects
    modifies rec, repo.store, Counterparts(repo, rec.Id())
    ensures r.Ok? ==> fresh(r.value) && r.value.attrs == rec.attrs
    ensures r.Err? ==> r.error == RecordNotFound
    ensures UpdateAttributeEffectInStore(repo, rec, key, value, r)
  {
    var found := repo.store.Find(rec.Id());
    if found.Err? {
      return Err(found.error);
    }
    StoreUpdate(repo, rec, found.value, key, value);
    ghost var a1 := rec.attrs;
    ghost var src := repo.store.Find(Get(a1, "id"));
    ghost var stored := found.value.attrs;
    ghost var valid := repo.store.Valid();
    r := ReloadFromStore(repo, rec);
    assert repo.store.Find(Get(a1, "id")) == src;
    assert found.value.attrs == stored && repo.store.Valid() == valid;
  }

  /** `reload` of an instance of a delegating class: the store, which does
      not hold the instance, is left as it is. */
  method ReloadFromStore(repo: Repository, rec: Record) returns (r: Result<Record>)
    requires !repo.InMemory() && rec !in repo.store.objects
    modifies rec
    ensures r.Ok? ==> fresh(r.value) && r.value.attrs == rec.attrs
    ensures r.Err? ==> r.error == RecordNotFound
    ensures repo.store.Find(old(rec.Id())) == old(repo.store.Find(rec.Id()))
    ensures repo.store.Valid() == old(repo.store.Valid())
    ensures var src := old(repo.store.Find(rec.Id()));
            && (src.Err? ==> r == Err(RecordNotFound) && rec.attrs == old(rec.attrs))
            && (src.Ok? ==> r.Ok? && rec.attrs == AssignAttrs(old(rec.attrs), src.value.attrs))
  {
    ghost var src := repo.store.Find(rec.Id());
    assert repo.Reloaded(rec.Id(), rec.attrs) == if src.Err? then Err(RecordNotFound) else Ok(src.value.attrs);
    r := repo.Reload(rec);
  }

  /** Lines 55-61: a Mongoid store assigns the instance too and renames the
      key `id` to `_id`; the store object is updated and saved. With the id
      field untouched, a valid store stays valid and the instance's id still
      finds the object. */
  method StoreUpdate(repo: Repository, rec: Record, obj: Record, key: string, value: Value)
    requires !repo.InMemory() && rec !in repo.store.objects && obj in repo.store.objects
    modifies rec, repo.store, obj
    ensures rec.attrs == if repo.store.mongoid then old(rec.attrs)[key := value] else old(rec.attrs)
    ensures var f := FieldFor(ForwardedKey(repo.store.mongoid, key), repo.store.IdField());
            obj.attrs == old(repo.store.Saved(obj.attrs[f := value]))
    ensures repo.store.objects == old(repo.store.objects)
    ensures var f := FieldFor(ForwardedKey(repo.store.mongoid, key), repo.store.IdField());
            old(repo.store.Valid()) && old(repo.store.IdOf(obj)) == old(rec.Id()) && f != repo.store.IdField() ==>
              repo.store.Valid() && repo.store.Find(rec.Id()) == Ok(obj)
  {
    var k := key;
    if repo.Mongoid() {
      rec.attrs := rec.attrs[key := value];
      k := ForwardedKey(true, key);
    }
    ghost var keep := repo.store.Valid() && old(repo.store.IdOf(obj)) == old(rec.Id())
                      && FieldFor(k, repo.store.IdField()) != repo.store.IdField();
    repo.store.UpdateAttribute(obj, k, value);
    repo.store.Save(obj);
    if keep {
      assert repo.store.IdOf(obj) == old(repo.store.IdOf(obj)) == old(rec.Id()) == rec.Id();
      repo.store.FindsStored(obj);
    }
  }

  /** `super(key, value)` in memory: the instance's attribute is assigned. A
      stored instance whose id stays keeps a valid table valid and is still
      found under its id. */
  method UpdateHere(repo: Repository, rec: Record, key: string, value: Value)
    requires repo.InMemory()
    modifies rec
    ensures rec.attrs == old(rec.attrs)[key := value]
    ensures var a1 := rec.attrs;
            rec !in repo.table.records ==> repo.Reloaded(rec.Id(), a1) == old(repo.Reloaded(Get(a1, "id"), a1))
    ensures rec in repo.table.records && old(repo.table.Valid()) && key != "id" ==>
              repo.table.Valid() && repo.Reloaded(rec.Id(), rec.attrs) == Ok(rec.attrs)
  {
    ghost var valid := repo.table.Valid();
    rec.attrs := rec.attrs[key := value];
    if rec in repo.table.records && valid && key != "id" {
      assert forall p :: 0 <= p < |repo.table.records| ==>
               repo.table.records[p].Id() == old(repo.table.records[p].Id());
      repo.table.ValidKeepsIds();
      repo.table.FindsStored(rec);
    }
  }

  /** The attributes of the counterpart after the `update_attribute` calls
      `calls`, in order, each setting the field its key names (`id` names
      the id field `f`). */
  function Updated(a: Attrs, calls: seq<(string, Value)>, f: string): (r: Attrs)
    ensures calls != [] ==> Get(r, FieldFor(calls[|calls| - 1].0, f)) == calls[|calls| - 1].1
    decreases |calls|
  {
    if calls == [] then a
    else
      var init := calls[..|calls| - 1];
      Updated(a, init, f)[FieldFor(calls[|calls| - 1].0, f) := calls[|calls| - 1].1]
  }

  /** A field no call sets keeps its value, or stays absent. */
  lemma {:induction false} UpdatedElsewhere(a: Attrs, calls: seq<(string, Value)>, f: string, n: string)
    requires n !in Targets(calls, f)
    ensures n in Updated(a, calls, f) <==> n in a
    ensures n in a ==> Updated(a, calls, f)[n] == a[n]
    decreases |calls|
  {
    if calls != [] {
      var init := calls[..|calls| - 1];
      assert forall c :: c in init ==> c in calls;
      UpdatedElsewhere(a, init, f, n);
    }
  }

  /** The fields a run of calls sets. */
  function Targets(calls: seq<(string, Value)>, f: string): (t: set<string>)
    ensures forall c :: c in calls ==> FieldFor(c.0, f) in t
    ensures forall n :: n in t ==> exists c :: c in calls && FieldFor(c.0, f) == n
  {
    set c | c in calls :: FieldFor(c.0, f)
  }

  /** The last call that sets a field decides its value. */
  lemma {:induction false} UpdatedLastWins(a: Attrs, calls: seq<(string, Value)>, f: string, j: int)
    requires 0 <= j < |calls|
    requires forall i :: j < i < |calls| ==> FieldFor(calls[i].0, f) != FieldFor(calls[j].0, f)
    ensures Get(Updated(a, calls, f), FieldFor(calls[j].0, f)) == calls[j].1
    decreases |calls|
  {
    if j < |calls| - 1 {
      var init := calls[..|calls| - 1];
      assert forall i :: 0 <= i < |init| ==> init[i] == calls[i];
      UpdatedLastWins(a, init, f, j);
    }
  }

  /** Updating with two runs of calls is updating with the first, then with
      the second. */
  lemma {:induction false} UpdatedConcat(a: Attrs, c: seq<(string, Value)>, d: seq<(string, Value)>, f: string)
    ensures Updated(a, c + d, f) == Updated(Updated(a, c, f), d, f)
    decreases |d|
  {
    if d == [] {
      assert c + d == c;
    } else {
      var d0 := d[..|d| - 1];
      UpdatedConcat(a, c, d0, f);
      assert (c + d)[..|c + d| - 1] == c + d0;
    }
  }

  /** The `update_attribute` calls `update_attributes` makes: one per pair,
      in order, except for pairs under the symbol `:id`. */
  function Forwarded(h: Hash): (calls: seq<(string, Value)>)
    ensures |calls| <= |h|
    ensures forall i :: 0 <= i < |h| && h[i].0 != Sym("id") ==> (h[i].0.name, h[i].1) in calls
    ensures forall j :: 0 <= j < |calls| ==>
              exists i :: 0 <= i < |h| && h[i].0 != Sym("id") && calls[j] == (h[i].0.name, h[i].1)
    decreases |h|
  {
    if h == [] then []
    else
      var init := Forwarded(h[..|h| - 1]);
      assert forall i :: 0 <= i < |h| - 1 ==> h[..|h| - 1][i] == h[i];
      if h[|h| - 1].0 == Sym("id") then init else init + [(h[|h| - 1].0.name, h[|h| - 1].1)]
  }

  /** `Forwarded` works pair by pair: the calls for a concatenation are the
      calls for each part, in order, so the calls keep the order and the
      repetitions of the hash (with `ForwardedOne`, for each pair on its own). */
  lemma {:induction false} ForwardedConcat(g: Hash, h: Hash)
    ensures Forwarded(g + h) == Forwarded(g) + Forwarded(h)
    decreases |h|
  {
    if h == [] {
      assert g + h == g;
    } else {
      var h0, x := h[..|h| - 1], h[|h| - 1];
      ForwardedConcat(g, h0);
      assert (g + h)[..|g + h| - 1] == g + h0;
      assert (g + h)[|g + h| - 1] == x;
      assert Forwarded(g + h) == if x.0 == Sym("id") then Forwarded(g + h0) else Forwarded(g + h0) + [(x.0.name, x.1)];
      assert Forwarded(h) == if x.0 == Sym("id") then Forwarded(h0) else Forwarded(h0) + [(x.0.name, x.1)];
    }
  }

  /** A single pair is forwarded as one call unless its key is `:id`. */
  lemma ForwardedOne(k: Key, v: Value)
    ensures Forwarded([(k, v)]) == if k == Sym("id") then [] else [(k.name, v)]
  {
    assert [(k, v)][..0] == [];
  }

  /** Only the symbol `:id` is skipped: a string key `"id"` is forwarded. */
  lemma ForwardedSkipsOnlySymbolId(v: Value, w: Value)
    ensures Forwarded([(Sym("id"), v)]) == []
    ensures Forwarded([(Text("id"), w)]) == [("id", w)]
  {
    assert [(Sym("id"), v)][..0] == [];
    assert [(Text("id"), w)][..0] == [];
  }

  /** The calls leave the counterpart's id field alone and, in memory,
      never set `_id`, which the counterpart's own `reload` would move to
      `id`. */
  predicate KeepsId(calls: seq<(string, Value)>, f: string, inMemory: bool)
  {
    forall c :: c in calls ==> FieldFor(c.0, f) != f && (inMemory ==> c.0 != "_id")
  }

  /** The stored counterpart `find(id)` returns, if any, as a set: the
      table's record for a class that is its own model class, the store's
      object otherwise. These are the only records `update_attribute` and
      `update_attributes` change besides the instance. */
  ghost function Counterparts(repo: Repository, id: Value): set<Record>
    reads repo, repo.table, repo.table.records, repo.store, repo.store.objects
  {
    if repo.InMemory() then
      var found := repo.table.Find(id);
      if found.Ok? && found.value.Some? then {found.value.value} else {}
    else
      var found := repo.store.Find(id);
      if found.Ok? then {found.value} else {}
  }

  /** `o` is a stored counterpart of a consistent model class: a record of
      a valid in-memory table without `_id`, or an object of a valid store. */
  ghost predicate HoldsCounterpart(repo: Repository, o: Record)
    reads repo, repo.table, repo.table.records, repo.store, repo.store.objects, o
  {
    if repo.InMemory() then repo.table.Valid() && o in repo.table.records && "_id" !in o.attrs
    else repo.store.Valid() && o in repo.store.objects
  }

  /** `object.update_attribute(key, value)` on the stored counterpart of a
      class that is its own model class: the repository instance's
      `update_attribute`, which assigns and then reloads it from itself. A
      call that keeps the id sets exactly the attribute its key names. */
  method SendUpdateHere(repo: Repository, o: Record, key: string, value: Value) returns (err: Option<Error>)
    requires repo.InMemory()
    modifies o
    ensures err.Some? ==> err.value == RecordNotFound
    ensures old(repo.table.Valid()) && o in repo.table.records && "_id" !in old(o.attrs) && key != "id" && key != "_id" ==>
              err.None? && repo.table.Valid() && o.attrs == old(o.attrs)[key := value]
    ensures old(repo.table.Locates(o)) && old(o.Id()) != Nil && "_id" !in old(o.attrs)
            && key != "id" && key != "_id" ==>
              && err.None? && o.attrs == old(o.attrs)[key := value]
              && o.Id() == old(o.Id()) && repo.table.Locates(o)
  {
    var updated := UpdateAttributeHere(repo, o, key, value);
    err := if updated.Err? then Some(updated.error) else None;
  }

  /** `object.update_attribute(key, value)` on a store object: the field
      the key names is assigned and the object saved. When that field is
      not the id field, a valid store stays valid and the object gets
      exactly that field set. */
  method SendUpdateToStore(repo: Repository, o: Record, key: string, value: Value)
    requires !repo.InMemory() && o in repo.store.objects
    modifies o, repo.store
    ensures o.attrs == old(repo.store.Saved(o.attrs[FieldFor(key, repo.store.IdField()) := value]))
    ensures repo.store.objects == old(repo.store.objects)
    ensures old(repo.store.Valid()) && FieldFor(key, repo.store.IdField()) != repo.store.IdField() ==>
              repo.store.Valid() && o.attrs == old(o.attrs)[FieldFor(key, repo.store.IdField()) := value]
  {
    if repo.store.Valid() {
      var p :| 0 <= p < |repo.store.objects| && repo.store.objects[p] == o;
    }
    repo.store.UpdateAttribute(o, key, value);
  }

  /** The loop of `update_attributes`: `update_attribute` sent to the stored
      counterpart for every pair except `:id`, in order; the first pair sent
      to a missing counterpart (nil) is a `NoMethodError`. When every call
      keeps the id, the counterpart ends with the calls applied in order. */
  method Forward(repo: Repository, obj: Option<Record>, h: Hash) returns (err: Option<Error>)
    requires !repo.InMemory() ==> obj.Some? && obj.value in repo.store.objects
    modifies repo.store, AsSet(obj)
    ensures obj.None? ==> (err.None? <==> Forwarded(h) == []) && (err.Some? ==> err.value == NoMethodError)
    ensures obj.Some? && err.Some? ==> repo.InMemory() && err.value == RecordNotFound
    ensures !repo.InMemory() ==> err.None?
    ensures repo.InMemory() ==> unchanged(repo.store)
    ensures repo.store.objects == old(repo.store.objects)
    ensures obj.Some? && old(HoldsCounterpart(repo, obj.value)) && KeepsId(Forwarded(h), IdFieldOf(repo), repo.InMemory()) ==>
              && err.None? && HoldsCounterpart(repo, obj.value)
              && obj.value.attrs == Updated(old(obj.value.attrs), Forwarded(h), IdFieldOf(repo))
  {
    if repo.InMemory() {
      ghost var holds := obj.Some? && HoldsCounterpart(repo, obj.value)
                         && KeepsId(Forwarded(h), IdFieldOf(repo), repo.InMemory());
      if holds {
        repo.table.StoredIsLocated(obj.value);
      }
      if obj.None? {
        err := if Forwarded(h) == [] then None else Some(NoMethodError);
      } else {
        err := ForwardHere(repo, obj.value, h);
      }
      if holds {
        UpdatedKeepsId(old(obj.value.attrs), Forwarded(h), "id", true);
        assert forall p :: 0 <= p < |repo.table.records| ==>
                 repo.table.records[p].Id() == old(repo.table.records[p].Id());
        repo.table.ValidKeepsIds();
      }
    } else {
      ForwardToStore(repo, obj.value, h);
      err := None;
    }
  }

  /** The loop of `update_attributes` on a class that is its own model
      class: each call is the stored instance's `update_attribute`. A
      counterpart located under its id stays located there. */
  method ForwardHere(repo: Repository, o: Record, h: Hash) returns (err: Option<Error>)
    requires repo.InMemory()
    modifies o
    ensures err.Some? ==> err.value == RecordNotFound
    ensures old(repo.table.Locates(o)) && old(o.Id()) != Nil
            && "_id" !in old(o.attrs) && KeepsId(Forwarded(h), "id", true) ==>
              && err.None? && "_id" !in o.attrs
              && o.attrs == Updated(old(o.attrs), Forwarded(h), "id")
              && o.Id() == old(o.Id()) && repo.table.Locates(o)
  {
    err := None;
    ghost var good := repo.table.Locates(o) && o.Id() != Nil
                      && "_id" !in o.attrs && KeepsId(Forwarded(h), "id", true);
    ghost var a0 := o.attrs;
    ghost var calls: seq<(string, Value)> := [];
    var i := 0;
    while i < |h|
      invariant 0 <= i <= |h|
      invariant calls == Forwarded(h[..i])
      invariant good ==> repo.table.Locates(o) && o.Id() == old(o.Id()) && o.Id() != Nil
      invariant good ==> "_id" !in o.attrs && o.attrs == Updated(a0, calls, "id")
    {
      var (k, v) := h[i];
      ForwardedStep(h, i);
      if k != Sym("id") {
        if good {
          KeepsIdOfPair(h, i, "id", true);
          UpdatedStep(a0, calls, (k.name, v), "id");
        }
        var sent := SendUpdateHere(repo, o, k.name, v);
        if sent.Some? {
          return sent;
        }
      }
      calls := Forwarded(h[..i + 1]);
      i := i + 1;
    }
    assert h[..|h|] == h;
  }

  /** The loop of `update_attributes` on a class that delegates: each call
      is the store object's `update_attribute`. */
  method ForwardToStore(repo: Repository, o: Record, h: Hash)
    requires !repo.InMemory() && o in repo.store.objects
    modifies repo.store, o
    ensures repo.store.objects == old(repo.store.objects)
    ensures old(repo.store.Valid()) && KeepsId(Forwarded(h), repo.store.IdField(), false) ==>
              repo.store.Valid() && o.attrs == Updated(old(o.attrs), Forwarded(h), repo.store.IdField())
  {
    ghost var f := repo.store.IdField();
    ghost var good := repo.store.Valid() && KeepsId(Forwarded(h), f, false);
    ghost var a0 := o.attrs;
    ghost var calls: seq<(string, Value)> := [];
    var i := 0;
    while i < |h|
      invariant 0 <= i <= |h|
      invariant calls == Forwarded(h[..i])
      invariant repo.store.objects == old(repo.store.objects)
      invariant good ==> repo.store.Valid() && o.attrs == Updated(a0, calls, f)
    {
      var (k, v) := h[i];
      ForwardedStep(h, i);
      if k != Sym("id") {
        if good {
          KeepsIdOfPair(h, i, f, false);
          UpdatedStep(a0, calls, (k.name, v), f);
        }
        SendUpdateToStore(repo, o, k.name, v);
        calls := calls + [(k.name, v)];
      }
      i := i + 1;
    }
    assert h[..|h|] == h;
  }

  /** One more pair forwards one more call, unless it is under `:id`. */
  lemma ForwardedStep(h: Hash, i: int)
    requires 0 <= i < |h|
    ensures Forwarded(h[..i + 1]) ==
              if h[i].0 == Sym("id") then Forwarded(h[..i]) else Forwarded(h[..i]) + [(h[i].0.name, h[i].1)]
  {
    assert h[..i + 1][..i] == h[..i];
  }

  /** A forwarded pair of calls that keep the id keeps it too. */
  lemma KeepsIdOfPair(h: Hash, i: int, f: string, inMemory: bool)
    requires 0 <= i < |h| && h[i].0 != Sym("id") && KeepsId(Forwarded(h), f, inMemory)
    ensures FieldFor(h[i].0.name, f) != f && (inMemory ==> h[i].0.name != "_id")
  {
    assert (h[i].0.name, h[i].1) in Forwarded(h);
  }

  /** One more call sets one more field. */
  lemma UpdatedStep(a: Attrs, calls: seq<(string, Value)>, c: (string, Value), f: string)
    ensures Updated(a, calls + [c], f) == Updated(a, calls, f)[FieldFor(c.0, f) := c.1]
  {
    assert (calls + [c])[..|calls|] == calls;
  }

  /** A pair not under `:id` is forwarded. */
  lemma ForwardedNonEmpty(h: Hash, i: int)
    requires 0 <= i < |h| && h[i].0 != Sym("id")
    ensures Forwarded(h) != []
  {
  }

  /** Calls that keep the id leave the id field, and `_id`'s absence, as
      they were. */
  lemma UpdatedKeepsId(a: Attrs, calls: seq<(string, Value)>, f: string, inMemory: bool)
    requires KeepsId(calls, f, inMemory)
    ensures Get(Updated(a, calls, f), f) == Get(a, f)
    ensures inMemory && "_id" !in a ==> "_id" !in Updated(a, calls, f)
  {
    UpdatedElsewhere(a, calls, f, f);
    if inMemory {
      UpdatedElsewhere(a, calls, f, "_id");
    }
  }

  /** `update_attributes(attributes)`: finds the stored counterpart (in memory
      a nil id finds nothing), forwards the pairs to it and reloads the
      instance. When every call keeps the id, the counterpart ends with the
      calls applied in order and the instance is assigned its attributes. */
  method UpdateAttributes(repo: Repository, rec: Record, h: Hash) returns (r: Result<Record>)
    requires !repo.InMemory() ==> rec !in repo.store.objects
    modifies rec, repo.store, Counterparts(repo, rec.Id())
    ensures !repo.InMemory() && old(repo.store.Find(rec.Id())).Err? ==> r == Err(RecordNotFound)
    ensures repo.InMemory() && old(repo.table.Find(rec.Id())).Err? ==> r == Err(RecordNotFound)
    ensures repo.InMemory() && old(rec.Id()) == Nil && Forwarded(h) != [] ==> r == Err(NoMethodError)
    ensures repo.InMemory() && old(rec.Id()) == Nil && Forwarded(h) == [] ==>
              r.Ok? && rec.attrs == AssignAttrs(old(rec.attrs), old(rec.attrs))
    ensures r.Ok? ==> fresh(r.value) && r.value.attrs == rec.attrs
    ensures repo.InMemory() ==> unchanged(repo.store)
    ensures var found := old(repo.table.Find(rec.Id()));
            repo.InMemory() && found.Ok? && found.value.Some? && KeepsId(Forwarded(h), IdFieldOf(repo), repo.InMemory())
            && old(HoldsCounterpart(repo, found.value.value)) ==>
              var o := found.value.value;
              var u := Updated(old(o.attrs), Forwarded(h), "id");
              && o.attrs == u && repo.table.Valid() && r.Ok?
              && rec.attrs == AssignAttrs(if rec == o then u else old(rec.attrs), u)
    ensures var found := old(repo.store.Find(rec.Id()));
            !repo.InMemory() && found.Ok? && old(repo.store.Valid()) && KeepsId(Forwarded(h), IdFieldOf(repo), repo.InMemory()) ==>
              var u := Updated(old(found.value.attrs), Forwarded(h), repo.store.IdField());
              && found.value.attrs == u && repo.store.Valid() && r.Ok?
              && rec.attrs == AssignAttrs(old(rec.attrs), u)
  {
    if repo.InMemory() {
      r := UpdateAttributesHere(repo, rec, h);
    } else {
      r := UpdateAttributesInStore(repo, rec, h);
    }
  }

  /** `update_attributes` on a class that is its own model class. */
  method UpdateAttributesHere(repo: Repository, rec: Record, h: Hash) returns (r: Result<Record>)
    requires repo.InMemory()
    modifies rec, Counterparts(repo, rec.Id())
    ensures unchanged(repo.store)
    ensures old(repo.table.Find(rec.Id())).Err? ==> r == Err(RecordNotFound)
    ensures old(rec.Id()) == Nil && Forwarded(h) != [] ==> r == Err(NoMethodError)
    ensures old(rec.Id()) == Nil && Forwarded(h) == [] ==>
              r.Ok? && rec.attrs == AssignAttrs(old(rec.attrs), old(rec.attrs))
    ensures r.Ok? ==> fresh(r.value) && r.value.attrs == rec.attrs
    ensures var found := old(repo.table.Find(rec.Id()));
            found.Ok? && found.value.Some? && KeepsId(Forwarded(h), IdFieldOf(repo), repo.InMemory())
            && old(HoldsCounterpart(repo, found.value.value)) ==>
              var o := found.value.value;
              var u := Updated(old(o.attrs), Forwarded(h), "id");
              && o.attrs == u && repo.table.Valid() && r.Ok?
              && rec.attrs == AssignAttrs(if rec == o then u else old(rec.attrs), u)
  {
    var found := repo.table.Find(rec.Id());
    if found.Err? {
      return Err(found.error);
    }
    if found.value.None? {
      if Forwarded(h) != [] {
        return Err(NoMethodError);
      }
      r := repo.Reload(rec);
      return;
    }
    r := UpdateFoundHere(repo, rec, found.value.value, h);
  }

  /** `update_attributes` in memory once the instance's id finds the stored
      record `o`. */
  method UpdateFoundHere(repo: Repository, rec: Record, o: Record, h: Hash) returns (r: Result<Record>)
    requires repo.InMemory() && repo.table.Find(rec.Id()) == Ok(Some(o))
    modifies rec, o
    ensures r.Ok? ==> fresh(r.value) && r.value.attrs == rec.attrs
    ensures r.Err? ==> r.error == RecordNotFound
    ensures KeepsId(Forwarded(h), "id", true) && old(HoldsCounterpart(repo, o)) ==>
              var u := Updated(old(o.attrs), Forwarded(h), "id");
              && o.attrs == u && repo.table.Valid() && r.Ok?
              && rec.attrs == AssignAttrs(if rec == o then u else old(rec.attrs), u)
  {
    ghost var good := KeepsId(Forwarded(h), "id", true) && HoldsCounterpart(repo, o);
    var err := ForwardToFound(repo, rec, o, h);
    if err.Some? {
      return Err(err.value);
    }
    ghost var u := o.attrs;
    r := ReloadFromTable(repo, rec, o);
    if good {
      AssignAttrsIdempotent(u, u);
    }
  }

  /** Lines 75-77 of `update_attributes` in memory: the pairs go to the stored
      counterpart `o` that the instance's id finds. When they keep the id, a
      valid table stays valid and the instance's id still finds `o`. */
  method ForwardToFound(repo: Repository, rec: Record, o: Record, h: Hash) returns (err: Option<Error>)
    requires repo.InMemory() && repo.table.Find(rec.Id()) == Ok(Some(o))
    modifies o
    ensures err.Some? ==> err.value == RecordNotFound
    ensures KeepsId(Forwarded(h), "id", true) && old(HoldsCounterpart(repo, o)) ==>
              && err.None? && o.attrs == Updated(old(o.attrs), Forwarded(h), "id")
              && "_id" !in o.attrs && o.Id() == old(o.Id()) && o.Id() != Nil
              && rec.Id() == old(rec.Id()) && IndexKey(o) == IdString(rec.Id())
              && repo.table.Valid() && repo.table.Locates(o)
              && (rec in repo.table.records ==> rec == o)
  {
    ghost var good := KeepsId(Forwarded(h), "id", true) && HoldsCounterpart(repo, o);
    if good {
      FoundCounterpart(repo, rec, o);
    }
    err := ForwardHere(repo, o, h);
    if good {
      repo.table.IdKept(o);
    }
  }

  /** The counterpart an instance's id finds in a valid table is located
      under that id, and it is the instance itself if the instance is stored. */
  lemma FoundCounterpart(repo: Repository, rec: Record, o: Record)
    requires repo.InMemory() && repo.table.Find(rec.Id()) == Ok(Some(o)) && HoldsCounterpart(repo, o)
    ensures repo.table.Locates(o) && o.Id() != Nil && IndexKey(o) == IdString(rec.Id())
    ensures rec in repo.table.records ==> rec == o
  {
    repo.table.StoredIsLocated(o);
    repo.table.FindsStored(o);
    if rec in repo.table.records {
      repo.table.FindsStored(rec);
    }
  }

  /** The instance's `reload` in memory once its id finds `o`: it is
      assigned `o`'s attributes. Without `_id` among them the id stays, and
      so does a valid table. */
  method ReloadFromTable(repo: Repository, rec: Record, ghost o: Record) returns (r: Result<Record>)
    requires repo.InMemory()
    modifies rec
    ensures r.Ok? ==> fresh(r.value) && r.value.attrs == rec.attrs
    ensures r.Err? ==> r.error == RecordNotFound
    ensures old(rec.Id()) == Nil ==> r.Ok? && rec.attrs == AssignAttrs(old(rec.attrs), old(rec.attrs))
    ensures old(repo.table.Locates(o)) && old(IndexKey(o)) == IdString(old(rec.Id())) && old(rec.Id()) != Nil ==>
              && r.Ok? && rec.attrs == AssignAttrs(old(rec.attrs), old(o.attrs))
              && ("_id" !in old(o.attrs) && old(o.Id()) != Nil ==> rec.Id() == old(o.Id()))
    ensures old(repo.table.Locates(o)) && old(IndexKey(o)) == IdString(old(rec.Id())) && old(rec.Id()) != Nil
            && old(repo.table.Valid()) && "_id" !in old(o.attrs) && old(o.Id()) != Nil
            && (rec in repo.table.records ==> rec == o) ==>
              repo.table.Valid()
  {
    ghost var found := repo.table.Locates(o) && IndexKey(o) == IdString(rec.Id()) && rec.Id() != Nil;
    if found {
      assert repo.table.FindById(rec.Id()) == Some(o);
    }
    ghost var id := o.Id();
    r := repo.Reload(rec);
    if found && "_id" !in old(o.attrs) && id != Nil {
      assert rec.Id() == id;
      if old(repo.table.Valid()) && (rec in repo.table.records ==> rec == o) {
        assert forall p :: 0 <= p < |repo.table.records| ==>
                 repo.table.records[p].Id() == old(repo.table.records[p].Id());
        repo.table.ValidKeepsIds();
      }
    }
  }

  /** `update_attributes` on a class that delegates to a store. */
  method UpdateAttributesInStore(repo: Repository, rec: Record, h: Hash) returns (r: Result<Record>)
    requires !repo.InMemory() && rec !in repo.store.objects
    modifies rec, repo.store, Counterparts(repo, rec.Id())
    ensures old(repo.store.Find(rec.Id())).Err? ==> r == Err(RecordNotFound)
    ensures r.Ok? ==> fresh(r.value) && r.value.attrs == rec.attrs
    ensures var found := old(repo.store.Find(rec.Id()));
            found.Ok? && old(repo.store.Valid()) && KeepsId(Forwarded(h), IdFieldOf(repo), repo.InMemory()) ==>
              var u := Updated(old(found.value.attrs), Forwarded(h), repo.store.IdField());
              && found.value.attrs == u && repo.store.Valid() && r.Ok?
              && rec.attrs == AssignAttrs(old(rec.attrs), u)
  {
    var found := repo.store.Find(rec.Id());
    if found.Err? {
      return Err(found.error);
    }
    r := UpdateFoundInStore(repo, rec, found.value, h);
  }

  /** `update_attributes` on a delegating class once the instance's id
      finds the store object `o`. */
  method UpdateFoundInStore(repo: Repository, rec: Record, o: Record, h: Hash) returns (r: Result<Record>)
    requires !repo.InMemory() && rec !in repo.store.objects && o in repo.store.objects
    requires repo.store.IdOf(o) == rec.Id()
    modifies rec, repo.store, o
    ensures r.Ok? ==> fresh(r.value) && r.value.attrs == rec.attrs
    ensures repo.store.objects == old(repo.store.objects)
    ensures old(repo.store.Valid()) && KeepsId(Forwarded(h), repo.store.IdField(), false) ==>
              var u := Updated(old(o.attrs), Forwarded(h), repo.store.IdField());
              && o.attrs == u && repo.store.Valid() && r.Ok?
              && rec.attrs == AssignAttrs(old(rec.attrs), u)
  {
    ghost var good := repo.store.Valid() && KeepsId(Forwarded(h), repo.store.IdField(), false);
    ghost var a0 := o.attrs;
    ForwardToStore(repo, o, h);
    if good {
      UpdatedKeepsId(a0, Forwarded(h), repo.store.IdField(), false);
    }
    r := ReloadFromObject(repo, rec, o);
  }

  /** The instance's `reload` from a valid store once its id finds `o`: it
      is assigned `o`'s attributes, and the store stays as it was. */
  method ReloadFromObject(repo: Repository, rec: Record, ghost o: Record) returns (r: Result<Record>)
    requires !repo.InMemory() && rec !in repo.store.objects
    modifies rec
    ensures r.Ok? ==> fresh(r.value) && r.value.attrs == rec.attrs
    ensures old(repo.store.Valid()) && o in repo.store.objects && repo.store.IdOf(o) == old(rec.Id()) ==>
              && r.Ok? && rec.attrs == AssignAttrs(old(rec.attrs), o.attrs)
              && o.attrs == old(o.attrs) && repo.store.Valid()
  {
    ghost var found := repo.store.Valid() && o in repo.store.objects && repo.store.IdOf(o) == rec.Id();
    if found {
      repo.store.FindsStored(o);
      assert repo.Reloaded(rec.Id(), rec.attrs) == Ok(o.attrs);
    }
    r := repo.Reload(rec);
    repo.store.ValidUntouched();
  }
}
