/** The in-memory record table of a model class (ActiveHash's class-level
    state as the repository patches it): an ordered sequence of records, an
    index from `id.to_s` to position, and the dirty flag; insertion with
    re-insertion, id assignment, the duplicate-id check and validation;
    `save`, `persisted?`, `==` and `exists?` on top of it. */
module WriteSupport {
  import opened Values
  import opened Records

  /** `record.id.to_s`, the key under which the index holds a record: the
      id itself for a string id, and empty exactly for a record without an
      id or with the empty string as its id, so that those two share a key. */
  function IndexKey(r: Record): (k: string)
    reads r
    ensures k == "" <==> r.Id() == Nil || r.Id() == Str("")
    ensures r.Id().Str? ==> k == r.Id().s
  {
    IdString(r.Id())
  }

  /** `eql?`, aliased as `==`: `other` is an instance of exactly the
      receiver's class, the receiver's id is not nil, and both ids and both
      `created_at` values are equal. */
  predicate Eql(self: Record, other: Record)
    reads self, other
    ensures Eql(self, other) ==> self.Id() != Nil && IndexKey(self) == IndexKey(other)
  {
    other.cls == self.cls && self.Id() != Nil && self.Id() == other.Id()
    && self.CreatedAt() == other.CreatedAt()
  }

  /** `==` is an equivalence on records that have an id, and no record
      without an id is equal to anything, not even to itself. */
  lemma EqlIsEquivalenceOnIdentified(a: Record, b: Record, c: Record)
    ensures Eql(a, a) <==> a.Id() != Nil
    ensures a.Id() == Nil ==> !Eql(a, b)
    ensures Eql(a, b) ==> Eql(b, a)
    ensures Eql(a, b) && Eql(b, c) ==> Eql(a, c)
  {
  }

  /** Whether `all.delete(record)` removes element `e`: Ruby's `Array#delete`
      removes the argument itself and every element `==` to it. */
  predicate Deletes(e: Record, r: Record)
    reads e, r
  {
    e == r || Eql(e, r)
  }

  /** What `all.delete(record)` leaves: the record itself and every element
      `==` to it are gone, every other element stays. */
  function Kept(s: seq<Record>, r: Record): (k: seq<Record>)
    reads s, r
    ensures |k| <= |s|
    ensures r !in k
    ensures forall i :: 0 <= i < |k| ==> k[i] in s && !Deletes(k[i], r)
    ensures forall e :: e in s && !Deletes(e, r) ==> e in k
    decreases |s|
  {
    if s == [] then []
    else
      var init := Kept(s[..|s| - 1], r);
      assert forall e :: e in s ==> e in s[..|s| - 1] || e == s[|s| - 1];
      if Deletes(s[|s| - 1], r) then init else init + [s[|s| - 1]]
  }

  /** `Kept` works element by element: the deletion from a concatenation is
      the concatenation of the deletions, so the survivors keep their order
      and their repetitions (with `KeptOne`, for each element on its own). */
  lemma {:induction false} KeptConcat(s: seq<Record>, t: seq<Record>, r: Record)
    ensures Kept(s + t, r) == Kept(s, r) + Kept(t, r)
    decreases |t|
  {
    if t == [] {
      assert s + t == s;
    } else {
      var t0, x := t[..|t| - 1], t[|t| - 1];
      KeptConcat(s, t0, r);
      assert (s + t)[..|s + t| - 1] == s + t0;
      assert (s + t)[|s + t| - 1] == x;
      assert Kept(s + t, r) == if Deletes(x, r) then Kept(s + t0, r) else Kept(s + t0, r) + [x];
      assert Kept(t, r) == if Deletes(x, r) then Kept(t0, r) else Kept(t0, r) + [x];
    }
  }

  /** A single element survives the deletion exactly when it is not `==` to
      the deleted record. */
  lemma KeptOne(e: Record, r: Record)
    ensures Kept([e], r) == if Deletes(e, r) then [] else [e]
  {
    assert [e][..0] == [];
  }

  /** No two positions of `s` hold records with the same index key. */
  ghost predicate UniqueKeys(s: seq<Record>)
    reads s
  {
    forall p, q :: 0 <= p < q < |s| ==> IndexKey(s[p]) != IndexKey(s[q])
  }

  /** `idx` is exactly the index of `s`: every entry points at a record with
      that key, and every record is found under its key at its position. */
  ghost predicate Indexed(s: seq<Record>, idx: map<string, int>)
    reads s
  {
    && (forall k :: k in idx ==> 0 <= idx[k] < |s| && IndexKey(s[idx[k]]) == k)
    && (forall p :: 0 <= p < |s| ==> IndexKey(s[p]) in idx && idx[IndexKey(s[p])] == p)
  }

  /** Every record of `s` has an id. */
  ghost predicate Identified(s: seq<Record>)
    reads s
  {
    forall p :: 0 <= p < |s| ==> s[p].Id() != Nil
  }

  /** The table invariant on the sequence and the index: the index is exact
      and every stored record has an id. */
  ghost predicate Sound(s: seq<Record>, idx: map<string, int>)
    reads s
  {
    Indexed(s, idx) && Identified(s)
  }

  /** An exact index admits no duplicate ids: two stored positions never share
      an id (nor even the string form of one). */
  lemma IndexedHasUniqueIds(s: seq<Record>, idx: map<string, int>)
    requires Indexed(s, idx)
    ensures UniqueKeys(s)
    ensures forall p, q :: 0 <= p < q < |s| ==> s[p].Id() != s[q].Id()
  {
  }

  /** Deleting `r` keeps keys unique, and when `r` sits in a sequence with
      unique keys it takes its key with it. */
  lemma {:induction false} KeptKeys(s: seq<Record>, r: Record)
    requires UniqueKeys(s)
    ensures UniqueKeys(Kept(s, r))
    ensures r in s ==> forall e :: e in Kept(s, r) ==> IndexKey(e) != IndexKey(r)
    decreases |s|
  {
    if s != [] {
      var init := s[..|s| - 1];
      var last := s[|s| - 1];
      assert UniqueKeys(init) by {
        forall p, q | 0 <= p < q < |init| ensures IndexKey(init[p]) != IndexKey(init[q]) {
          assert init[p] == s[p] && init[q] == s[q];
        }
      }
      KeptKeys(init, r);
      var k := Kept(s, r);
      forall e | e in Kept(init, r) ensures IndexKey(e) != IndexKey(last) {
        var p :| 0 <= p < |init| && init[p] == e;
        assert s[p] == e;
      }
      assert UniqueKeys(k) by {
        if !Deletes(last, r) {
          assert k == Kept(init, r) + [last];
          forall p, q | 0 <= p < q < |k| ensures IndexKey(k[p]) != IndexKey(k[q]) {
            if q == |k| - 1 {
              assert k[p] in Kept(init, r);
            } else {
              assert k[p] == Kept(init, r)[p] && k[q] == Kept(init, r)[q];
            }
          }
        }
      }
      if r in s {
        forall e | e in k ensures IndexKey(e) != IndexKey(r) {
          var p :| 0 <= p < |s| && s[p] == e;
          var q :| 0 <= q < |s| && s[q] == r;
          assert e != r;
          assert p != q;
        }
      }
    }
  }

  /** The index rebuilt from scratch: each record's key mapped to its
      position, a later position overriding an earlier one. */
  function Reindex(s: seq<Record>): (idx: map<string, int>)
    reads s
    ensures forall k :: k in idx ==> 0 <= idx[k] < |s| && IndexKey(s[idx[k]]) == k
    ensures forall p :: 0 <= p < |s| ==> IndexKey(s[p]) in idx
    decreases |s|
  {
    if s == [] then map[]
    else
      var prev := Reindex(s[..|s| - 1]);
      ReindexStep(s, s[..|s| - 1], prev);
      prev[IndexKey(s[|s| - 1]) := |s| - 1]
  }

  /** A rebuilt index of all but the last record, extended by the last
      record's key, is a rebuilt index of all of them. */
  lemma ReindexStep(s: seq<Record>, init: seq<Record>, prev: map<string, int>)
    requires s != [] && init == s[..|s| - 1]
    requires forall k :: k in prev ==> 0 <= prev[k] < |init| && IndexKey(init[prev[k]]) == k
    requires forall p :: 0 <= p < |init| ==> IndexKey(init[p]) in prev
    ensures var idx := prev[IndexKey(s[|s| - 1]) := |s| - 1];
            && (forall k :: k in idx ==> 0 <= idx[k] < |s| && IndexKey(s[idx[k]]) == k)
            && (forall p :: 0 <= p < |s| ==> IndexKey(s[p]) in idx)
  {
    assert forall p :: 0 <= p < |init| ==> init[p] == s[p];
  }

  /** When keys are unique, the rebuilt index is exact. */
  lemma ReindexIsExact(s: seq<Record>)
    requires UniqueKeys(s)
    ensures Indexed(s, Reindex(s))
  {
    var idx := Reindex(s);
    forall p | 0 <= p < |s| ensures idx[IndexKey(s[p])] == p {
      var q := idx[IndexKey(s[p])];
      assert IndexKey(s[q]) == IndexKey(s[p]);
    }
  }

  /** Appending a record that has an id whose key the index does not hold
      keeps the table invariant. */
  lemma SoundAppend(s: seq<Record>, idx: map<string, int>, r: Record)
    requires Sound(s, idx)
    requires r.Id() != Nil && IndexKey(r) !in idx
    ensures Sound(s + [r], idx[IndexKey(r) := |s|])
  {
    var t := s + [r];
    forall p | 0 <= p < |t| ensures IndexKey(t[p]) in idx[IndexKey(r) := |s|] && idx[IndexKey(r) := |s|][IndexKey(t[p])] == p {
      if p < |s| { assert t[p] == s[p]; }
    }
    assert Identified(t) by {
      forall p | 0 <= p < |t| ensures t[p].Id() != Nil {
        if p < |s| { assert t[p] == s[p]; }
      }
    }
  }

  /** `find_by_id`: the record at the position the index holds for
      `id.to_s`, or nothing when there is no entry or it points past the end. */
  function Lookup(s: seq<Record>, idx: map<string, int>, id: Value): (r: Option<Record>)
    reads s
    ensures r.Some? ==> r.value in s
    ensures Indexed(s, idx) ==>
              (r.Some? <==> exists p :: 0 <= p < |s| && IndexKey(s[p]) == IdString(id))
    ensures Indexed(s, idx) && r.Some? ==> IndexKey(r.value) == IdString(id)
    ensures Indexed(s, idx) ==> forall p :: 0 <= p < |s| && IndexKey(s[p]) == IdString(id) ==> r == Some(s[p])
  {
    var k := IdString(id);
    if k in idx && 0 <= idx[k] < |s| then Some(s[idx[k]]) else None
  }

  /** Removing a record from a table whose keys are unique and whose ids are
      all set, then rebuilding the index without its key, leaves a sound
      table that no longer holds the record. */
  lemma RenumberedIsSound(s: seq<Record>, r: Record)
    requires UniqueKeys(s) && Identified(s)
    requires r in s
    ensures Sound(Kept(s, r), Reindex(Kept(s, r)) - {IndexKey(r)})
    ensures r !in Kept(s, r)
  {
    var k := Kept(s, r);
    KeptKeys(s, r);
    ReindexIsExact(k);
    assert Identified(k) by {
      forall i | 0 <= i < |k| ensures k[i].Id() != Nil {
        var p :| 0 <= p < |s| && s[p] == k[i];
      }
    }
    var idx := Reindex(k) - {IndexKey(r)};
    assert Indexed(k, idx) by {
      forall p | 0 <= p < |k| ensures IndexKey(k[p]) in idx && idx[IndexKey(k[p])] == p {
        assert k[p] in k;
      }
    }
  }

  /** The elements of `s` whose flag in `mask` is off, in order. */
  function Pick(s: seq<Record>, mask: seq<bool>): seq<Record>
    requires |mask| == |s|
    decreases |s|
  {
    if s == [] then []
    else
      var init := Pick(s[..|s| - 1], mask[..|s| - 1]);
      if mask[|s| - 1] then init else init + [s[|s| - 1]]
  }

  /** `Kept` depends on the heap only through the elements `Deletes`
      picks: two states that pick the same elements keep the same ones. */
  lemma {:induction false} KeptByMask(s: seq<Record>, r: Record, mask: seq<bool>)
    requires |mask| == |s|
    requires forall i :: 0 <= i < |s| ==> mask[i] == Deletes(s[i], r)
    ensures Kept(s, r) == Pick(s, mask)
    decreases |s|
  {
    if s != [] {
      KeptByMask(s[..|s| - 1], r, mask[..|s| - 1]);
    }
  }

  /** The index of a sequence depends only on its elements' attributes. */
  twostate lemma {:induction false} ReindexUnchanged(s: seq<Record>)
    requires forall e :: e in s ==> unchanged(e)
    ensures old(Reindex(s)) == Reindex(s)
    decreases |s|
  {
    if s != [] {
      var init, last := s[..|s| - 1], s[|s| - 1];
      assert forall e :: e in init ==> e in s;
      ReindexUnchanged(init);
      assert last in s;
      assert old(IndexKey(last)) == IndexKey(last);
    }
  }

  /** The state an insertion or a save leaves: the table's records, index
      and dirty flag, the saved record's attributes, and the error raised,
      if any. */
  datatype Outcome = Outcome(records: seq<Record>, index: map<string, int>, dirty: bool,
                             attrs: Attrs, err: Option<Error>)

  /** The class-level table of one model class. */
  class Table {
    /** The model class whose records the table stores. */
    const cls: string
    /** The fields the class declares (what `respond_to?` answers). */
    const fields: set<string>
    /** The class's validations, judging a record's attributes. */
    const validations: Attrs -> bool
    /** `@records`, in insertion order. */
    var records: seq<Record>
    /** `record_index`: `id.to_s` to position in `records`. */
    var index: map<string, int>
    /** `dirty`: set by every insertion that reaches the id check. */
    var dirty: bool

    /** The table invariant: the index is exact and a clean table is empty. */
    ghost predicate Valid()
      reads this, records
    {
      Sound(records, index) && (!dirty ==> records == [])
    }

    constructor (cls: string, fields: set<string>, validations: Attrs -> bool)
      ensures this.cls == cls && this.fields == fields && this.validations == validations
      ensures records == [] && index == map[] && !dirty
      ensures Valid()
    {
      this.cls := cls;
      this.fields := fields;
      this.validations := validations;
      records := [];
      index := map[];
      dirty := false;
    }

    /** `find_by_id`: on a valid table, the stored record whose key is the
        id's string form, and nothing when there is none. */
    function FindById(id: Value): (r: Option<Record>)
      reads this, records
      ensures r.Some? ==> r.value in records
      ensures Valid() ==> (r.Some? <==> exists p :: 0 <= p < |records| && IndexKey(records[p]) == IdString(id))
      ensures Valid() && r.Some? ==> IndexKey(r.value) == IdString(id)
    {
      Lookup(records, index, id)
    }

    /** ActiveHash's `find`: nil for a nil id, the record for a known id,
        `RecordNotFound` otherwise. */
    function Find(id: Value): (r: Result<Option<Record>>)
      reads this, records
      ensures id == Nil ==> r == Ok(None)
      ensures id != Nil ==> (r.Ok? <==> FindById(id).Some?)
      ensures id != Nil && r.Ok? ==> r.value == FindById(id)
      ensures r.Err? ==> r.error == RecordNotFound
    {
      if id == Nil then Ok(None)
      else match FindById(id)
        case Some(rec) => Ok(Some(rec))
        case None => Err(RecordNotFound)
    }

    /** `exists?` as this file defines it: `find` does not raise. A nil id
        counts as existing, because `find(nil)` answers nil without raising. */
    function ExistsByFind(id: Value): (b: bool)
      reads this, records
      ensures Valid() ==> (b <==> id == Nil || exists p :: 0 <= p < |records| && IndexKey(records[p]) == IdString(id))
    {
      Find(id).Ok?
    }

    /** The local branch of the repository's `exists?`: `find_by_id(id).present?`. */
    function Exists(id: Value): (b: bool)
      reads this, records
      ensures Valid() ==> (b <==> exists p :: 0 <= p < |records| && IndexKey(records[p]) == IdString(id))
    {
      FindById(id).Some?
    }

    /** `validate_unique_id`: raises `IdError` exactly when the index already
        holds the record's key, and changes nothing. */
    function ValidateUniqueId(record: Record): (err: Option<Error>)
      reads this, record
      ensures err.Some? <==> IndexKey(record) in index
      ensures err.Some? ==> err.value == IdError
    {
      if IndexKey(record) in index then Some(IdError) else None
    }

    /** `all.delete(record)`: removes, in place, every element `==` to the record. */
    method DeleteEqual(record: Record)
      modifies this`records
      ensures records == Kept(old(records), record)
    {
      var kept: seq<Record> := [];
      var i := 0;
      while i < |records|
        invariant 0 <= i <= |records|
        invariant kept == Kept(records[..i], record)
      {
        assert records[..i + 1][..i] == records[..i];
        if !(records[i] == record || Eql(records[i], record)) {
          kept := kept + [records[i]];
        }
        i := i + 1;
      }
      assert records[..|records|] == records;
      records := kept;
    }

    /** What is left of the sequence after the removal step of `insert`. */
    ghost function Survivors(record: Record): seq<Record>
      reads this, records, record
    {
      if record in records then Kept(records, record) else records
    }

    /** The index after the removal step as the source writes it: the key is
        dropped, later positions are NOT renumbered. */
    ghost function StaleIndex(record: Record): map<string, int>
      reads this, record
    {
      if record in records then index - {IndexKey(record)} else index
    }

    /** The index after the removal step with positions renumbered. */
    ghost function RenumberedIndex(record: Record): map<string, int>
      reads this, records, record
    {
      if record in records then
        var k := Kept(records, record);
        assert forall e | e in k :: e in records;
        Reindex(k) - {IndexKey(record)}
      else index
    }

    /** What `insert` leaves, with the index renumbered after the removal:
        the survivors of the removal and the record's id assigned; then
        `IdError` when the table is dirty and the index holds the id, or else
        a dirty table that holds the stamped record last and indexes it at
        that position exactly when it validates. */
    ghost function Inserted(record: Record, nextId: Value, now: Value): Outcome
      reads this, records, record
    {
      var s := Survivors(record);
      var idx := RenumberedIndex(record);
      var a := WithId(record.attrs, nextId);
      var key := IdString(Get(a, "id"));
      if dirty && key in idx then Outcome(s, idx, dirty, a, Some(IdError))
      else
        var b := Stamped(a, fields, now);
        if validations(b) then Outcome(s + [record], idx[key := |s|], true, b, None)
        else Outcome(s, idx, true, b, None)
    }

    /** Where a saved record ends up: it is stored exactly when it validates,
        and then `find_by_id` finds it under its id. */
    predicate Placed(rec: Record)
      reads this, records, rec
    {
      && (rec in records <==> validations(rec.attrs))
      && (validations(rec.attrs) ==> FindById(rec.Id()) == Some(rec))
    }

    /** Setting a nil id to nil (line 185 of the repository's `save`) changes
        nothing `save` depends on, as long as no other record changed and the
        deletion step removes the same records. */
    twostate lemma NilIdKeepsOutcome(rec: Record)
      requires old(rec.Id()) == Nil && rec.attrs == old(rec.attrs)["id" := Nil]
      requires unchanged(this)
      requires forall e :: e in records && e != rec ==> unchanged(e)
      requires rec in records ==> old(Kept(records, rec)) == Kept(records, rec)
      ensures forall nextId, now :: SaveOutcome(rec, nextId, now) == old(SaveOutcome(rec, nextId, now))
    {
      assert StoredTwin(rec) == None == old(StoredTwin(rec));
      assert Survivors(rec) == old(Survivors(rec));
      assert RenumberedIndex(rec) == old(RenumberedIndex(rec)) by {
        if rec in records {
          var k := Kept(records, rec);
          assert forall e :: e in k ==> e in records && e != rec;
          ReindexUnchanged(k);
        }
      }
      forall nextId, now
        ensures SaveOutcome(rec, nextId, now) == old(SaveOutcome(rec, nextId, now))
      {
        assert WithId(rec.attrs, nextId) == old(WithId(rec.attrs, nextId));
        assert Inserted(rec, nextId, now) == old(Inserted(rec, nextId, now));
      }
    }

    /** The table invariant survives changes to stored records that keep
        every stored id. */
    twostate lemma ValidKeepsIds()
      requires old(Valid()) && unchanged(this)
      requires forall p :: 0 <= p < |records| ==> records[p].Id() == old(records[p].Id())
      ensures Valid()
    {
      assert forall p :: 0 <= p < |records| ==> IndexKey(records[p]) == old(IndexKey(records[p]));
    }

    /** Changes outside the table and its records keep the index sound. */
    twostate lemma SoundUntouched()
      requires unchanged(this) && forall e :: e in records ==> unchanged(e)
      ensures Sound(records, index) == old(Sound(records, index))
    {
      assert forall p :: 0 <= p < |records| ==> records[p] in records;
      assert forall p :: 0 <= p < |records| ==>
        records[p].Id() == old(records[p].Id()) && IndexKey(records[p]) == old(IndexKey(records[p]));
    }

    /** Changes outside the table, its records and `rec` keep both the
        invariant and where `rec` is placed. */
    twostate lemma Untouched(rec: Record)
      requires unchanged(this) && unchanged(rec)
      requires forall e :: e in records ==> unchanged(e)
      ensures Valid() == old(Valid())
      ensures Placed(rec) == old(Placed(rec))
    {
      assert forall p :: 0 <= p < |records| ==> records[p] in records;
      assert forall p :: 0 <= p < |records| ==>
        records[p].Id() == old(records[p].Id()) && IndexKey(records[p]) == old(IndexKey(records[p]));
      assert Lookup(records, index, rec.Id()) == old(Lookup(records, index, rec.Id()));
    }

    /** A save leaves only the old records and the saved one in the table. */
    lemma OutcomeMembers(rec: Record, nextId: Value, now: Value)
      ensures forall e :: e in SaveOutcome(rec, nextId, now).records ==> e in records || e == rec
    {
      if rec in records {
        var k := Kept(records, rec);
        assert forall e :: e in k ==> e in records;
      }
    }

    /** Saving a record the table does not hold keeps every stored record in
        the table: the removal step finds nothing to delete. */
    lemma OutcomeKeeps(rec: Record, nextId: Value, now: Value)
      requires rec !in records
      ensures forall e :: e in records ==> e in SaveOutcome(rec, nextId, now).records
    {
    }

    /** A save that is not skipped and raises nothing leaves the record's
        attributes with the id assigned and the timestamps set. */
    lemma OutcomeAttrs(rec: Record, nextId: Value, now: Value)
      requires !Skips(rec)
      ensures var o := SaveOutcome(rec, nextId, now);
              o.err.None? ==> o.attrs == Stamped(WithId(rec.attrs, nextId), fields, now)
    {
    }

    /** A valid table never skips saving a record with a nil id or a stored
        record: neither has a distinct `==` twin in the table. */
    lemma NeverSkips(rec: Record)
      requires Valid()
      requires rec.Id() == Nil || rec in records
      ensures !Skips(rec)
    {
      if rec in records && rec.Id() != Nil {
        FindsStored(rec);
      }
    }

    /** The stored record `save` compares the record with (line 50): the one
        `find` returns for the record's id when `exists?` holds for it. */
    ghost function StoredTwin(rec: Record): (r: Option<Record>)
      reads this, records, rec
      ensures r.Some? ==> r.value in records && rec.Id() != Nil
      ensures Valid() ==> (r.Some? <==> rec.Id() != Nil && exists p :: 0 <= p < |records| && IndexKey(records[p]) == IndexKey(rec))
      ensures Valid() && r.Some? ==> IndexKey(r.value) == IndexKey(rec)
    {
      if Exists(rec.Id()) && rec.Id() != Nil then FindById(rec.Id()) else None
    }

    /** Line 52 skips the insertion when the stored record is `==` to the
        record but is another object. */
    ghost predicate Skips(rec: Record)
      reads this, records, rec
      ensures Skips(rec) ==> rec.Id() != Nil && exists e :: e in records && e != rec && Eql(e, rec)
    {
      var stored := StoredTwin(rec);
      stored.Some? && Eql(stored.value, rec) && stored.value != rec
    }

    /** What `save` leaves: everything as it was when it skips, otherwise what
        `insert` leaves. */
    ghost function SaveOutcome(rec: Record, nextId: Value, now: Value): Outcome
      reads this, records, rec
    {
      if Skips(rec) then Outcome(records, index, dirty, rec.attrs, None) else Inserted(rec, nextId, now)
    }

    /** Lines 22-25 as written. */
    method RemoveStale(record: Record)
      modifies this`records, this`index
      ensures records == old(Survivors(record)) && index == old(StaleIndex(record))
    {
      if record in records {
        index := index - {IndexKey(record)};
        DeleteEqual(record);
      }
    }

    /** Lines 22-25 with the index renumbered: it is rebuilt for the records
        that survive the removal. */
    method RemoveRenumbered(record: Record)
      modifies this`records, this`index
      ensures records == old(Survivors(record)) && index == old(RenumberedIndex(record))
    {
      if record in records {
        index := Reindex(Kept(records, record)) - {IndexKey(record)};
        DeleteEqual(record);
      }
    }

    /** Lines 28-37 of `insert`: assign an id if there is none, check it
        against the index if the table is dirty, mark the table dirty, and
        store the record if it validates. */
    method AddRecord(record: Record, nextId: Value, now: Value) returns (err: Option<Error>)
      modifies this, record
      ensures record.Id() == AssignedId(old(record.Id()), nextId)
      ensures err.Some? <==> old(dirty) && IndexKey(record) in old(index)
      ensures err.Some? ==> err.value == IdError && records == old(records) && index == old(index)
                            && dirty == old(dirty) && record.attrs == WithId(old(record.attrs), nextId)
      ensures err.None? ==> dirty && record.attrs == Stamped(WithId(old(record.attrs), nextId), fields, now)
      ensures err.None? && validations(record.attrs) ==>
                records == old(records) + [record] && index == old(index)[IndexKey(record) := |old(records)|]
      ensures err.None? && !validations(record.attrs) ==> records == old(records) && index == old(index)
      ensures (old(Sound(records, index)) && record !in old(records)
               && (!old(dirty) ==> old(records) == []) && !Falsy(nextId)) ==> Valid()
    {
      AssignStoredId(record, nextId);
      err := AddChecked(record, now);
    }

    /** Lines 29-37 of `insert`, once the record has its id: the id check
        against the index if the table is dirty, then the marking and the
        storing. */
    method AddChecked(record: Record, now: Value) returns (err: Option<Error>)
      modifies this, record
      ensures err.Some? <==> old(dirty) && IndexKey(record) in old(index)
      ensures err.Some? ==> err.value == IdError && records == old(records) && index == old(index)
                            && dirty == old(dirty) && record.attrs == old(record.attrs)
      ensures err.None? ==> dirty && record.attrs == Stamped(old(record.attrs), fields, now)
      ensures err.None? && validations(record.attrs) ==>
                records == old(records) + [record] && index == old(index)[IndexKey(record) := |old(records)|]
      ensures err.None? && !validations(record.attrs) ==> records == old(records) && index == old(index)
      ensures (old(Sound(records, index)) && record !in old(records)
               && (!old(dirty) ==> old(records) == []) && old(record.Id()) != Nil) ==> Valid()
    {
      err := if dirty then ValidateUniqueId(record) else None;
      if err.None? {
        dirty := true;
        StoreIfValid(record, now);
      }
    }

    /** Lines 34-37 of `insert`: the record is validated (which stamps it)
        and, if valid, appended and indexed at its position. */
    method StoreIfValid(record: Record, now: Value)
      modifies this`records, this`index, record
      ensures record.attrs == Stamped(old(record.attrs), fields, now)
      ensures validations(record.attrs) ==>
                records == old(records) + [record] && index == old(index)[IndexKey(record) := |old(records)|]
      ensures !validations(record.attrs) ==> records == old(records) && index == old(index)
      ensures (dirty && old(Sound(records, index)) && record !in old(records)
               && old(record.Id()) != Nil && IndexKey(record) !in old(index)) ==> Valid()
    {
      var ok := ValidateStored(record, now);
      if ok {
        Append(record);
      }
    }

    /** `record.attributes[:id] ||= next_id` on a record outside the table:
        the table does not change. */
    method AssignStoredId(record: Record, nextId: Value)
      modifies record
      ensures record.attrs == WithId(old(record.attrs), nextId)
      ensures old(Sound(records, index)) && record !in records ==> Sound(records, index)
    {
      ghost var keep := Sound(records, index) && record !in records;
      AssignNextId(record, nextId);
      if keep {
        SoundUntouched();
      }
    }

    /** `record.valid?` on a record outside the table: it is stamped, and
        neither its id nor the table changes. */
    method ValidateStored(record: Record, now: Value) returns (ok: bool)
      modifies record
      ensures record.attrs == Stamped(old(record.attrs), fields, now)
      ensures ok == validations(record.attrs)
      ensures record.Id() == old(record.Id()) && IndexKey(record) == old(IndexKey(record))
      ensures old(Sound(records, index)) && record !in records ==> Sound(records, index)
    {
      ghost var a0 := record.attrs;
      ghost var keep := Sound(records, index) && record !in records;
      ok := Validate(record, fields, validations, now);
      assert Get(record.attrs, "id") == Get(a0, "id");
      if keep {
        SoundUntouched();
      }
    }

    /** Appending a record and indexing it at its position. */
    method Append(record: Record)
      modifies this`records, this`index
      ensures records == old(records) + [record] && index == old(index)[IndexKey(record) := |old(records)|]
      ensures old(Sound(records, index)) && record.Id() != Nil && IndexKey(record) !in old(index) ==>
                Sound(records, index)
    {
      if Sound(records, index) && record.Id() != Nil && IndexKey(record) !in index {
        SoundAppend(records, index, record);
      }
      index := index[IndexKey(record) := |records|];
      records := records + [record];
    }

    /** `insert`, with the index renumbered after the removal (the source's
        behaviour is `InsertAsWritten`). The guard of line 27 always holds at
        that point. The table stays valid as long as `next_id` is not nil or
        false. */
    method Insert(record: Record, nextId: Value, now: Value) returns (err: Option<Error>)
      modifies this, record
      ensures record.Id() == AssignedId(old(record.Id()), nextId)
      ensures Outcome(records, index, dirty, record.attrs, err) == old(Inserted(record, nextId, now))
      ensures old(Valid()) && !Falsy(nextId) ==> Valid()
      ensures old(Valid()) && !Falsy(nextId) && err.None? ==> Placed(record)
    {
      ghost var keep := Valid() && !Falsy(nextId);
      RemoveForInsert(record);
      if IndexKey(record) !in index || record !in records {
        err := AddRecord(record, nextId, now);
      }
      if keep && err.None? && validations(record.attrs) {
        FindsStored(record);
      }
    }

    /** Lines 22-25 of `insert` with the index renumbered: afterwards the
        guard of line 27 holds, and a valid table has lost the record and
        kept an exact index. */
    method RemoveForInsert(record: Record)
      modifies this`records, this`index
      ensures records == old(Survivors(record)) && index == old(RenumberedIndex(record))
      ensures IndexKey(record) !in index || record !in records
      ensures old(Valid()) ==> Sound(records, index) && record !in records && (!dirty ==> records == [])
    {
      RemovalGuard(record);
      if Valid() {
        RemovalKeepsIndex(record);
      }
      RemoveRenumbered(record);
    }

    /** After the removal step of `insert` the guard of line 27 holds: either
        the record was stored and its key is gone from the index, or it was
        never stored. */
    lemma RemovalGuard(record: Record)
      ensures IndexKey(record) !in RenumberedIndex(record) || record !in Survivors(record)
      ensures IndexKey(record) !in StaleIndex(record) || record !in Survivors(record)
    {
    }

    /** In a valid table the renumbering removal keeps the index exact and
        takes the record out of the table. */
    lemma RemovalKeepsIndex(record: Record)
      requires Valid()
      ensures Sound(Survivors(record), RenumberedIndex(record))
      ensures record !in Survivors(record)
      ensures !dirty ==> Survivors(record) == []
    {
      if record in records {
        IndexedHasUniqueIds(records, index);
        RenumberedIsSound(records, record);
      }
    }

    /** `insert` exactly as the source writes it: the index entry of the
        re-inserted record is dropped but the positions of the entries after
        it are not renumbered. */
    method InsertAsWritten(record: Record, nextId: Value, now: Value) returns (err: Option<Error>)
      modifies this, record
      ensures record.Id() == AssignedId(old(record.Id()), nextId)
      ensures err.Some? <==> old(dirty) && IdString(record.Id()) in old(StaleIndex(record))
      ensures err.Some? ==> err.value == IdError && records == old(Survivors(record))
                            && index == old(StaleIndex(record)) && dirty == old(dirty)
      ensures err.None? ==> dirty && record.attrs == Stamped(WithId(old(record.attrs), nextId), fields, now)
      ensures err.None? && validations(record.attrs) ==>
                && records == old(Survivors(record)) + [record]
                && index == old(StaleIndex(record))[IndexKey(record) := |old(Survivors(record))|]
      ensures err.None? && !validations(record.attrs) ==>
                records == old(Survivors(record)) && index == old(StaleIndex(record))
    {
      RemoveStale(record);
      assert IndexKey(record) !in index || record !in records;
      if IndexKey(record) !in index || record !in records {
        err := AddRecord(record, nextId, now);
      }
    }

    /** The index entry under `rec`'s id points at `rec`: what `find` needs
        to return it, stated without the rest of the invariant. */
    predicate Locates(rec: Record)
      reads this, rec
    {
      var k := IndexKey(rec);
      k in index && 0 <= index[k] < |records| && records[index[k]] == rec
    }

    /** A located record is what `find_by_id` and `find` return for its id. */
    lemma LocatedIsFound(rec: Record)
      requires Locates(rec)
      ensures FindById(rec.Id()) == Some(rec)
      ensures rec.Id() != Nil ==> Find(rec.Id()) == Ok(Some(rec))
    {
    }

    /** A change to one record that keeps its id keeps a valid table valid. */
    twostate lemma IdKept(rec: Record)
      requires old(Valid()) && unchanged(this) && rec.Id() == old(rec.Id())
      requires forall e :: e in records && e != rec ==> unchanged(e)
      ensures Valid()
    {
      assert forall p :: 0 <= p < |records| ==> records[p] in records;
      assert forall p :: 0 <= p < |records| ==> records[p].Id() == old(records[p].Id());
      ValidKeepsIds();
    }

    /** In a valid table every stored record is located. */
    lemma StoredIsLocated(rec: Record)
      requires Valid() && rec in records
      ensures Locates(rec) && rec.Id() != Nil
    {
      var p :| 0 <= p < |records| && records[p] == rec;
    }

    /** Every stored record is found under its own id in a valid table. */
    lemma FindsStored(rec: Record)
      requires Valid()
      requires rec in records
      ensures FindById(rec.Id()) == Some(rec)
      ensures rec.Id() != Nil ==> Find(rec.Id()) == Ok(Some(rec))
    {
    }

    /** Re-inserting the first of three stored records as the source does
        leaves the index pointing the second id at the third record: the
        table `[b, c, a]` keeps `"b" => 1` and `"c" => 2` and adds `"a" => 2`. */
    lemma StaleIndexMisdirects(a: Record, b: Record, c: Record)
      requires Valid()
      requires records == [a, b, c]
      requires a.Id() == Str("a") && b.Id() == Str("b") && c.Id() == Str("c")
      ensures Survivors(a) == [b, c]
      ensures Lookup(Survivors(a) + [a], StaleIndex(a)[IndexKey(a) := 2], Str("b")) == Some(c)
      ensures !Indexed(Survivors(a) + [a], StaleIndex(a)[IndexKey(a) := 2])
    {
      assert IndexKey(a) == "a" && IndexKey(b) == "b" && IndexKey(c) == "c";
      assert Eql(a, a) && !Eql(b, a) && !Eql(c, a);
      assert Kept([a], a) == [] by { assert [a][..0] == []; }
      assert Kept([a, b], a) == [b] by { assert [a, b][..1] == [a]; }
      assert Kept([a, b, c], a) == [b, c] by { assert [a, b, c][..2] == [a, b]; }
      assert records[1] == b && records[2] == c;
      assert index["b"] == 1 && index["c"] == 2;
    }

    /** `save` of this file: looks up the stored record with the record's id
        (through the repository's `exists?` and `find`), inserts unless that
        stored record is `==` to the record but is a different object, and
        answers true; an `IdError` from `insert` propagates. */
    method Save(rec: Record, nextId: Value, now: Value) returns (r: Result<bool>)
      modifies this, rec
      ensures r.Ok? ==> r.value
      ensures r.Err? ==> r.error == IdError
      ensures Outcome(records, index, dirty, rec.attrs, if r.Ok? then None else Some(r.error))
              == old(SaveOutcome(rec, nextId, now))
      ensures old(Valid()) && !Falsy(nextId) ==> Valid()
      ensures old(Skips(rec)) ==> FindById(rec.Id()).Some? && Eql(FindById(rec.Id()).value, rec)
      ensures old(Valid()) && !Falsy(nextId) && !old(Skips(rec)) && r.Ok? ==> Placed(rec)
    {
      var stored := Twin(rec);
      ghost var inserted := Inserted(rec, nextId, now);
      assert SaveOutcome(rec, nextId, now) ==
             if Skips(rec) then Outcome(records, index, dirty, rec.attrs, None) else inserted;
      if !(stored.Some? && Eql(stored.value, rec) && stored.value != rec) {
        var err := Insert(rec, nextId, now);
        if err.Some? {
          return Err(err.value);
        }
      }
      r := Ok(true);
    }

    /** Lines 49-51 of `save`: the stored record `find` returns for the
        record's id when `exists?` says there is one. */
    method Twin(rec: Record) returns (stored: Option<Record>)
      ensures stored == StoredTwin(rec)
    {
      stored := None;
      if Exists(rec.Id()) {
        var found := Find(rec.Id());
        stored := found.value;
      }
    }

    /** `persisted?`: the record's id is among the stored ids and its
        `created_at` equals that of the record `find` returns for it. */
    function Persisted(rec: Record): (r: Result<bool>)
      reads this, records, rec
      ensures rec.Id() != Nil && FindById(rec.Id()).None? ==> r == Err(RecordNotFound)
      ensures r == Ok(true) ==> exists p :: 0 <= p < |records| && records[p].Id() == rec.Id()
      ensures Valid() && rec.Id() == Nil ==> r == Ok(false)
      ensures Valid() && rec.Id() != Nil && (exists p :: 0 <= p < |records| && records[p].Id() == rec.Id()) ==>
                FindById(rec.Id()).Some? && r == Ok(rec.CreatedAt() == FindById(rec.Id()).value.CreatedAt())
      ensures Valid() && rec in records ==> r == Ok(true)
    {
      match Find(rec.Id())
      case Err(e) => Err(e)
      case Ok(other) =>
        if !(exists p :: 0 <= p < |records| && records[p].Id() == rec.Id()) then Ok(false)
        else if other.None? then Err(NoMethodError)
        else Ok(rec.CreatedAt() == other.value.CreatedAt())
    }

    /** ActiveHash's `delete_all`, the local branch of the repository's
        `delete_all`: empties the sequence and the index. */
    method DeleteAll()
      modifies this
      ensures records == [] && index == map[] && dirty
      ensures Valid()
    {
      records := [];
      index := map[];
      dirty := true;
    }
  }

  /** `record.attributes[:id] ||= next_id`. */
  method AssignNextId(record: Record, nextId: Value)
    modifies record
    ensures record.attrs == WithId(old(record.attrs), nextId)
  {
    if Falsy(record.Id()) {
      record.attrs := record.attrs["id" := nextId];
    }
  }

  /** The id `record.attributes[:id] ||= next_id` leaves. */
  function AssignedId(id: Value, nextId: Value): (r: Value)
    ensures !Falsy(id) ==> r == id
    ensures Falsy(id) ==> r == nextId
  {
    if Falsy(id) then nextId else id
  }

  /** The attributes after `record.attributes[:id] ||= next_id`: `next_id` is
      used only when the id is nil or false, and no other attribute changes. */
  function WithId(a: Attrs, nextId: Value): (r: Attrs)
    ensures Get(r, "id") == AssignedId(Get(a, "id"), nextId)
    ensures forall n :: n != "id" ==> Get(r, n) == Get(a, n)
  {
    if Falsy(Get(a, "id")) then a["id" := nextId] else a
  }
}
