/** The delegate store: the ORM or ODM class a repository class forwards to
    when it does not persist in memory. Only the capabilities the repository
    uses are represented (`all`, `where(...).first`, `find`, `exists?`,
    `delete_all`, `new`, attribute assignment, `save`, `create`,
    `update_attribute`), over an ordered collection of persisted objects.
    A Mongoid store keeps an object's id in the field `_id` and accepts `id`
    as an alias for it; any other store keeps it in `id`. */
module Delegate {
  import opened Values
  import opened Records

  /** The field a store writes for an attribute name: `id` is the id field. */
  function FieldFor(name: string, idField: string): (f: string)
    ensures name == "id" ==> f == idField
    ensures name != "id" ==> f == name
  {
    if name == "id" then idField else name
  }

  /** Whether an object's attributes meet every condition of `h`: no
      conditions are met by every object, and a condition on `id` is one on
      the id field. */
  predicate Meets(a: Attrs, h: Hash, idField: string) {
    forall i :: 0 <= i < |h| ==> Get(a, FieldFor(h[i].0.name, idField)) == h[i].1
  }

  /** The objects of `s` meeting `h`, in the order of `s`. */
  function Select(s: seq<Record>, h: Hash, idField: string): (r: seq<Record>)
    reads s
    ensures |r| <= |s|
    ensures forall i :: 0 <= i < |r| ==> r[i] in s && Meets(r[i].attrs, h, idField)
    ensures forall p :: 0 <= p < |s| && Meets(s[p].attrs, h, idField) ==> s[p] in r
    ensures r != [] ==> exists p :: 0 <= p < |s| && s[p] == r[0]
                                    && forall q :: 0 <= q < p ==> !Meets(s[q].attrs, h, idField)
    ensures r == [] ==> forall p :: 0 <= p < |s| ==> !Meets(s[p].attrs, h, idField)
    decreases |s|
  {
    if s == [] then []
    else
      var rest := Select(s[1..], h, idField);
      assert forall p :: 1 <= p < |s| ==> s[p] == s[1..][p - 1];
      if Meets(s[0].attrs, h, idField) then [s[0]] + rest
      else
        FirstMatchSkips(s, h, idField, rest);
        rest
  }

  /** When the head of `s` does not meet `h`, the first match in the tail,
      if any, is the first match in `s`. */
  lemma FirstMatchSkips(s: seq<Record>, h: Hash, idField: string, rest: seq<Record>)
    requires s != [] && !Meets(s[0].attrs, h, idField)
    requires rest != [] ==> exists p :: 0 <= p < |s[1..]| && s[1..][p] == rest[0]
                                        && forall q :: 0 <= q < p ==> !Meets(s[1..][q].attrs, h, idField)
    ensures rest != [] ==> exists p :: 0 <= p < |s| && s[p] == rest[0]
                                       && forall q :: 0 <= q < p ==> !Meets(s[q].attrs, h, idField)
  {
    if rest != [] {
      var p :| 0 <= p < |s[1..]| && s[1..][p] == rest[0]
               && forall q :: 0 <= q < p ==> !Meets(s[1..][q].attrs, h, idField);
      assert s[p + 1] == rest[0];
      forall q | 0 <= q < p + 1 ensures !Meets(s[q].attrs, h, idField) {
        if q > 0 { assert s[q] == s[1..][q - 1]; }
      }
    }
  }

  /** `Select` filters element by element: selecting from a concatenation is
      concatenating the selections, so the matches keep the order and the
      repetitions of `s`. */
  lemma {:induction false} SelectConcat(s: seq<Record>, t: seq<Record>, h: Hash, idField: string)
    ensures Select(s + t, h, idField) == Select(s, h, idField) + Select(t, h, idField)
    decreases |s|
  {
    if s == [] {
      assert s + t == t;
    } else {
      var st := s + t;
      assert st[0] == s[0] && st[1..] == s[1..] + t;
      SelectConcat(s[1..], t, h, idField);
      var rest := Select(s[1..], h, idField);
      if Meets(s[0].attrs, h, idField) {
        assert Select(st, h, idField) == [s[0]] + rest + Select(t, h, idField);
        assert Select(s, h, idField) == [s[0]] + rest;
      } else {
        assert Select(st, h, idField) == rest + Select(t, h, idField);
        assert Select(s, h, idField) == rest;
      }
    }
  }

  /** A single object is selected exactly when it meets the conditions. */
  lemma SelectOne(e: Record, h: Hash, idField: string)
    ensures Select([e], h, idField) == if Meets(e.attrs, h, idField) then [e] else []
  {
    assert [e][1..] == [];
  }

  /** Attribute assignment on a store object: each pair of `h`, in order, is
      written to its field. */
  function Apply(a: Attrs, h: Hash, idField: string): (r: Attrs)
    ensures forall n :: n in a ==> n in r
    ensures forall i :: 0 <= i < |h| ==> FieldFor(h[i].0.name, idField) in r
    ensures h != [] ==> r[FieldFor(h[|h| - 1].0.name, idField)] == h[|h| - 1].1
    decreases |h|
  {
    if h == [] then a
    else Apply(a, h[..|h| - 1], idField)[FieldFor(h[|h| - 1].0.name, idField) := h[|h| - 1].1]
  }

  /** Assignment keeps the object's fields and adds exactly those a pair is
      written to. */
  lemma {:induction false} ApplyFields(a: Attrs, h: Hash, n: string, idField: string)
    ensures n in Apply(a, h, idField) <==> n in a || exists i :: 0 <= i < |h| && FieldFor(h[i].0.name, idField) == n
    decreases |h|
  {
    if h != [] {
      var init := h[..|h| - 1];
      ApplyFields(a, init, n, idField);
      assert forall i :: 0 <= i < |init| ==> init[i] == h[i];
      if exists i :: 0 <= i < |h| && FieldFor(h[i].0.name, idField) == n {
        var i :| 0 <= i < |h| && FieldFor(h[i].0.name, idField) == n;
        if i < |init| {
          assert FieldFor(init[i].0.name, idField) == n;
        }
      }
    }
  }

  /** No pair of `h` is written to field `n`. */
  predicate Unwritten(h: Hash, n: string, idField: string) {
    forall i :: 0 <= i < |h| ==> FieldFor(h[i].0.name, idField) != n
  }

  /** Position `i` of `h` is the last pair written to field `n`. */
  predicate WrittenLast(h: Hash, i: int, n: string, idField: string) {
    && 0 <= i < |h|
    && FieldFor(h[i].0.name, idField) == n
    && forall j :: i < j < |h| ==> FieldFor(h[j].0.name, idField) != n
  }

  /** A field no pair is written to keeps its old value. */
  lemma {:induction false} ApplyUnwritten(a: Attrs, h: Hash, n: string, idField: string)
    requires Unwritten(h, n, idField)
    ensures Get(Apply(a, h, idField), n) == Get(a, n)
    decreases |h|
  {
    if h != [] {
      var init := h[..|h| - 1];
      assert Unwritten(init, n, idField) by {
        forall i | 0 <= i < |init| ensures FieldFor(init[i].0.name, idField) != n {
          assert init[i] == h[i];
        }
      }
      ApplyUnwritten(a, init, n, idField);
    }
  }

  /** A field written last by pair `i` ends with that pair's value. */
  lemma {:induction false} ApplyLast(a: Attrs, h: Hash, i: int, n: string, idField: string)
    requires WrittenLast(h, i, n, idField)
    ensures Get(Apply(a, h, idField), n) == h[i].1
    decreases |h|
  {
    var last := |h| - 1;
    var init := h[..last];
    assert Apply(a, h, idField) == Apply(a, init, idField)[FieldFor(h[last].0.name, idField) := h[last].1];
    if i < last {
      assert FieldFor(h[last].0.name, idField) != n;
      assert init[i] == h[i];
      assert WrittenLast(init, i, n, idField) by {
        forall j | i < j < |init| ensures FieldFor(init[j].0.name, idField) != n {
          assert init[j] == h[j];
        }
      }
      ApplyLast(a, init, i, n, idField);
    }
  }

  /** The value a field of a store object ends with after `new(attributes)`
      or attribute assignment: that of the LAST pair written to it (a pair
      under `id` is written to the id field), or its old value if none is. */
  lemma ApplyLastWins(a: Attrs, h: Hash, n: string, idField: string)
    ensures Unwritten(h, n, idField) ==> Get(Apply(a, h, idField), n) == Get(a, n)
    ensures forall i :: WrittenLast(h, i, n, idField) ==> Get(Apply(a, h, idField), n) == h[i].1
  {
    if Unwritten(h, n, idField) {
      ApplyUnwritten(a, h, n, idField);
    }
    forall i | WrittenLast(h, i, n, idField) ensures Get(Apply(a, h, idField), n) == h[i].1 {
      ApplyLast(a, h, i, n, idField);
    }
  }

  /** A condition on `id` is a condition on the id field, and no conditions
      are met by every object. */
  lemma MeetsIdCondition(a: Attrs, v: Value, idField: string)
    ensures Meets(a, [], idField)
    ensures Meets(a, [(Sym("id"), v)], idField) <==> Get(a, idField) == v
  {
    assert [(Sym("id"), v)][0].0.name == "id";
  }

  /** Assigning another object's attribute map to a store object: every name
      is written to its field; the `id` entry, if any, wins over an explicit
      entry for the id field. */
  function Merge(a: Attrs, m: Attrs, idField: string): (r: Attrs)
    ensures forall n :: n in m && n != "id" && n != idField ==> Get(r, n) == m[n]
    ensures "id" in m ==> Get(r, idField) == m["id"]
    ensures forall n :: n !in m && FieldFor(n, idField) == n && n != idField ==> Get(r, n) == Get(a, n)
  {
    a + (map n | n in m && n != "id" :: m[n])
      + (if "id" in m then map[idField := m["id"]] else map[])
  }

  class Store {
    /** The name of the delegate class. */
    const cls: string
    /** Whether the delegate class is a Mongoid document. */
    const mongoid: bool
    /** The persisted objects, in the order the store returns them. */
    var objects: seq<Record>
    /** The source of the ids the store generates. */
    var sequence: int

    constructor (cls: string, mongoid: bool)
      ensures this.cls == cls && this.mongoid == mongoid && objects == [] && sequence == 1
    {
      this.cls := cls;
      this.mongoid := mongoid;
      objects := [];
      sequence := 1;
    }

    /** The store invariant: every stored object has an id, no two share
        one, and every integer id lies below the sequence, so that a
        generated id is always new. */
    ghost predicate Valid()
      reads this, objects
    {
      && (forall p :: 0 <= p < |objects| ==> IdOf(objects[p]) != Nil)
      && (forall p, q :: 0 <= p < q < |objects| ==> IdOf(objects[p]) != IdOf(objects[q]))
      && (forall p :: 0 <= p < |objects| && IdOf(objects[p]).Int? ==> IdOf(objects[p]).i < sequence)
    }

    /** The field holding an object's id. */
    function IdField(): (f: string)
      reads this
      ensures mongoid <==> f == "_id"
      ensures !mongoid <==> f == "id"
    {
      if mongoid then "_id" else "id"
    }

    /** `object.id` of a store object. */
    function IdOf(o: Record): Value
      reads this, o
    {
      Get(o.attrs, IdField())
    }

    /** `where(conditions)`: the stored objects meeting every condition. */
    function Where(h: Hash): (r: seq<Record>)
      reads this, objects
      ensures forall i :: 0 <= i < |r| ==> r[i] in objects && Meets(r[i].attrs, h, IdField())
      ensures forall p :: 0 <= p < |objects| && Meets(objects[p].attrs, h, IdField()) ==> objects[p] in r
    {
      Select(objects, h, IdField())
    }

    /** `where(conditions).first`. */
    function First(h: Hash): (r: Option<Record>)
      reads this, objects
      ensures r.Some? ==> r.value in objects && Meets(r.value.attrs, h, IdField())
      ensures r.Some? ==> exists p :: 0 <= p < |objects| && objects[p] == r.value
                                      && forall q :: 0 <= q < p ==> !Meets(objects[q].attrs, h, IdField())
      ensures r.None? <==> forall p :: 0 <= p < |objects| ==> !Meets(objects[p].attrs, h, IdField())
    {
      var w := Where(h);
      if w == [] then None else Some(w[0])
    }

    /** `find(id)`: the first object with that id; a nil or unknown id fails
        with `RecordNotFound`. */
    function Find(id: Value): (r: Result<Record>)
      reads this, objects
      ensures r.Ok? ==> r.value in objects && IdOf(r.value) == id && id != Nil
      ensures r.Err? ==> r.error == RecordNotFound
      ensures r.Err? <==> id == Nil || forall p :: 0 <= p < |objects| ==> IdOf(objects[p]) != id
    {
      if id == Nil then Err(RecordNotFound)
      else match First([(Sym("id"), id)])
        case Some(o) =>
          assert Meets(o.attrs, [(Sym("id"), id)], IdField());
          assert FieldFor([(Sym("id"), id)][0].0.name, IdField()) == IdField();
          Ok(o)
        case None => Err(RecordNotFound)
    }

    /** Changes outside the store and its objects keep the invariant. */
    twostate lemma ValidUntouched()
      requires unchanged(this) && forall o :: o in objects ==> unchanged(o)
      ensures Valid() == old(Valid())
    {
      assert forall p :: 0 <= p < |objects| ==> objects[p] in objects;
      assert forall p :: 0 <= p < |objects| ==> IdOf(objects[p]) == old(IdOf(objects[p]));
    }

    /** In a valid store `find` answers every stored object under its own id. */
    lemma FindsStored(o: Record)
      requires Valid() && o in objects
      ensures Find(IdOf(o)) == Ok(o)
    {
      var r := Find(IdOf(o));
      assert r.Ok?;
      var p :| 0 <= p < |objects| && objects[p] == o;
      var q :| 0 <= q < |objects| && objects[q] == r.value;
      assert IdOf(objects[p]) == IdOf(objects[q]);
    }

    /** `exists?(id)`. */
    function Exists(id: Value): (b: bool)
      reads this, objects
      ensures b <==> id != Nil && exists p :: 0 <= p < |objects| && IdOf(objects[p]) == id
    {
      Find(id).Ok?
    }

    /** `delete_all`. */
    method DeleteAll()
      modifies this`objects
      ensures objects == []
    {
      objects := [];
    }

    /** `new(attributes)`: an unsaved object. */
    method New(h: Hash) returns (o: Record)
      ensures fresh(o) && o.cls == cls && o.attrs == Apply(map[], h, IdField())
    {
      o := new Record(cls, Apply(map[], h, IdField()));
    }

    /** The attributes `save` leaves: an id is generated if there is none. */
    function Saved(a: Attrs): (r: Attrs)
      reads this
      ensures Get(a, IdField()) != Nil ==> r == a
      ensures Get(a, IdField()) == Nil ==> r == a[IdField() := Int(sequence)]
    {
      if Get(a, IdField()) == Nil then a[IdField() := Int(sequence)] else a
    }

    /** In a valid store, saving attributes whose id names no object leaves
        an id that names no object: a given id is kept, and a generated one
        lies above every integer id stored. */
    lemma SavedIdIsNew(a: Attrs)
      requires Valid() && !Exists(Get(a, IdField()))
      ensures !Exists(Get(Saved(a), IdField()))
    {
      if Get(a, IdField()) == Nil {
        assert forall p :: 0 <= p < |objects| ==> IdOf(objects[p]) != Int(sequence);
      }
    }

    /** The sequence after saving an object with attributes `a`: it moves
        past the id the object ends with, generated or given, as an
        auto-increment counter does. */
    function Advanced(a: Attrs): (n: int)
      reads this
      ensures n >= sequence
      ensures Get(Saved(a), IdField()).Int? ==> Get(Saved(a), IdField()).i < n
    {
      var id := Get(a, IdField());
      if id == Nil then sequence + 1
      else if id.Int? && id.i >= sequence then id.i + 1
      else sequence
    }

    /** `save`: an object without an id gets the next generated one; an
        object not yet stored is appended. Saving a stored object, or a new
        one whose id is nil or not taken, keeps the store valid. */
    method Save(o: Record)
      modifies this, o
      ensures o.attrs == old(Saved(o.attrs))
      ensures sequence == old(Advanced(o.attrs))
      ensures objects == if o in old(objects) then old(objects) else old(objects) + [o]
      ensures old(Valid()) && (o in old(objects) || !old(Exists(IdOf(o)))) ==> Valid()
    {
      AssignSequenceId(o);
      if o !in objects {
        AppendObject(o);
      }
    }

    /** The id step of `save`: an object without an id gets the next value
        of the sequence, which moves past the id the object ends with. A
        valid store stays valid, and an object outside it ends with an id
        no stored object has. */
    method AssignSequenceId(o: Record)
      modifies this`sequence, o
      ensures o.attrs == old(Saved(o.attrs))
      ensures sequence == old(Advanced(o.attrs))
      ensures old(Valid()) && o in objects ==> Valid()
      ensures old(Valid()) && o !in objects && !old(Exists(IdOf(o))) ==>
                && Valid() && IdOf(o) != Nil && (IdOf(o).Int? ==> IdOf(o).i < sequence)
                && forall p :: 0 <= p < |objects| ==> IdOf(objects[p]) != IdOf(o)
    {
      var next := Advanced(o.attrs);
      if IdOf(o) == Nil {
        o.attrs := o.attrs[IdField() := Int(sequence)];
      }
      sequence := next;
    }

    /** The append step of `save`. An object whose id is set, new and below
        the sequence keeps the store valid. */
    method AppendObject(o: Record)
      modifies this`objects
      ensures objects == old(objects) + [o]
      ensures old(Valid()) && IdOf(o) != Nil && (IdOf(o).Int? ==> IdOf(o).i < sequence) ==>
                (forall p :: 0 <= p < |old(objects)| ==> IdOf(old(objects)[p]) != IdOf(o)) ==> Valid()
    {
      ghost var s0 := objects;
      objects := objects + [o];
      assert forall p :: 0 <= p < |s0| ==> objects[p] == s0[p];
    }

    /** `create(attributes)`: `new` followed by `save`. */
    method Create(h: Hash) returns (o: Record)
      modifies this
      ensures fresh(o) && o.cls == cls && objects == old(objects) + [o]
      ensures o.attrs == old(Saved(Apply(map[], h, IdField())))
      ensures sequence == old(Advanced(Apply(map[], h, IdField())))
    {
      o := New(h);
      Save(o);
    }

    /** `update_attribute(key, value)` on a store object: the field `key`
        names (`id` names the id field) is set and the object saved. A
        stored object whose id is left alone keeps the store valid. */
    method UpdateAttribute(o: Record, key: string, value: Value)
      modifies this, o
      ensures o.attrs == old(Saved(o.attrs[FieldFor(key, IdField()) := value]))
      ensures sequence == old(Advanced(o.attrs[FieldFor(key, IdField()) := value]))
      ensures objects == if o in old(objects) then old(objects) else old(objects) + [o]
      ensures old(Valid()) && o in old(objects) && FieldFor(key, IdField()) != IdField() ==> Valid()
    {
      ghost var keep := Valid() && o in objects && FieldFor(key, IdField()) != IdField();
      ghost var s0 := objects;
      ghost var ids := seq(|s0|, p requires 0 <= p < |s0| reads this, s0 => IdOf(s0[p]));
      o.attrs := o.attrs[FieldFor(key, IdField()) := value];
      assert keep ==> forall p :: 0 <= p < |s0| ==> IdOf(s0[p]) == ids[p];
      Save(o);
    }
  }
}
