/** Model instances: objects holding an attribute map, and the two ways
    their attributes change outside the record table: mass assignment
    (`attributes=`, with the `_id` to `id` rename) and the timestamp callback
    (`set_timestamps`) that runs before every validation. */
module Records {
  import opened Values

  /** An instance of a model class. Its identity is the object itself: two
      references are the same object exactly when their `to_s` agree. */
  class Record {
    /** The name of the instance's class (`instance_of?` compares it). */
    const cls: string
    var attrs: Attrs

    constructor (cls: string, attrs: Attrs)
      ensures this.cls == cls && this.attrs == attrs
    {
      this.cls := cls;
      this.attrs := attrs;
    }

    function Id(): Value
      reads this
    {
      Get(attrs, "id")
    }

    function CreatedAt(): Value
      reads this
    {
      Get(attrs, "created_at")
    }
  }

  /** The setter a hash key is sent to: `_id=` becomes `id=`, every other key
      keeps its name (symbol and string keys alike). */
  function SetterName(k: Key): (n: string)
    ensures k.name == "_id" ==> n == "id"
    ensures k.name != "_id" ==> n == k.name
  {
    if k.name == "_id" then "id" else k.name
  }

  /** The attributes after sending every pair of `h`, in order, to its setter. */
  function AssignHash(a: Attrs, h: Hash): (r: Attrs)
    ensures forall n :: n in a ==> n in r
    ensures forall i :: 0 <= i < |h| ==> SetterName(h[i].0) in r
    decreases |h|
  {
    if h == [] then a
    else
      var init := h[..|h| - 1];
      assert forall i :: 0 <= i < |init| ==> init[i] == h[i];
      AssignHash(a, init)[SetterName(h[|h| - 1].0) := h[|h| - 1].1]
  }

  /** Mass assignment sets exactly the attributes named by the setters of `h`
      and no others; in particular it never creates an `_id` attribute. */
  lemma {:induction false} AssignHashKeys(a: Attrs, h: Hash)
    ensures AssignHash(a, h).Keys == a.Keys + set i | 0 <= i < |h| :: SetterName(h[i].0)
    ensures "_id" !in a ==> "_id" !in AssignHash(a, h)
    decreases |h|
  {
    if h != [] {
      var init := h[..|h| - 1];
      AssignHashKeys(a, init);
      var s := set i | 0 <= i < |h| :: SetterName(h[i].0);
      var t := set i | 0 <= i < |init| :: SetterName(init[i].0);
      assert s == t + {SetterName(h[|h| - 1].0)} by {
        forall n | n in s ensures n in t + {SetterName(h[|h| - 1].0)} {
          var i :| 0 <= i < |h| && SetterName(h[i].0) == n;
          if i < |h| - 1 { assert init[i] == h[i]; }
        }
        forall n | n in t ensures n in s {
          var i :| 0 <= i < |init| && SetterName(init[i].0) == n;
          assert h[i] == init[i];
        }
      }
    }
  }

  /** Position `i` of `h` is the last pair whose setter targets `name`. */
  predicate LastFor(h: Hash, i: int, name: string) {
    && 0 <= i < |h|
    && SetterName(h[i].0) == name
    && forall j :: i < j < |h| ==> SetterName(h[j].0) != name
  }

  /** No pair of `h` targets `name`. */
  predicate Untouched(h: Hash, name: string) {
    forall i :: 0 <= i < |h| ==> SetterName(h[i].0) != name
  }

  /** An attribute no pair targets keeps its old value. */
  lemma {:induction false} AssignHashUntouched(a: Attrs, h: Hash, name: string)
    requires Untouched(h, name)
    ensures Get(AssignHash(a, h), name) == Get(a, name)
    decreases |h|
  {
    if h != [] {
      var init := h[..|h| - 1];
      assert Untouched(init, name) by {
        forall i | 0 <= i < |init| ensures SetterName(init[i].0) != name {
          assert init[i] == h[i];
        }
      }
      AssignHashUntouched(a, init, name);
    }
  }

  /** An attribute targeted last by pair `i` ends with that pair's value. */
  lemma {:induction false} AssignHashLast(a: Attrs, h: Hash, i: int, name: string)
    requires LastFor(h, i, name)
    ensures Get(AssignHash(a, h), name) == h[i].1
    decreases |h|
  {
    var last := |h| - 1;
    if i < last {
      var init := h[..last];
      assert SetterName(h[last].0) != name;
      assert init[i] == h[i];
      assert LastFor(init, i, name) by {
        forall j | i < j < |init| ensures SetterName(init[j].0) != name {
          assert init[j] == h[j];
        }
      }
      AssignHashLast(a, init, i, name);
    }
  }

  /** The value an attribute ends with after mass assignment: that of the LAST
      pair of `h` whose setter targets it, or its old value if none does. */
  lemma AssignHashLastWins(a: Attrs, h: Hash, name: string)
    ensures Untouched(h, name) ==> Get(AssignHash(a, h), name) == Get(a, name)
    ensures forall i :: LastFor(h, i, name) ==> Get(AssignHash(a, h), name) == h[i].1
  {
    if Untouched(h, name) {
      AssignHashUntouched(a, h, name);
    }
    forall i | LastFor(h, i, name) ensures Get(AssignHash(a, h), name) == h[i].1 {
      AssignHashLast(a, h, i, name);
    }
  }

  /** `attributes = m` where `m` is another object's attribute map: every name
      is assigned as it is, except that `_id` is assigned to `id`. */
  function AssignAttrs(a: Attrs, m: Attrs): (r: Attrs)
    ensures forall n :: n in m && n != "_id" && !(n == "id" && "_id" in m) ==> Get(r, n) == m[n]
    ensures "_id" in m ==> Get(r, "id") == m["_id"]
    ensures forall n :: n !in m && !(n == "id" && "_id" in m) ==> Get(r, n) == Get(a, n)
    ensures Get(r, "_id") == Get(a, "_id")
  {
    a + (map n | n in m && n != "_id" :: m[n])
      + (if "_id" in m then map["id" := m["_id"]] else map[])
  }

  /** `h` lists the pairs of `m`, each name once, in some order. */
  ghost predicate Enumerates(h: Hash, m: Attrs) {
    && (forall i :: 0 <= i < |h| ==> h[i].0.name in m && h[i].1 == m[h[i].0.name])
    && (forall n :: n in m ==> exists i :: 0 <= i < |h| && h[i].0.name == n)
    && (forall i, j :: 0 <= i < j < |h| ==> h[i].0.name != h[j].0.name)
  }

  /** Mass assignment leaves `n` set exactly when it was set before or some
      pair of `h` targets it. */
  lemma {:induction false} AssignHashHas(a: Attrs, h: Hash, n: string)
    ensures n in AssignHash(a, h) <==> n in a || !Untouched(h, n)
    decreases |h|
  {
    if h != [] {
      var init := h[..|h| - 1];
      AssignHashHas(a, init, n);
      assert forall i :: 0 <= i < |init| ==> init[i] == h[i];
    }
  }

  /** One name at a time: under an enumeration, mass assignment and
      `AssignAttrs` agree on whether `n` is set and on its value. */
  lemma AssignAttrsAgreesAt(a: Attrs, h: Hash, m: Attrs, n: string)
    requires Enumerates(h, m)
    requires !("id" in m && "_id" in m)
    ensures Get(AssignHash(a, h), n) == Get(AssignAttrs(a, m), n)
    ensures n in AssignHash(a, h) <==> n in AssignAttrs(a, m)
  {
    AssignHashHas(a, h, n);
    AssignHashLastWins(a, h, n);
    if i :| 0 <= i < |h| && SetterName(h[i].0) == n {
      TargetedName(h, m, i, n);
    } else {
      UntargetedName(h, m, n);
    }
  }

  /** The pair targeting `n` is the only one, and it carries `m`'s value for `n`. */
  lemma TargetedName(h: Hash, m: Attrs, i: int, n: string)
    requires Enumerates(h, m)
    requires !("id" in m && "_id" in m)
    requires 0 <= i < |h| && SetterName(h[i].0) == n
    ensures LastFor(h, i, n)
    ensures n in AssignAttrs(map[], m) && AssignAttrs(map[], m)[n] == h[i].1
    ensures forall a: Attrs :: n in AssignAttrs(a, m) && AssignAttrs(a, m)[n] == h[i].1
  {
    forall j | i < j < |h| ensures SetterName(h[j].0) != n {
      assert h[i].0.name != h[j].0.name;
    }
    assert h[i].0.name in m;
  }

  /** Every name `AssignAttrs` sets from `m` is the target of some pair. */
  lemma NamesAreTargeted(h: Hash, m: Attrs)
    requires Enumerates(h, m)
    ensures forall n :: n in m && n != "_id" ==> exists i :: 0 <= i < |h| && SetterName(h[i].0) == n
    ensures "_id" in m ==> exists i :: 0 <= i < |h| && SetterName(h[i].0) == "id"
  {
    forall n | n in m && n != "_id" ensures exists i :: 0 <= i < |h| && SetterName(h[i].0) == n {
      var i :| 0 <= i < |h| && h[i].0.name == n;
      assert SetterName(h[i].0) == n;
    }
    if "_id" in m {
      var i :| 0 <= i < |h| && h[i].0.name == "_id";
      assert SetterName(h[i].0) == "id";
    }
  }

  /** A name no pair targets is one `AssignAttrs` does not set either. */
  lemma UntargetedName(h: Hash, m: Attrs, n: string)
    requires Enumerates(h, m)
    requires !(exists i :: 0 <= i < |h| && SetterName(h[i].0) == n)
    ensures Untouched(h, n)
    ensures !(n in m && n != "_id") && !(n == "id" && "_id" in m)
  {
    NamesAreTargeted(h, m);
  }

  /** Assigning another object's attributes does not depend on their order:
      whatever order the hash iterates in, the loop of `attributes=` ends in
      `AssignAttrs` (as long as the map does not hold both `id` and `_id`,
      the one case in which the order decides). */
  lemma AssignAttrsAgrees(a: Attrs, h: Hash, m: Attrs)
    requires Enumerates(h, m)
    requires !("id" in m && "_id" in m)
    ensures AssignHash(a, h) == AssignAttrs(a, m)
  {
    var r, s := AssignHash(a, h), AssignAttrs(a, m);
    forall n ensures (n in r <==> n in s) && (n in r ==> r[n] == s[n]) {
      AssignAttrsAgreesAt(a, h, m, n);
    }
  }

  /** Assigning the same attribute map twice is assigning it once, and an
      object assigned its own attributes (what `reload` does to a stored
      record found under its own id) is unchanged, as long as the map holds
      no `_id`. */
  lemma AssignAttrsIdempotent(a: Attrs, m: Attrs)
    requires "_id" !in m
    ensures AssignAttrs(AssignAttrs(a, m), m) == AssignAttrs(a, m)
    ensures AssignAttrs(m, m) == m
  {
  }

  /** Serializing a serialized copy again gives the same attributes: a copy
      never holds `_id`, since `attributes=` sends it to `id`. */
  lemma SerializeTwice(m: Attrs)
    ensures "_id" !in AssignAttrs(map[], m)
    ensures AssignAttrs(map[], AssignAttrs(map[], m)) == AssignAttrs(map[], m)
  {
    var k := AssignAttrs(map[], m);
    assert Get(k, "_id") == Nil;
  }

  /** `attributes=`: sends every pair of the hash to its setter, in order,
      renaming the key `_id` to `id`. */
  method AssignAttributes(rec: Record, h: Hash)
    modifies rec
    ensures rec.attrs == AssignHash(old(rec.attrs), h)
  {
    var i := 0;
    while i < |h|
      invariant 0 <= i <= |h|
      invariant rec.attrs == AssignHash(old(rec.attrs), h[..i])
    {
      var (k, v) := h[i];
      assert h[..i + 1][..i] == h[..i];
      rec.attrs := rec.attrs[SetterName(k) := v];
      i := i + 1;
    }
    assert h[..|h|] == h;
  }

  /** The attributes after `set_timestamps` at time `now`, for a class whose
      declared fields are `fields`. */
  function Stamped(a: Attrs, fields: set<string>, now: Value): (r: Attrs)
    ensures "created_at" in fields && Get(a, "created_at") == Nil ==> Get(r, "created_at") == now
    ensures !("created_at" in fields && Get(a, "created_at") == Nil) ==>
              Get(r, "created_at") == Get(a, "created_at")
    ensures "updated_at" in fields ==> Get(r, "updated_at") == now
    ensures "updated_at" !in fields ==> Get(r, "updated_at") == Get(a, "updated_at")
    ensures forall n :: n != "created_at" && n != "updated_at" ==> Get(r, n) == Get(a, n)
  {
    var c := if "created_at" in fields && Get(a, "created_at") == Nil then a["created_at" := now] else a;
    if "updated_at" in fields then c["updated_at" := now] else c
  }

  /** `set_timestamps`: fills `created_at` once and refreshes `updated_at`,
      each only if the class declares that field. */
  method SetTimestamps(rec: Record, fields: set<string>, now: Value)
    modifies rec
    ensures rec.attrs == Stamped(old(rec.attrs), fields, now)
  {
    if "created_at" in fields && rec.CreatedAt() == Nil {
      rec.attrs := rec.attrs["created_at" := now];
    }
    if "updated_at" in fields {
      rec.attrs := rec.attrs["updated_at" := now];
    }
  }

  /** `valid?` of a model instance: the before-validation callback stamps the
      record, then the class's validations judge the stamped attributes. */
  method Validate(rec: Record, fields: set<string>, validations: Attrs -> bool, now: Value)
    returns (ok: bool)
    modifies rec
    ensures rec.attrs == Stamped(old(rec.attrs), fields, now)
    ensures ok == validations(rec.attrs)
    ensures rec.Id() == old(rec.Id())
  {
    SetTimestamps(rec, fields, now);
    ok := validations(rec.attrs);
  }
}
