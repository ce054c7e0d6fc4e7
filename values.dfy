/** Ruby values as the repository sees them: attribute values, hash keys,
    caller-supplied hashes, stored attribute maps, the string form used as
    an index key, and the errors the core raises. */
module Values {

  /** An attribute value. Timestamps are represented by `Int` ticks. */
  datatype Value = Nil | Bool(b: bool) | Int(i: int) | Str(s: string)

  /** Ruby truthiness: only `nil` and `false` are falsy, which is what `||=` tests. */
  predicate Falsy(v: Value) {
    v == Nil || v == Bool(false)
  }

  /** A key of a hash passed in by a caller: a symbol (`:name`) or a string (`"name"`). */
  datatype Key = Sym(name: string) | Text(name: string)

  /** A hash passed in by a caller, in its iteration order. */
  type Hash = seq<(Key, Value)>

  /** The attributes an object holds, by attribute name. A missing name reads as nil. */
  type Attrs = map<string, Value>

  /** Reading an attribute: a name that was never set reads as nil. */
  function Get(a: Attrs, name: string): (v: Value)
    ensures name !in a ==> v == Nil
    ensures name in a ==> v == a[name]
  {
    if name in a then a[name] else Nil
  }

  /** The errors of this core. `IdError` is ActiveHash's duplicate-id error,
      `RecordNotFound` a failed lookup, `ArgumentError` a call of `where`
      without arguments, `NoMethodError` a method called on nil. */
  datatype Error = IdError | RecordNotFound | ArgumentError | NoMethodError

  datatype Result<T> = Ok(value: T) | Err(error: Error)

  datatype Option<T> = None | Some(value: T)

  /** The decimal digit for `d`. */
  function DigitChar(d: nat): (c: char)
    requires d < 10
    ensures '0' <= c <= '9'
    ensures c as int - '0' as int == d
  {
    (d + '0' as int) as char
  }

  /** The decimal digits of a natural number, most significant first. */
  function Decimal(n: nat): (s: string)
    ensures |s| > 0
    ensures forall i :: 0 <= i < |s| ==> '0' <= s[i] <= '9'
    decreases n
  {
    if n < 10 then [DigitChar(n)] else Decimal(n / 10) + [DigitChar(n % 10)]
  }

  /** `to_s` of a value, the form under which ids are kept in the record index.
      Different values can share a string form (`1` and `"1"`, `nil` and `""`). */
  function IdString(v: Value): (s: string)
    ensures v == Nil ==> s == ""
    ensures v.Str? ==> s == v.s
  {
    match v
    case Nil => ""
    case Bool(b) => if b then "true" else "false"
    case Int(i) => if i < 0 then "-" + Decimal(-i) else Decimal(i)
    case Str(s) => s
  }

  /** A number of two or more digits has a decimal form of two or more characters. */
  lemma DecimalLength(n: nat)
    requires n >= 10
    ensures |Decimal(n)| >= 2
  {
    assert Decimal(n) == Decimal(n / 10) + [DigitChar(n % 10)];
  }

  /** Different natural numbers have different decimal forms. */
  lemma {:induction false} DecimalInjective(n: nat, m: nat)
    requires Decimal(n) == Decimal(m)
    ensures n == m
    decreases n
  {
    if n < 10 && m < 10 {
      assert Decimal(n)[0] == DigitChar(n) && Decimal(m)[0] == DigitChar(m);
    } else if n < 10 {
      DecimalLength(m);
    } else if m < 10 {
      DecimalLength(n);
    } else {
      var dn, dm := Decimal(n), Decimal(m);
      assert dn == Decimal(n / 10) + [DigitChar(n % 10)];
      assert dm == Decimal(m / 10) + [DigitChar(m % 10)];
      assert DigitChar(n % 10) == dn[|dn| - 1] == dm[|dm| - 1] == DigitChar(m % 10);
      assert Decimal(n / 10) == dn[..|dn| - 1] == dm[..|dm| - 1] == Decimal(m / 10);
      DecimalInjective(n / 10, m / 10);
    }
  }

  /** Integer ids never collide in the index: two different integers have
      different string forms (an integer can still collide with a string,
      `1` with `"1"`). */
  lemma IdStringIntInjective(i: int, j: int)
    requires IdString(Int(i)) == IdString(Int(j))
    ensures i == j
  {
    var s := IdString(Int(i));
    assert s[0] == '-' <==> i < 0;
    assert s[0] == '-' <==> j < 0;
    if i < 0 {
      assert s == "-" + Decimal(-i) == "-" + Decimal(-j);
      assert s[1..] == Decimal(-i) == Decimal(-j);
      DecimalInjective(-i, -j);
    } else {
      DecimalInjective(i, j);
    }
  }

  /** Values of different kinds can share an index key. */
  lemma IdStringConflates()
    ensures IdString(Int(1)) == IdString(Str("1"))
    ensures IdString(Nil) == IdString(Str(""))
  {
    assert Decimal(1) == [DigitChar(1)];
  }
}
