/** A closed model of the JavaScript values that the source's deep comparators walk over:
    the primitives, arrays, plain objects, `Date` and `RegExp`.

    Numbers are integers (no NaN, no fractions), object keys are either array-index keys
    ("0", "1", ...) or other property names, and every array, object, date and regexp is a
    reference of its own: `===` between two of them is taken to be false. The reflexivity
    lemmas of the comparators show that this loses nothing: comparing a reference with
    itself gives `true` along the structural path as well.

    The type admits objects JavaScript cannot build: a key listed twice, or `Name("0")` beside
    `Index(0)`, which JavaScript holds as one key. `WellFormed` picks out the values
    JavaScript can build; the comparator lemmas are stated for every value, so they hold for
    the well-formed ones a fortiori, and on those `Helper.WellFormedObjectsEqual` reads
    `areObjectsEqual` property by property. */
module JsValues {

  /** An own enumerable property key: an array-index key or any other name. */
  datatype Key = Index(i: nat) | Name(name: string)

  datatype Value =
    | Undefined
    | Null
    | Bool(b: bool)
    | Num(n: int)
    | Str(s: string)
    | Arr(elems: seq<Value>)
    | Obj(fields: seq<(Key, Value)>)
    | Date(time: int)
    | RegExp(text: string)

  /** A property name that JavaScript reads as an array index: "0", or digits without a
      leading zero. Such a name is the key `Index`, never `Name`. */
  predicate IsIndexName(s: string) {
    s != [] && (forall c :: c in s ==> '0' <= c <= '9') && (s[0] != '0' || |s| == 1)
  }

  /** The values JavaScript can build: every object lists each key once, index-like names
      only as `Index`, and its field values are well-formed too. */
  predicate WellFormed(v: Value) {
    match v
    case Arr(elems) => forall j :: 0 <= j < |elems| ==> WellFormed(elems[j])
    case Obj(fields) =>
      (forall j, k :: 0 <= j < k < |fields| ==> fields[j].0 != fields[k].0)
      && (forall j :: 0 <= j < |fields| && fields[j].0.Name? ==> !IsIndexName(fields[j].0.name))
      && (forall j :: 0 <= j < |fields| ==> WellFormed(fields[j].1))
    case _ => true
  }

  /** The results of `typeof` that these values can have. */
  datatype TypeTag = UndefinedType | ObjectType | BooleanType | NumberType | StringType

  function TypeOf(v: Value): TypeTag {
    match v
    case Undefined => UndefinedType
    case Bool(_) => BooleanType
    case Num(_) => NumberType
    case Str(_) => StringType
    case _ => ObjectType // null, arrays, objects, dates and regexps
  }

  /** `v == null`: null or undefined. */
  predicate IsNullish(v: Value) {
    v.Undefined? || v.Null?
  }

  /** Values that live behind a reference. */
  predicate IsReference(v: Value) {
    v.Arr? || v.Obj? || v.Date? || v.RegExp?
  }

  /** `a === b`: primitives by value, two references never (see the module comment). */
  predicate StrictEquals(a: Value, b: Value) {
    !IsReference(a) && !IsReference(b) && a == b
  }

  /** `Object.keys(v)`: the index keys of an array, the property keys of an object, and no
      enumerable keys at all for a date or a regexp. */
  function Keys(v: Value): (ks: seq<Key>)
    ensures v.Arr? ==> |ks| == |v.elems|
    ensures v.Arr? ==> forall k :: k in ks <==> k.Index? && k.i < |v.elems|
    ensures v.Obj? ==> |ks| == |v.fields|
    ensures v.Obj? ==> forall j :: 0 <= j < |v.fields| ==> ks[j] == v.fields[j].0
    ensures v.Date? || v.RegExp? ==> ks == []
  {
    match v
    case Arr(e) =>
      var ks := seq(|e|, i requires 0 <= i < |e| => Index(i));
      assert forall k :: k in ks ==> k.Index? && k.i < |e|;
      assert forall k: Key :: k.Index? && k.i < |e| ==> ks[k.i] == k;
      ks
    case Obj(f) => seq(|f|, j requires 0 <= j < |f| => f[j].0)
    case _ => []
  }

  /** The value stored under `k` in `f`: the first field with that key. */
  function Lookup(f: seq<(Key, Value)>, k: Key): (r: Value)
    ensures (exists j :: 0 <= j < |f| && f[j].0 == k) ==> exists j :: 0 <= j < |f| && r == f[j].1
  {
    if f == [] then Undefined
    else if f[0].0 == k then f[0].1
    else
      var r := Lookup(f[1..], k);
      assert forall j :: 1 <= j < |f| ==> f[j] == f[1..][j - 1];
      r
  }

  /** With every key listed once, looking a listed key up finds its own entry. */
  lemma {:induction false} LookupDistinct(f: seq<(Key, Value)>, j: nat)
    requires j < |f|
    requires forall a, b :: 0 <= a < b < |f| ==> f[a].0 != f[b].0
    ensures Lookup(f, f[j].0) == f[j].1
    decreases j
  {
    if j > 0 {
      assert f[0].0 != f[j].0;
      assert f[1..][j - 1] == f[j];
      LookupDistinct(f[1..], j - 1);
    }
  }

  /** In an object JavaScript can build, `v[k]` of an own key is the value listed with it. */
  lemma WellFormedGet(v: Value, j: nat)
    requires v.Obj? && WellFormed(v) && j < |v.fields|
    ensures Get(v, v.fields[j].0) == v.fields[j].1
  {
    LookupDistinct(v.fields, j);
  }

  /** `v[k]`; a key that `Object.keys(v)` lists always selects a part of `v`. */
  function Get(v: Value, k: Key): (r: Value)
    ensures k in Keys(v) ==> r < v
  {
    match v
    case Arr(e) => if k.Index? && k.i < |e| then e[k.i] else Undefined
    case Obj(f) =>
      var r := Lookup(f, k);
      if k in Keys(v) then
        assert exists j :: 0 <= j < |f| && f[j].0 == k;
        var j :| 0 <= j < |f| && r == f[j].1;
        assert f[j] in f;
        r
      else r
    case _ => Undefined
  }

  /** A loop that walks positions `i` to `n`, stops with false at the first position where
      `p` fails and returns true at `n`, returns true exactly when `p` holds at every
      position it walks. `m(j)` is the loop's result from position `j` on. */
  lemma {:induction false} LoopMeaning(m: nat --> bool, p: nat --> bool, i: nat, n: nat)
    requires i <= n
    requires forall j: nat :: j <= n ==> m.requires(j)
    requires forall j: nat :: j < n ==> p.requires(j)
    requires m(n)
    requires forall j: nat :: i <= j < n ==> m(j) == (p(j) && m(j + 1))
    ensures m(i) <==> forall j: nat :: i <= j < n ==> p(j)
    decreases n - i
  {
    if i < n {
      LoopMeaning(m, p, i + 1, n);
    }
  }
}
