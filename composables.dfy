/** The two comparators of app/components/pass/group/composables.ts: the structural
    `deepEqual`, which unlike `areObjectsEqual` keeps `null` and `""` apart, and
    `areItemsEqual`, whose array branch only compares lengths. */
module GroupComposables {
  import opened JsValues
  import Helper

  /** `deepEqual(a, b)`. A regexp is represented by its `toString()` text. */
  function DeepEqual(a: Value, b: Value): (r: bool)
    ensures StrictEquals(a, b) ==> r
    ensures r ==> TypeOf(a) == TypeOf(b) && (a.Arr? <==> b.Arr?)
    decreases a, 1, 0
  {
    if StrictEquals(a, b) then true
    else if IsNullish(a) || IsNullish(b) then StrictEquals(a, b)
    else if TypeOf(a) != TypeOf(b) then false
    else if TypeOf(a) != ObjectType then StrictEquals(a, b)
    else if a.Arr? != b.Arr? then false
    else if a.Arr? then
      if |a.elems| != |b.elems| then false else ElementsMatch(a, b, 0)
    else if a.Date? && b.Date? then a.time == b.time
    else if a.RegExp? && b.RegExp? then a.text == b.text
    else if |Keys(a)| != |Keys(b)| then false
    else KeysMatch(a, b, 0)
  }

  /** The index loop over two arrays of equal length, from `i` on. */
  function ElementsMatch(a: Value, b: Value, i: nat): bool
    requires a.Arr? && b.Arr? && |a.elems| == |b.elems| && i <= |a.elems|
    decreases a, 0, |a.elems| - i
  {
    if i == |a.elems| then true
    else if !DeepEqual(a.elems[i], b.elems[i]) then false
    else ElementsMatch(a, b, i + 1)
  }

  /** The key loop over `Object.keys(a)`, from position `i` on. */
  function KeysMatch(a: Value, b: Value, i: nat): bool
    requires i <= |Keys(a)|
    decreases a, 0, |Keys(a)| - i
  {
    if i == |Keys(a)| then true
    else
      var key := Keys(a)[i];
      if key !in Keys(b) then false
      else if !DeepEqual(Get(a, key), Get(b, key)) then false
      else KeysMatch(a, b, i + 1)
  }

  lemma {:induction false} ElementsMatchMeaning(a: Value, b: Value, i: nat)
    requires a.Arr? && b.Arr? && |a.elems| == |b.elems| && i <= |a.elems|
    ensures ElementsMatch(a, b, i) <==>
      forall j :: i <= j < |a.elems| ==> DeepEqual(a.elems[j], b.elems[j])
    decreases |a.elems| - i
  {
    if i < |a.elems| {
      ElementsMatchMeaning(a, b, i + 1);
    }
  }

  /** Key `j` of `a` is a key of `b` with a `deepEqual` value. */
  predicate KeyAgrees(a: Value, b: Value, j: nat)
    requires j < |Keys(a)|
  {
    Keys(a)[j] in Keys(b) && DeepEqual(Get(a, Keys(a)[j]), Get(b, Keys(a)[j]))
  }

  lemma KeysMatchMeaning(a: Value, b: Value, i: nat)
    requires i <= |Keys(a)|
    ensures KeysMatch(a, b, i) <==> forall j :: i <= j < |Keys(a)| ==> KeyAgrees(a, b, j)
  {
    var n := |Keys(a)|;
    forall j | i <= j < n
      ensures KeysMatch(a, b, j) == (KeyAgrees(a, b, j) && KeysMatch(a, b, j + 1))
    {
    }
    var p := (j: nat) requires j < n => KeyAgrees(a, b, j);
    LoopMeaning((j: nat) requires j <= n => KeysMatch(a, b, j), p, i, n);
    if KeysMatch(a, b, i) {
      forall j | i <= j < n
        ensures KeyAgrees(a, b, j)
      {
        assert p(j);
      }
    } else {
      var j: nat :| i <= j < n && !p(j);
      assert !KeyAgrees(a, b, j);
    }
  }

  /** Two arrays are equal iff they have the same length and are equal element by element;
      an array never equals a value that is not an array. */
  lemma ArraysEqualIff(x: seq<Value>, y: seq<Value>, other: Value)
    requires !other.Arr?
    ensures DeepEqual(Arr(x), Arr(y)) <==>
      |x| == |y| && forall i :: 0 <= i < |x| ==> DeepEqual(x[i], y[i])
    ensures !DeepEqual(Arr(x), other) && !DeepEqual(other, Arr(x))
  {
    if |x| == |y| {
      ElementsMatchMeaning(Arr(x), Arr(y), 0);
    }
  }

  /** Plain objects are equal iff they have as many keys and every key of the first is a key of
      the second with a `deepEqual` value. */
  lemma ObjectsEqualIff(a: Value, b: Value)
    requires a.Obj? && b.Obj?
    ensures DeepEqual(a, b) <==>
      |Keys(a)| == |Keys(b)| &&
      forall k :: k in Keys(a) ==> k in Keys(b) && DeepEqual(Get(a, k), Get(b, k))
  {
    KeysMatchMeaning(a, b, 0);
    if KeysMatch(a, b, 0) {
      forall k | k in Keys(a)
        ensures k in Keys(b) && DeepEqual(Get(a, k), Get(b, k))
      {
        var j :| 0 <= j < |Keys(a)| && Keys(a)[j] == k;
        assert KeyAgrees(a, b, j);
      }
    } else {
      var j :| 0 <= j < |Keys(a)| && !KeyAgrees(a, b, j);
      assert Keys(a)[j] in Keys(a);
    }
  }

  /** Dates compare by timestamp and regexps by their text. */
  lemma DatesAndRegExps(t1: int, t2: int, r1: string, r2: string)
    ensures DeepEqual(Date(t1), Date(t2)) <==> t1 == t2
    ensures DeepEqual(RegExp(r1), RegExp(r2)) <==> r1 == r2
  {
  }

  /** A date and a regexp both fall through to the key comparison, where neither has a key:
      so any date equals any regexp, and both equal `{}`. */
  lemma DateEqualsRegExp(t: int, r: string)
    ensures DeepEqual(Date(t), RegExp(r)) && DeepEqual(RegExp(r), Date(t))
    ensures DeepEqual(Date(t), Obj([]))
  {
  }

  /** `deepEqual(a, a)` holds for every value. */
  lemma {:induction false} DeepEqualReflexive(a: Value)
    ensures DeepEqual(a, a)
    decreases a
  {
    match a
    case Arr(x) =>
      forall i | 0 <= i < |x| ensures DeepEqual(x[i], x[i]) {
        DeepEqualReflexive(x[i]);
      }
      ArraysEqualIff(x, x, Null);
    case Obj(_) =>
      forall k | k in Keys(a) ensures DeepEqual(Get(a, k), Get(a, k)) {
        DeepEqualReflexive(Get(a, k));
      }
      ObjectsEqualIff(a, a);
    case _ =>
  }

  /** Against `null` or `undefined` only the identical value is equal, so `null` differs
      from `""` (where `areObjectsEqual` says equal) and from `undefined`. */
  lemma NullishEqualOnlyIfIdentical(a: Value, b: Value)
    requires IsNullish(a) || IsNullish(b)
    ensures DeepEqual(a, b) <==> a == b
    ensures !DeepEqual(Null, Str("")) && Helper.AreObjectsEqual(Null, Str(""))
    ensures !DeepEqual(Null, Undefined)
  {
  }

  /** Values of different `typeof` differ, and primitives are equal only when `===`. */
  lemma TypesAndPrimitives(a: Value, b: Value)
    ensures TypeOf(a) != TypeOf(b) ==> !DeepEqual(a, b)
    ensures !IsReference(a) ==> (DeepEqual(a, b) <==> a == b)
  {
  }

  /** `areItemsEqual(a, b)`: identical values, then two arrays (equal lengths are enough,
      otherwise `groupA.some(...)` compares each element of `a` with itself), then
      `areObjectsEqual`. */
  function AreItemsEqual(a: Value, b: Value): (r: bool)
    ensures StrictEquals(a, b) || Helper.AreObjectsEqual(a, b) ==> r
  {
    if StrictEquals(a, b) then true
    else if a.Arr? && b.Arr? then
      if |a.elems| == |b.elems| then true
      else exists i :: 0 <= i < |a.elems| && Helper.AreObjectsEqual(a.elems[i], a.elems[i])
    else Helper.AreObjectsEqual(a, b)
  }

  /** On two arrays `areItemsEqual` ignores the contents: it holds exactly when the lengths
      agree or the first array is non-empty; so `[1]` "equals" `[2]` and `[1]` equals `[]`. */
  lemma ItemsEqualOnArrays(x: seq<Value>, y: seq<Value>)
    ensures AreItemsEqual(Arr(x), Arr(y)) <==> |x| == |y| || |x| > 0
    ensures AreItemsEqual(Arr([Num(1)]), Arr([Num(2)])) && AreItemsEqual(Arr([Num(1)]), Arr([]))
    ensures !AreItemsEqual(Arr([]), Arr([Num(1)]))
  {
    if |x| != |y| && |x| > 0 {
      Helper.ObjectsEqualReflexive(x[0]);
    }
    var one := Arr([Num(1)]);
    assert Helper.AreObjectsEqual(one.elems[0], one.elems[0]);
  }

  /** Outside two arrays, `areItemsEqual` is `areObjectsEqual`. */
  lemma ItemsEqualElsewhere(a: Value, b: Value)
    requires !(a.Arr? && b.Arr?)
    ensures AreItemsEqual(a, b) <==> Helper.AreObjectsEqual(a, b)
  {
  }

  /** The comparison the array branch of `areItemsEqual` evidently means: arrays of the
      same length whose elements are pairwise `areObjectsEqual`; the other branches are
      those of `areItemsEqual`. */
  function ItemsEqualElementwise(a: Value, b: Value): (r: bool)
    ensures r && a.Arr? && b.Arr? ==> |a.elems| == |b.elems|
  {
    if StrictEquals(a, b) then true
    else if a.Arr? && b.Arr? then
      |a.elems| == |b.elems|
      && forall i :: 0 <= i < |a.elems| ==> Helper.AreObjectsEqual(a.elems[i], b.elems[i])
    else Helper.AreObjectsEqual(a, b)
  }

  /** Every value is equal to itself under the elementwise comparison; arrays of different
      lengths and `[1]`, `[2]` are told apart. */
  lemma ElementwiseSeparates(a: Value, x: seq<Value>, y: seq<Value>)
    ensures ItemsEqualElementwise(a, a)
    ensures |x| != |y| ==> !ItemsEqualElementwise(Arr(x), Arr(y))
    ensures !ItemsEqualElementwise(Arr([Num(1)]), Arr([Num(2)]))
  {
    Helper.ObjectsEqualReflexive(a);
    if a.Arr? {
      forall i | 0 <= i < |a.elems|
        ensures Helper.AreObjectsEqual(a.elems[i], a.elems[i])
      {
        Helper.ObjectsEqualReflexive(a.elems[i]);
      }
    }
    var one, two := Arr([Num(1)]), Arr([Num(2)]);
    Helper.NonObjectsEqualOnlyIfStrict(one.elems[0], two.elems[0]);
  }

  /** The elementwise comparison only ever accepts what `areItemsEqual` accepts. */
  lemma ElementwiseImpliesItemsEqual(a: Value, b: Value)
    ensures ItemsEqualElementwise(a, b) ==> AreItemsEqual(a, b)
  {
  }
}
