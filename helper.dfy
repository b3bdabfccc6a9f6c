/** The pure utilities of app/utils/helper.ts: the type guard `isObject`, the deep comparison
    `areObjectsEqual` (which treats `null` and `""` as equal), the hex codec
    `stringToHex` / `hexToString`, and the input normalisation of `getContrastingTextColor`. */
module Helper {
  import opened Wrappers
  import opened JsValues
  import opened Hex

  // ---------------------------------------------------------------------------
  // isObject and areObjectsEqual
  // ---------------------------------------------------------------------------

  /** `isObject(v)`: `typeof v === "object" && v !== null`. */
  predicate IsObject(v: Value): (r: bool)
    ensures r <==> IsReference(v)
  {
    TypeOf(v) == ObjectType && !v.Null?
  }

  /** The special rule of `areObjectsEqual`: `null` against `""`, in either order. */
  predicate NullAndEmptyString(a: Value, b: Value) {
    (a.Null? && b == Str("")) || (a == Str("") && b.Null?)
  }

  /** `areObjectsEqual(a, b)`. */
  function AreObjectsEqual(a: Value, b: Value): (r: bool)
    ensures StrictEquals(a, b) || NullAndEmptyString(a, b) ==> r
    decreases a, 1, 0
  {
    if StrictEquals(a, b) then true
    else if NullAndEmptyString(a, b) then true
    else if !IsObject(a) || !IsObject(b) then false
    else if |Keys(a)| != |Keys(b)| then false
    else KeysMatch(a, b, 0)
  }

  /** The loop over `Object.keys(a)` from position `i` on, with its two early returns. */
  function KeysMatch(a: Value, b: Value, i: nat): bool
    requires i <= |Keys(a)|
    decreases a, 0, |Keys(a)| - i
  {
    if i == |Keys(a)| then true
    else
      var key := Keys(a)[i];
      if key !in Keys(b) then false
      else if !AreObjectsEqual(Get(a, key), Get(b, key)) then false
      else KeysMatch(a, b, i + 1)
  }

  /** Key `j` of `a` is a key of `b` with an equal value. */
  predicate KeyAgrees(a: Value, b: Value, j: nat)
    requires j < |Keys(a)|
  {
    Keys(a)[j] in Keys(b) && AreObjectsEqual(Get(a, Keys(a)[j]), Get(b, Keys(a)[j]))
  }

  /** The key loop accepts exactly when every remaining key of `a` is a key of `b` with an
      equal value. */
  lemma KeysMatchMeaning(a: Value, b: Value, i: nat)
    requires i <= |Keys(a)|
    ensures KeysMatch(a, b, i) <==> forall j :: i <= j < |Keys(a)| ==> KeyAgrees(a, b, j)
  {
    var n := |Keys(a)|;
    forall j | i <= j < n
      ensures KeysMatch(a, b, j) == (KeyAgrees(a, b, j) && KeysMatch(a, b, j + 1))
    {
    }
    var p := (j: nat) requires j < n => KeyAgrees(a, b, j);
    LoopMeaning((j: nat) requires j <= n => KeysMatch(a, b, j), p, i, n);
    if KeysMatch(a, b, i) {
      forall j | i <= j < n
        ensures KeyAgrees(a, b, j)
      {
        assert p(j);
      }
    } else {
      var j: nat :| i <= j < n && !p(j);
      assert !KeyAgrees(a, b, j);
    }
  }

  /** Two objects (arrays, dates and regexps included) are equal iff they have as many keys
      and every key of the first is a key of the second with a recursively equal value. */
  lemma ObjectsEqualIff(a: Value, b: Value)
    requires IsObject(a) && IsObject(b)
    ensures AreObjectsEqual(a, b) <==>
      |Keys(a)| == |Keys(b)| &&
      forall k :: k in Keys(a) ==> k in Keys(b) && AreObjectsEqual(Get(a, k), Get(b, k))
  {
    KeysMatchMeaning(a, b, 0);
    if KeysMatch(a, b, 0) {
      forall k | k in Keys(a)
        ensures k in Keys(b) && AreObjectsEqual(Get(a, k), Get(b, k))
      {
        var j :| 0 <= j < |Keys(a)| && Keys(a)[j] == k;
        assert KeyAgrees(a, b, j);
      }
    } else {
      var j :| 0 <= j < |Keys(a)| && !KeyAgrees(a, b, j);
      assert Keys(a)[j] in Keys(a);
    }
  }

  /** Property `j` of `a` has a same-named property in `b` holding an equal value. */
  predicate FieldMatched(a: Value, b: Value, j: nat)
    requires a.Obj? && b.Obj? && j < |a.fields|
  {
    exists i :: 0 <= i < |b.fields| && b.fields[i].0 == a.fields[j].0
      && AreObjectsEqual(a.fields[j].1, b.fields[i].1)
  }

  /** For objects JavaScript can build, read property by property: equal exactly when they
      have as many properties and each property of `a` has a same-named one in `b` holding
      an equal value. */
  lemma WellFormedObjectsEqual(a: Value, b: Value)
    requires a.Obj? && b.Obj? && WellFormed(a) && WellFormed(b)
    ensures AreObjectsEqual(a, b) <==>
      |a.fields| == |b.fields| && forall j :: 0 <= j < |a.fields| ==> FieldMatched(a, b, j)
  {
    ObjectsEqualIff(a, b);
    var P := forall k :: k in Keys(a) ==> k in Keys(b) && AreObjectsEqual(Get(a, k), Get(b, k));
    if P {
      forall j | 0 <= j < |a.fields| ensures FieldMatched(a, b, j) {
        assert Keys(a)[j] in Keys(a);
        FieldMatchedIff(a, b, j);
      }
    } else {
      var k :| k in Keys(a) && !(k in Keys(b) && AreObjectsEqual(Get(a, k), Get(b, k)));
      var j :| 0 <= j < |Keys(a)| && Keys(a)[j] == k;
      FieldMatchedIff(a, b, j);
    }
  }

  /** One property: matched in `b` exactly when its key is a key of `b` and the two reads
      are equal. */
  lemma FieldMatchedIff(a: Value, b: Value, j: nat)
    requires a.Obj? && b.Obj? && WellFormed(a) && WellFormed(b) && j < |a.fields|
    ensures FieldMatched(a, b, j) <==>
      Keys(a)[j] in Keys(b) && AreObjectsEqual(Get(a, Keys(a)[j]), Get(b, Keys(a)[j]))
  {
    var k := a.fields[j].0;
    assert Keys(a)[j] == k;
    WellFormedGet(a, j);
    if FieldMatched(a, b, j) {
      var i :| 0 <= i < |b.fields| && b.fields[i].0 == k && AreObjectsEqual(a.fields[j].1, b.fields[i].1);
      assert Keys(b)[i] == k;
      WellFormedGet(b, i);
    }
    if k in Keys(b) && AreObjectsEqual(Get(a, k), Get(b, k)) {
      var i :| 0 <= i < |Keys(b)| && Keys(b)[i] == k;
      WellFormedGet(b, i);
    }
  }

  /** `areObjectsEqual(a, a)` holds for every value. */
  lemma {:induction false} ObjectsEqualReflexive(a: Value)
    ensures AreObjectsEqual(a, a)
    decreases a
  {
    if IsObject(a) {
      forall k | k in Keys(a)
        ensures AreObjectsEqual(Get(a, k), Get(a, k))
      {
        ObjectsEqualReflexive(Get(a, k));
      }
      ObjectsEqualIff(a, a);
    }
  }

  /** `null` and `""` are equal in either order, also as values of the same key: so
      `{a: null}` equals `{a: ""}`. */
  lemma NullEqualsEmptyString(key: Key)
    ensures AreObjectsEqual(Null, Str("")) && AreObjectsEqual(Str(""), Null)
    ensures AreObjectsEqual(Obj([(key, Null)]), Obj([(key, Str(""))]))
  {
    var a, b := Obj([(key, Null)]), Obj([(key, Str(""))]);
    assert Keys(a) == [key] && Keys(b) == [key];
    ObjectsEqualIff(a, b);
  }

  /** Outside that rule, a pair that is not two objects is equal only if it is `===`:
      `undefined` differs from `null`, `1` from `"1"`. */
  lemma NonObjectsEqualOnlyIfStrict(a: Value, b: Value)
    requires !IsObject(a) || !IsObject(b)
    requires !NullAndEmptyString(a, b)
    ensures AreObjectsEqual(a, b) <==> StrictEquals(a, b)
    ensures !AreObjectsEqual(Undefined, Null) && !AreObjectsEqual(Num(1), Str("1"))
  {
  }

  /** Arrays are compared through their index keys: arrays of different lengths differ,
      so `[1, 2]` is not equal to `[1, 2, 3]`. */
  lemma ArraysOfDifferentLengthDiffer(e1: seq<Value>, e2: seq<Value>)
    requires |e1| != |e2|
    ensures !AreObjectsEqual(Arr(e1), Arr(e2))
    ensures !AreObjectsEqual(Arr([Num(1), Num(2)]), Arr([Num(1), Num(2), Num(3)]))
  {
    assert |Keys(Arr([Num(1), Num(2)]))| == 2;
  }

  /** Because only keys are compared, an array equals the object that has the same index
      keys and values: `[x]` equals `{0: x}`. */
  lemma ArrayEqualsIndexedObject(x: Value)
    ensures AreObjectsEqual(Arr([x]), Obj([(Index(0), x)]))
  {
    var a, b := Arr([x]), Obj([(Index(0), x)]);
    assert Keys(a) == [Index(0)] && Keys(b) == [Index(0)];
    ObjectsEqualReflexive(x);
    ObjectsEqualIff(a, b);
  }

  /** Dates and regexps have no enumerable keys, so any two of them are equal here. */
  lemma DatesAndRegExpsAllEqual(t1: int, t2: int, r: string)
    ensures AreObjectsEqual(Date(t1), Date(t2))
    ensures AreObjectsEqual(Date(t1), RegExp(r))
    ensures AreObjectsEqual(Date(t1), Obj([]))
  {
  }

  // ---------------------------------------------------------------------------
  // stringToHex and hexToString
  // ---------------------------------------------------------------------------

  /** `stringToHex(s)`: every character code printed in base 16 and padded to two digits. */
  function StringToHex(s: string): (h: string)
    ensures |h| >= 2 * |s|
  {
    if s == [] then "" else ByteToHex(s[0] as int) + StringToHex(s[1..])
  }

  /** The characters the regular-expression `.` does not match. */
  predicate IsLineTerminator(c: char) {
    c == '\n' || c == '\r' || c == '\U{2028}' || c == '\U{2029}'
  }

  /** What `parseInt` skips at the front: white space and line terminators. */
  predicate IsJsWhiteSpace(c: char) {
    c == '\t' || c == '\U{B}' || c == '\U{C}' || c == ' ' || c == '\U{A0}' || c == '\U{FEFF}'
    || c == '\U{1680}' || ('\U{2000}' <= c <= '\U{200A}') || c == '\U{202F}' || c == '\U{205F}'
    || c == '\U{3000}' || IsLineTerminator(c)
  }

  /** `s.match(/.{1,2}/g)`: the matches, left to right; each is one or two characters and
      never contains a line terminator (an empty list stands for the `null` of no match). */
  function Pairs(s: string): (ps: seq<string>)
    ensures forall i :: 0 <= i < |ps| ==> 1 <= |ps[i]| <= 2
    ensures |ps| <= |s|
    decreases |s|
  {
    if s == [] then []
    else if IsLineTerminator(s[0]) then Pairs(s[1..])
    else if |s| >= 2 && !IsLineTerminator(s[1]) then [s[..2]] + Pairs(s[2..])
    else [s[..1]] + Pairs(s[1..])
  }

  function TrimStart(s: string): (t: string)
    ensures |t| <= |s|
  {
    if s != [] && IsJsWhiteSpace(s[0]) then TrimStart(s[1..]) else s
  }

  /** The longest prefix of hex digits. */
  function HexPrefix(s: string): (d: string)
    ensures |d| <= |s| && AllHex(d)
  {
    if s != [] && IsHexDigit(s[0]) then [s[0]] + HexPrefix(s[1..]) else []
  }

  /** `parseInt(s, 16)`, with `None` for NaN: leading white space, one optional sign, an
      optional `0x` / `0X` prefix, then as many hex digits as there are. A string of at most
      two characters yields a number of magnitude below 256. */
  function ParseIntHex(s: string): (r: Option<int>)
    ensures |s| <= 2 && r.Some? ==> -256 < r.value < 256
  {
    var t := TrimStart(s);
    var negative := |t| > 0 && t[0] == '-';
    var u := if |t| > 0 && (t[0] == '-' || t[0] == '+') then t[1..] else t;
    var v := if |u| >= 2 && u[0] == '0' && (u[1] == 'x' || u[1] == 'X') then u[2..] else u;
    var digits := HexPrefix(v);
    if digits == [] then None
    else
      assert |digits| <= 2 ==> HexValue(digits) < 256 by {
        if |digits| == 2 {
          assert HexValue(digits) == HexValue(digits[..1]) * 16 + DigitValue(digits[1]);
          assert digits[..1][..0] == [];
        } else if |digits| == 1 {
          assert digits[..0] == [];
        }
      }
      var m: int := HexValue(digits);
      Some(if negative then -m else m)
  }

  /** `String.fromCharCode(parseInt(chunk, 16))` for one match: the code is reduced modulo
      2^16 and NaN becomes 0. */
  function CharOfChunk(chunk: string): (c: char)
    requires |chunk| <= 2
  {
    match ParseIntHex(chunk)
    case None => 0 as char
    case Some(n) => (n % 0x1_0000) as char
  }

  /** `hexToString(hex)`. */
  function HexToString(hex: string): (r: string)
    ensures |r| <= |hex|
  {
    if hex == "" then ""
    else
      var ps := Pairs(hex);
      if ps == [] then ""
      else
        var parsed := seq(|ps|, i requires 0 <= i < |ps| => CharOfChunk(ps[i]));
        if parsed == "" then "" else parsed
  }

  predicate Latin1(s: string) {
    forall i :: 0 <= i < |s| ==> s[i] as int < 256
  }

  /** A match of two hex digits is taken whole. */
  lemma PairsOfTwo(p: string, rest: string)
    requires |p| == 2 && AllLowerHex(p)
    ensures Pairs(p + rest) == [p] + Pairs(rest)
  {
    var h := p + rest;
    assert h[..2] == p && h[2..] == rest;
  }

  /** The pieces `stringToHex` concatenates, one per character. */
  function HexPieces(s: string): (ps: seq<string>)
    ensures |ps| == |s|
    ensures forall i :: 0 <= i < |s| ==> ps[i] == ByteToHex(s[i] as int)
  {
    if s == [] then [] else [ByteToHex(s[0] as int)] + HexPieces(s[1..])
  }

  lemma {:induction false} StringToHexShape(s: string)
    requires Latin1(s)
    ensures |StringToHex(s)| == 2 * |s| && AllLowerHex(StringToHex(s))
  {
    if s != [] {
      var p, rest := ByteToHex(s[0] as int), StringToHex(s[1..]);
      ByteToHexExact(s[0] as int);
      assert Latin1(s[1..]);
      StringToHexShape(s[1..]);
      assert StringToHex(s) == p + rest;
    }
  }

  /** The matches of `/.{1,2}/g` over `stringToHex(s)` are exactly its two-digit pieces. */
  lemma {:induction false} StringToHexPairs(s: string)
    requires Latin1(s)
    ensures Pairs(StringToHex(s)) == HexPieces(s)
  {
    if s != [] {
      var p, rest := ByteToHex(s[0] as int), StringToHex(s[1..]);
      ByteToHexExact(s[0] as int);
      assert Latin1(s[1..]);
      StringToHexPairs(s[1..]);
      assert StringToHex(s) == p + rest;
      PairsOfTwo(p, rest);
    }
  }

  lemma {:induction false} HexPrefixOfHex(s: string)
    requires AllHex(s)
    ensures HexPrefix(s) == s
  {
    if s != [] {
      HexPrefixOfHex(s[1..]);
    }
  }

  /** A non-empty run of hex digits parses as its value. */
  lemma ParseIntHexOfDigits(s: string)
    requires |s| >= 1 && AllHex(s)
    ensures ParseIntHex(s) == Some(HexValue(s) as int)
  {
    assert !IsJsWhiteSpace(s[0]) && s[0] != '-' && s[0] != '+' by {
      assert IsHexDigit(s[0]);
    }
    assert !(|s| >= 2 && s[0] == '0' && (s[1] == 'x' || s[1] == 'X')) by {
      if |s| >= 2 {
        assert IsHexDigit(s[1]);
      }
    }
    HexPrefixOfHex(s);
    ParseIntHexUnsigned(s);
  }

  /** Text with no leading space, sign or `0x` prefix parses as the value of its leading
      hex digits. */
  lemma ParseIntHexUnsigned(s: string)
    requires s != [] && !IsJsWhiteSpace(s[0]) && s[0] != '-' && s[0] != '+'
    requires !(|s| >= 2 && s[0] == '0' && (s[1] == 'x' || s[1] == 'X'))
    ensures HexPrefix(s) != [] ==> ParseIntHex(s) == Some(HexValue(HexPrefix(s)) as int)
  {
    assert TrimStart(s) == s;
  }

  /** A chunk of two hex digits becomes the character with that code. */
  lemma CharOfDigits(chunk: string)
    requires |chunk| == 2 && AllHex(chunk)
    ensures HexValue(chunk) < 256 && CharOfChunk(chunk) == HexValue(chunk) as char
  {
    ParseIntHexOfDigits(chunk);
    var n := HexValue(chunk) as int;
    assert n < 256;
    SmallCodeUnit(n);
  }

  lemma SmallCodeUnit(n: int)
    requires 0 <= n < 0x1_0000
    ensures n % 0x1_0000 == n
  {
  }

  /** A rendered byte parses back to its own character. */
  lemma ChunkOfByte(c: char)
    requires c as int < 256
    ensures |ByteToHex(c as int)| == 2 && CharOfChunk(ByteToHex(c as int)) == c
  {
    var p := ByteToHex(c as int);
    ByteToHexExact(c as int);
    CharOfDigits(p);
  }

  /** `hexToString(stringToHex(s)) == s` for every string whose character codes are below
      256; `stringToHex(s)` then has exactly two lower-case hex digits per character. */
  lemma HexRoundTrip(s: string)
    requires Latin1(s)
    ensures |StringToHex(s)| == 2 * |s| && AllLowerHex(StringToHex(s))
    ensures HexToString(StringToHex(s)) == s
  {
    StringToHexShape(s);
    StringToHexPairs(s);
    if s != [] {
      var ps := Pairs(StringToHex(s));
      forall i | 0 <= i < |s| ensures CharOfChunk(ps[i]) == s[i] {
        ChunkOfByte(s[i]);
      }
    }
  }

  /** `hexToString("")` is `""`. */
  lemma HexToStringOfEmpty()
    ensures HexToString("") == ""
  {
  }

  // ---------------------------------------------------------------------------
  // getContrastingTextColor: the input normalisation and its fallback
  // ---------------------------------------------------------------------------

  /** What `getContrastingTextColor` decides without looking at the luminance: the fallback
      `"black"`, or a six-digit colour whose luminance then decides. */
  datatype Contrast = FallbackBlack | ByLuminance(rgb: string)

  /** Every character written twice: the 3-digit shorthand expansion. */
  function Doubled(s: string): (r: string)
    ensures |r| == 2 * |s|
  {
    if s == [] then [] else [s[0], s[0]] + Doubled(s[1..])
  }

  function StripHash(s: string): string {
    if |s| > 0 && s[0] == '#' then s[1..] else s
  }

  function NormalizedColor(s: string): string {
    var c := StripHash(s);
    if |c| == 3 then Doubled(c) else c
  }

  function ContrastingTextColor(hexColor: Option<string>): (r: Contrast)
    ensures r.ByLuminance? ==> hexColor.Some? && r.rgb == NormalizedColor(hexColor.value) && |r.rgb| == 6
  {
    if hexColor.None? || hexColor.value == "" then FallbackBlack
    else
      var color := NormalizedColor(hexColor.value);
      if |color| != 6 then FallbackBlack else ByLuminance(color)
  }

  /** The fallback is taken exactly for a missing or empty colour, or one that has neither
      3 nor 6 characters once a leading '#' is removed; otherwise the luminance decides on
      the six-digit form. */
  lemma ContrastFallback(hexColor: Option<string>)
    ensures ContrastingTextColor(hexColor) == FallbackBlack <==>
      hexColor.None? || hexColor.value == "" ||
      (|StripHash(hexColor.value)| != 3 && |StripHash(hexColor.value)| != 6)
    ensures ContrastingTextColor(hexColor).ByLuminance? ==>
      |ContrastingTextColor(hexColor).rgb| == 6
  {
  }
}
