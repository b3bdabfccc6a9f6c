/** The synchronous `localStorage` facade of app/plugins/storage.ts: a `Map` cache, filled
    once from the host storage and then read and written synchronously. The writes that are
    forwarded to the host in the background are not part of this model; the cache is. */
module Storage {
  import opened Wrappers

  /** No key occurs twice: the keys of a JavaScript `Map`. */
  predicate Distinct(keys: seq<string>) {
    forall i, j :: 0 <= i < j < |keys| ==> keys[i] != keys[j]
  }

  /** The key order of a `Map` after `set(k, _)`: a new key goes last, a present key keeps
      its place. */
  function SetKey(keys: seq<string>, k: string): (r: seq<string>)
    requires Distinct(keys)
    ensures Distinct(r)
    ensures forall x :: x in r <==> x in keys || x == k
    ensures |r| == if k in keys then |keys| else |keys| + 1
    ensures r[..|keys|] == keys
  {
    if k in keys then keys else keys + [k]
  }

  /** The key order of a `Map` after `delete(k)`: `k` goes, the others keep their order. */
  function RemoveKey(keys: seq<string>, k: string): (r: seq<string>)
    requires Distinct(keys)
    ensures Distinct(r)
    ensures forall x :: x in r <==> x in keys && x != k
    ensures |r| == if k in keys then |keys| - 1 else |keys|
    decreases |keys|
  {
    if keys == [] then []
    else
      var rest := RemoveKey(keys[1..], k);
      if keys[0] == k then rest
      else
        assert keys[0] !in keys[1..];
        [keys[0]] + rest
  }

  /** Removing a key that is not there changes nothing. */
  lemma {:induction false} RemoveAbsent(keys: seq<string>, k: string)
    requires Distinct(keys) && k !in keys
    ensures RemoveKey(keys, k) == keys
    decreases |keys|
  {
    if keys != [] {
      RemoveAbsent(keys[1..], k);
      assert keys == [keys[0]] + keys[1..];
    }
  }

  /** A sequence of distinct keys has as many elements as the set of its keys. */
  lemma {:induction false} DistinctCount(keys: seq<string>)
    requires Distinct(keys)
    ensures |set x | x in keys| == |keys|
    decreases |keys|
  {
    if keys != [] {
      DistinctCount(keys[1..]);
      var rest := set x | x in keys[1..];
      assert (set x | x in keys) == {keys[0]} + rest;
      assert keys[0] !in rest;
    }
  }

  /** The keys the initial load caches, in the order it caches them, when the host's keys
      are taken one after the other: a key whose stored value is null is skipped. */
  function LoadedKeys(hostKeys: seq<string>, stored: string -> Option<string>): (r: seq<string>)
    ensures Distinct(r)
    ensures forall k :: k in r <==> k in hostKeys && stored(k).Some?
  {
    if hostKeys == [] then []
    else
      var init := hostKeys[..|hostKeys| - 1];
      var k := hostKeys[|hostKeys| - 1];
      assert forall x :: x in hostKeys <==> x in init || x == k by {
        assert hostKeys == init + [k];
      }
      var ks := LoadedKeys(init, stored);
      if stored(k).Some? then SetKey(ks, k) else ks
  }

  /** The `localStorage` object the plugin installs: the `cache` map, with its keys in
      insertion order as `Map` keeps them. */
  class LocalStorage {
    /** The keys of `cache`, in insertion order. */
    var keys: seq<string>
    var cache: map<string, string>

    ghost predicate Valid()
      reads this
    {
      Distinct(keys) && forall k :: k in cache <==> k in keys
    }

    /** The initial load: every key the host lists is read, and the non-null values are
        cached (app/plugins/storage.ts:24-30). The host reads are `stored`. */
    constructor Load(hostKeys: seq<string>, stored: string -> Option<string>)
      ensures Valid()
      ensures keys == LoadedKeys(hostKeys, stored)
      ensures forall k :: k in cache <==> k in hostKeys && stored(k).Some?
      ensures forall k :: k in cache ==> Some(cache[k]) == stored(k)
    {
      var ks: seq<string> := [];
      var c: map<string, string> := map[];
      var i := 0;
      while i < |hostKeys|
        invariant 0 <= i <= |hostKeys|
        invariant ks == LoadedKeys(hostKeys[..i], stored)
        invariant forall k :: k in c <==> k in ks
        invariant forall k :: k in c ==> Some(c[k]) == stored(k)
      {
        var key := hostKeys[i];
        var value := stored(key);
        assert hostKeys[..i + 1][..i] == hostKeys[..i];
        if value.Some? {
          ks := SetKey(ks, key);
          c := c[key := value.value];
        }
        i := i + 1;
      }
      assert hostKeys[..i] == hostKeys;
      keys := ks;
      cache := c;
    }

    /** `getItem(key)`: the cached value, or null when the key is not cached. */
    function GetItem(key: string): (r: Option<string>)
      reads this
      requires Valid()
      ensures r.Some? <==> key in keys
      ensures r.Some? ==> key in cache && r.value == cache[key]
    {
      if key in cache then Some(cache[key]) else None
    }

    /** `length`: the number of cached keys. */
    function Length(): (n: nat)
      reads this
      requires Valid()
      ensures n == |cache|
    {
      DistinctCount(keys);
      assert cache.Keys == set x | x in keys;
      |keys|
    }

    /** `key(index)`: the key at that place in insertion order, or null out of range. An index
        with a fractional part names no array element, so it reads as null as well. */
    function Key(index: real): (r: Option<string>)
      reads this
      requires Valid()
      ensures r.Some? <==> index == index.Floor as real && 0 <= index.Floor < Length()
      ensures r.Some? ==> r.value in cache && r.value == keys[index.Floor]
    {
      if index == index.Floor as real && 0 <= index.Floor < |keys| then Some(keys[index.Floor]) else None
    }

    /** `setItem(key, value)`: the key now reads as `value`; the other keys are unchanged. */
    method SetItem(key: string, value: string)
      requires Valid()
      modifies this
      ensures Valid()
      ensures GetItem(key) == Some(value)
      ensures forall k :: k != key ==> GetItem(k) == old(GetItem(k))
      ensures cache == old(cache)[key := value]
      ensures keys == SetKey(old(keys), key)
      ensures Length() == if key in old(cache) then old(Length()) else old(Length()) + 1
    {
      keys := SetKey(keys, key);
      cache := cache[key := value];
    }

    /** `removeItem(key)`: the key now reads as null; the other keys are unchanged. */
    method RemoveItem(key: string)
      requires Valid()
      modifies this
      ensures Valid()
      ensures GetItem(key).None?
      ensures forall k :: k != key ==> GetItem(k) == old(GetItem(k))
      ensures cache == old(cache) - {key}
      ensures keys == RemoveKey(old(keys), key)
    {
      keys := RemoveKey(keys, key);
      cache := cache - {key};
    }

    /** `clear()`: nothing is cached any more. */
    method Clear()
      requires Valid()
      modifies this
      ensures Valid()
      ensures Length() == 0
      ensures forall k :: GetItem(k).None?
    {
      keys := [];
      cache := map[];
    }
  }
}
