/** `HashMap<K, V>` of search/hashmap.h. Despite its name it hashes nothing:
    it is a vector of key/value pairs searched front to back, and a key that
    is looked up for writing is appended with a default value when missing.
    The pairs are a `seq` here; the map they stand for is `MapOf(items)`. */
module HashMaps {
  import opened Base

  datatype Pair<K, V> = Pair(key: K, value: V)

  /** The keys of the pairs, in storage order. */
  function KeysOf<K, V>(items: seq<Pair<K, V>>): (r: seq<K>)
    ensures |r| == |items|
    ensures forall i :: 0 <= i < |items| ==> r[i] == items[i].key
  {
    seq(|items|, i requires 0 <= i < |items| => items[i].key)
  }

  ghost predicate DistinctKeys<K, V>(items: seq<Pair<K, V>>)
  {
    forall i, j :: 0 <= i < j < |items| ==> items[i].key != items[j].key
  }

  /** The map a list of pairs stands for. */
  function MapOf<K, V>(items: seq<Pair<K, V>>): map<K, V>
    decreases |items|
  {
    if items == [] then map[]
    else MapOf(items[..|items| - 1])[items[|items| - 1].key := items[|items| - 1].value]
  }

  /** A key is mapped exactly when some pair holds it. */
  lemma {:induction false} MapOfDomain<K, V>(items: seq<Pair<K, V>>)
    ensures forall k :: k in MapOf(items) <==> k in KeysOf(items)
    decreases |items|
  {
    if items != [] {
      var init := items[..|items| - 1];
      MapOfDomain(init);
      assert KeysOf(items) == KeysOf(init) + [items[|items| - 1].key];
    }
  }

  /** With distinct keys, each pair's key maps to that pair's value. */
  lemma {:induction false} MapOfAt<K, V>(items: seq<Pair<K, V>>, i: nat)
    requires DistinctKeys(items) && i < |items|
    ensures items[i].key in MapOf(items) && MapOf(items)[items[i].key] == items[i].value
    decreases |items|
  {
    if i < |items| - 1 {
      MapOfAt(items[..|items| - 1], i);
    }
  }

  /** With distinct keys the map has as many entries as there are pairs. */
  lemma {:induction false} MapOfSize<K, V>(items: seq<Pair<K, V>>)
    requires DistinctKeys(items)
    ensures |MapOf(items)| == |items|
    decreases |items|
  {
    if items != [] {
      var init := items[..|items| - 1];
      MapOfSize(init);
      MapOfDomain(init);
      assert items[|items| - 1].key !in KeysOf(init);
    }
  }

  /** Overwriting the value of one pair updates that key and no other. */
  lemma {:induction false} MapOfUpdate<K, V>(items: seq<Pair<K, V>>, idx: nat, v: V)
    requires DistinctKeys(items) && idx < |items|
    ensures MapOf(items[idx := Pair(items[idx].key, v)]) == MapOf(items)[items[idx].key := v]
    decreases |items|
  {
    var updated := items[idx := Pair(items[idx].key, v)];
    var init := items[..|items| - 1];
    if idx == |items| - 1 {
      assert updated[..|items| - 1] == init;
    } else {
      assert updated[..|items| - 1] == init[idx := Pair(items[idx].key, v)];
      MapOfUpdate(init, idx, v);
    }
  }

  class HashMap<K(==), V> {
    var items: seq<Pair<K, V>>
    /** The value `V()` that `operator[]` stores for a new key. */
    const defaultValue: V

    /** Every key is stored once: `operator[]` appends only missing keys. */
    ghost predicate Valid()
      reads this
    {
      DistinctKeys(items)
    }

    ghost function Map(): map<K, V>
      reads this
    {
      MapOf(items)
    }

    constructor (defaultValue: V)
      ensures Valid() && items == [] && this.defaultValue == defaultValue
    {
      items := [];
      this.defaultValue := defaultValue;
    }

    /** `find_index`: the position of the first pair holding `key`, or -1. */
    method FindIndex(key: K) returns (idx: int)
      ensures -1 <= idx < |items|
      ensures idx == -1 <==> key !in KeysOf(items)
      ensures idx >= 0 ==> items[idx].key == key
      ensures idx >= 0 ==> forall j :: 0 <= j < idx ==> items[j].key != key
    {
      var i := 0;
      while i < |items|
        invariant 0 <= i <= |items|
        invariant forall j :: 0 <= j < i ==> items[j].key != key
      {
        if items[i].key == key {
          return i;
        }
        i := i + 1;
      }
      return -1;
    }

    /** `operator[]`: the position of `key`'s pair, which is appended with the
        default value when the key is missing; the C++ operator returns a
        reference to the value at that position. */
    method Slot(key: K) returns (idx: nat)
      requires Valid()
      modifies this
      ensures Valid()
      ensures idx < |items| && items[idx].key == key
      ensures key in old(Map()) ==> items == old(items)
      ensures key !in old(Map()) ==> items == old(items) + [Pair(key, defaultValue)]
      ensures Map() == if key in old(Map()) then old(Map()) else old(Map())[key := defaultValue]
    {
      MapOfDomain(items);
      var found := FindIndex(key);
      if found != -1 {
        idx := found;
      } else {
        items := items + [Pair(key, defaultValue)];
        idx := |items| - 1;
      }
    }

    /** Writing through the reference `operator[]` returned. */
    method SetAt(idx: nat, value: V)
      requires Valid() && idx < |items|
      modifies this
      ensures Valid()
      ensures items == old(items)[idx := Pair(old(items)[idx].key, value)]
      ensures Map() == old(Map())[items[idx].key := value]
    {
      MapOfUpdate(items, idx, value);
      items := items[idx := Pair(items[idx].key, value)];
    }

    method Contains(key: K) returns (found: bool)
      requires Valid()
      ensures found <==> key in Map()
    {
      MapOfDomain(items);
      var idx := FindIndex(key);
      found := idx != -1;
    }

    /** `get`: the value stored for `key`, or nothing (the null pointer). */
    method Get(key: K) returns (r: Option<V>)
      requires Valid()
      ensures r.Some? <==> key in Map()
      ensures r.Some? ==> r.value == Map()[key]
    {
      MapOfDomain(items);
      var idx := FindIndex(key);
      if idx == -1 {
        r := None;
      } else {
        MapOfAt(items, idx);
        r := Some(items[idx].value);
      }
    }

    /** `keys`: every key once, in the order the keys were first inserted. */
    method Keys() returns (ks: seq<K>)
      requires Valid()
      ensures ks == KeysOf(items)
      ensures forall k :: k in ks <==> k in Map()
      ensures |ks| == |Map()|
    {
      ks := [];
      var i := 0;
      while i < |items|
        invariant 0 <= i <= |items|
        invariant ks == KeysOf(items[..i])
      {
        ks := ks + [items[i].key];
        i := i + 1;
      }
      assert items[..i] == items;
      MapOfDomain(items);
      MapOfSize(items);
    }

    method Size() returns (n: nat)
      requires Valid()
      ensures n == |Map()|
    {
      MapOfSize(items);
      n := |items|;
    }

    method Empty() returns (e: bool)
      requires Valid()
      ensures e <==> Map() == map[]
    {
      MapOfSize(items);
      e := |items| == 0;
    }

    method Clear()
      modifies this
      ensures Valid() && items == [] && Map() == map[]
    {
      items := [];
    }
  }
}
