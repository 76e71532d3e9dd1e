/** An enum definition's entries: a java.util.Map from symbolic key to base value,
    kept together with the order its keySet() and entrySet() iterate in. */
module Entries {
  import opened Wrappers

  datatype Entry<V> = Entry(key: string, value: V)

  /** A Java map never holds a key twice. */
  predicate DistinctKeys<V>(es: seq<Entry<V>>)
  {
    forall i, j :: 0 <= i < j < |es| ==> es[i].key != es[j].key
  }

  /** No two keys share a value: the key/value mapping is a bijection. */
  predicate DistinctValues<V(==)>(es: seq<Entry<V>>)
  {
    forall i, j :: 0 <= i < j < |es| ==> es[i].value != es[j].value
  }

  /** A map in iteration order. */
  type EntryMap<V> = es: seq<Entry<V>> | DistinctKeys(es) witness []

  ghost predicate IsKey<V>(es: seq<Entry<V>>, k: string)
  {
    exists i :: 0 <= i < |es| && es[i].key == k
  }

  ghost predicate IsValue<V>(es: seq<Entry<V>>, v: V)
  {
    exists i :: 0 <= i < |es| && es[i].value == v
  }

  /** `k` is mapped to `v`. */
  ghost predicate MapsTo<V>(es: seq<Entry<V>>, k: string, v: V)
  {
    exists i :: 0 <= i < |es| && es[i].key == k && es[i].value == v
  }

  /** Map.get: the value of key `k`, or None (Java's null) when `k` is not a key. */
  function Get<V>(es: seq<Entry<V>>, k: string): (r: Option<V>)
    ensures r.Some? <==> IsKey(es, k)
    ensures r.Some? ==> MapsTo(es, k, r.value)
  {
    if es == [] then None
    else if es[0].key == k then Some(es[0].value)
    else
      var r := Get(es[1..], k);
      assert r.Some? ==> MapsTo(es[1..], k, r.value);
      assert IsKey(es, k) ==> IsKey(es[1..], k);
      r
  }

  /** Map.values().contains(v). */
  function ContainsValue<V(==)>(es: seq<Entry<V>>, v: V): (r: bool)
    ensures r <==> IsValue(es, v)
  {
    if es == [] then false
    else if es[0].value == v then true
    else
      var r := ContainsValue(es[1..], v);
      assert IsValue(es, v) ==> IsValue(es[1..], v);
      r
  }

  /** The key of the first entry, in iteration order, whose value is `v`:
      entrySet().stream().filter(e -> e.getValue() == v).map(getKey).findFirst(). */
  function FirstKeyOf<V(==)>(es: seq<Entry<V>>, v: V): (r: Option<string>)
    ensures r.Some? <==> IsValue(es, v)
    ensures r.Some? ==> exists i :: 0 <= i < |es| && es[i] == Entry(r.value, v)
                                    && forall j :: 0 <= j < i ==> es[j].value != v
  {
    if es == [] then None
    else if es[0].value == v then Some(es[0].key)
    else
      var r := FirstKeyOf(es[1..], v);
      assert IsValue(es, v) ==> IsValue(es[1..], v);
      if r.Some? then
        var i :| 0 <= i < |es[1..]| && es[1..][i] == Entry(r.value, v)
                 && forall j :: 0 <= j < i ==> es[1..][j].value != v;
        assert es[i + 1] == Entry(r.value, v);
        assert forall j :: 0 <= j < i + 1 ==> es[j].value != v by {
          forall j | 0 <= j < i + 1 ensures es[j].value != v {
            if j > 0 { assert es[j] == es[1..][j - 1]; }
          }
        }
        r
      else
        r
  }

  /** The iteration order of a key is the position of its entry. */
  lemma GetAt<V>(es: EntryMap<V>, i: nat)
    requires i < |es|
    ensures Get(es, es[i].key) == Some(es[i].value)
  {
    var r := Get(es, es[i].key);
    var j :| 0 <= j < |es| && es[j].key == es[i].key && es[j].value == r.value;
    assert i == j;
  }

  /** In a map a key has only one value. */
  lemma MapsToUnique<V>(es: EntryMap<V>, k: string, v1: V, v2: V)
    requires MapsTo(es, k, v1) && MapsTo(es, k, v2)
    ensures v1 == v2
  {
    var i :| 0 <= i < |es| && es[i].key == k && es[i].value == v1;
    var j :| 0 <= j < |es| && es[j].key == k && es[j].value == v2;
    assert i == j;
  }

  /** Reverse then forward lookup: the key found for a defined value maps back to it. */
  lemma ValueKeyRoundTrip<V>(es: EntryMap<V>, v: V)
    requires IsValue(es, v)
    ensures Get(es, FirstKeyOf(es, v).value) == Some(v)
  {
    var k := FirstKeyOf(es, v).value;
    var i :| 0 <= i < |es| && es[i] == Entry(k, v) && forall j :: 0 <= j < i ==> es[j].value != v;
    GetAt(es, i);
  }

  /** Forward then reverse lookup: when values are distinct, the value of a key leads back to it. */
  lemma KeyValueRoundTrip<V>(es: EntryMap<V>, k: string)
    requires DistinctValues(es)
    requires IsKey(es, k)
    ensures FirstKeyOf(es, Get(es, k).value) == Some(k)
  {
    var v := Get(es, k).value;
    var i :| 0 <= i < |es| && es[i].key == k && es[i].value == v;
    var k' := FirstKeyOf(es, v).value;
    var j :| 0 <= j < |es| && es[j] == Entry(k', v) && forall j' :: 0 <= j' < j ==> es[j'].value != v;
    assert i == j;
  }

  /** The message of a failed key lookup. */
  function NoKeyMessage(key: string, enumName: string): string
  {
    "No key '" + key + "' in enum '" + enumName + "'"
  }

  /** The message of a failed value lookup; `value` is the value as printed. */
  function NoValueMessage(value: string, enumName: string): string
  {
    "No value '" + value + "' in enum '" + enumName + "'"
  }
}
