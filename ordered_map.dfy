/**
 * The `BTreeMap<u64, V>` of the compressor, as the sequence of its entries in
 * ascending key order (the order in which a `BTreeMap` is iterated).
 */
module OrderedMap {
  import opened Common

  datatype Entry<V> = Entry(key: u64, value: V)

  /** Keys strictly ascending: every key once, in iteration order. */
  predicate StrictlySorted<V>(es: seq<Entry<V>>)
  {
    forall i, j :: 0 <= i < j < |es| ==> es[i].key < es[j].key
  }

  function KeySet<V>(es: seq<Entry<V>>): set<u64>
  {
    if es == [] then {} else {es[0].key} + KeySet(es[1..])
  }

  /** The first key of a key-sorted sequence is below every other key. */
  lemma {:induction false} FirstKeyIsLeast<V>(es: seq<Entry<V>>)
    requires StrictlySorted(es) && es != []
    ensures forall x :: x in KeySet(es[1..]) ==> es[0].key < x
  {
    if |es| > 1 {
      FirstKeyIsLeast(es[1..]);
      assert es[1..][1..] == es[2..];
    }
  }

  lemma {:induction false} InKeySet<V>(es: seq<Entry<V>>, x: u64)
    ensures x in KeySet(es) <==> exists i :: 0 <= i < |es| && es[i].key == x
  {
    if es != [] {
      InKeySet(es[1..], x);
      if x in KeySet(es[1..]) {
        var i :| 0 <= i < |es[1..]| && es[1..][i].key == x;
        assert es[i + 1].key == x;
      }
      if exists i :: 0 <= i < |es| && es[i].key == x {
        var i :| 0 <= i < |es| && es[i].key == x;
        if i > 0 { assert es[1..][i - 1].key == x; }
      }
    }
  }

  /** `map.get(&k)`. */
  function Get<V>(es: seq<Entry<V>>, k: u64): (r: Option<V>)
    ensures r.Some? <==> k in KeySet(es)
  {
    if es == [] then None
    else if es[0].key == k then Some(es[0].value)
    else Get(es[1..], k)
  }

  lemma {:induction false} GetAt<V>(es: seq<Entry<V>>, i: nat)
    requires StrictlySorted(es) && i < |es|
    ensures Get(es, es[i].key) == Some(es[i].value)
  {
    if i > 0 {
      GetAt(es[1..], i - 1);
    }
  }

  /**
   * `map.entry(k).or_insert(v)`: the first writer wins. An existing key keeps
   * its value; an absent key is added with `v`; nothing else changes.
   */
  function OrInsert<V>(es: seq<Entry<V>>, k: u64, v: V): (r: seq<Entry<V>>)
    requires StrictlySorted(es)
    ensures StrictlySorted(r)
    ensures KeySet(r) == KeySet(es) + {k}
    ensures Get(r, k) == if k in KeySet(es) then Get(es, k) else Some(v)
    ensures forall k' :: k' != k ==> Get(r, k') == Get(es, k')
  {
    if es == [] then [Entry(k, v)]
    else if es[0].key == k then es
    else if k < es[0].key then
      FirstKeyIsLeast(es);
      [Entry(k, v)] + es
    else
      FirstKeyIsLeast(es);
      var tail := OrInsert(es[1..], k, v);
      [es[0]] + tail
  }

  /** `map.insert(k, v)`: the last writer wins. */
  function Insert<V>(es: seq<Entry<V>>, k: u64, v: V): (r: seq<Entry<V>>)
    requires StrictlySorted(es)
    ensures StrictlySorted(r)
    ensures KeySet(r) == KeySet(es) + {k}
    ensures Get(r, k) == Some(v)
    ensures forall k' :: k' != k ==> Get(r, k') == Get(es, k')
  {
    if es == [] then [Entry(k, v)]
    else if es[0].key == k then
      FirstKeyIsLeast(es);
      [Entry(k, v)] + es[1..]
    else if k < es[0].key then
      FirstKeyIsLeast(es);
      [Entry(k, v)] + es
    else
      FirstKeyIsLeast(es);
      var tail := Insert(es[1..], k, v);
      [es[0]] + tail
  }

  /** Inserting a key above every present key appends its entry at the end of the iteration order. */
  lemma {:induction false} InsertGreatest<V>(es: seq<Entry<V>>, k: u64, v: V)
    requires StrictlySorted(es)
    requires forall i :: 0 <= i < |es| ==> es[i].key < k
    ensures Insert(es, k, v) == es + [Entry(k, v)]
  {
    if es != [] {
      InsertGreatest(es[1..], k, v);
      assert [es[0]] + (es[1..] + [Entry(k, v)]) == es + [Entry(k, v)];
    }
  }

  /** Inserting the next entry of a sorted sequence after its prefix gives the longer prefix. */
  lemma InsertNext<V>(es: seq<Entry<V>>, n: nat)
    requires StrictlySorted(es) && 0 < n <= |es|
    ensures StrictlySorted(es[..n - 1]) && Insert(es[..n - 1], es[n - 1].key, es[n - 1].value) == es[..n]
  {
    var prefix := es[..n - 1];
    assert forall i :: 0 <= i < |prefix| ==> prefix[i].key < es[n - 1].key;
    InsertGreatest(prefix, es[n - 1].key, es[n - 1].value);
    assert es[..n] == prefix + [Entry(es[n - 1].key, es[n - 1].value)];
  }

  /** Two key-sorted entry sequences with the same lookups are the same sequence. */
  lemma {:induction false} Extensionality<V>(a: seq<Entry<V>>, b: seq<Entry<V>>)
    requires StrictlySorted(a) && StrictlySorted(b)
    requires forall k :: Get(a, k) == Get(b, k)
    ensures a == b
  {
    forall k ensures k in KeySet(a) <==> k in KeySet(b) {
      assert Get(a, k) == Get(b, k);
    }
    if a == [] || b == [] {
      // an empty map has no keys, so neither has the other
      assert KeySet(a) == KeySet(b);
    } else {
      // the least key of each is a key of the other, so the two least keys agree
      FirstKeyIsLeast(a);
      FirstKeyIsLeast(b);
      assert Get(b, a[0].key).Some? && Get(a, b[0].key).Some?;
      assert a[0].key == b[0].key;
      forall k ensures Get(a[1..], k) == Get(b[1..], k) {
        if k != a[0].key {
          assert Get(a, k) == Get(a[1..], k);
          assert Get(b, k) == Get(b[1..], k);
        }
      }
      Extensionality(a[1..], b[1..]);
      assert a == [a[0]] + a[1..];
      assert b == [b[0]] + b[1..];
    }
  }
}
