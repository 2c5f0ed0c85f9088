/**
 * The helpers of Dictionary.swift on a Swift dictionary, modelled as a
 * map: building one from a sequence of key/value pairs, and dropping a key.
 */
module Dictionaries {

  /** Key `key` occurs among the pairs. */
  ghost predicate Occurs<K, V>(pairs: seq<(K, V)>, key: K)
  {
    exists i :: 0 <= i < |pairs| && pairs[i].0 == key
  }

  /** Pair `i` is the last one carrying its key. */
  ghost predicate IsLastWrite<K, V>(pairs: seq<(K, V)>, i: int)
    requires 0 <= i < |pairs|
  {
    forall j :: i < j < |pairs| ==> pairs[j].0 != pairs[i].0
  }

  /** `d` holds exactly the keys of `pairs`, each with the value of its last occurrence. */
  ghost predicate Built<K, V>(d: map<K, V>, pairs: seq<(K, V)>)
  {
    && (forall key :: key in d ==> Occurs(pairs, key))
    && (forall i :: 0 <= i < |pairs| ==> pairs[i].0 in d)
    && (forall i :: 0 <= i < |pairs| && IsLastWrite(pairs, i) ==> pairs[i].0 in d && d[pairs[i].0] == pairs[i].1)
  }

  /**
   * `init(tuples:)`: starts empty and stores each pair in turn, so the keys
   * are exactly those occurring in the sequence and each maps to the value
   * of its last occurrence.
   */
  method FromPairs<K, V>(pairs: seq<(K, V)>) returns (d: map<K, V>)
    ensures Built(d, pairs)
  {
    d := map[];
    for k := 0 to |pairs|
      invariant Built(d, pairs[..k])
    {
      PrefixSnoc(pairs, k);
      StoreStep(d, pairs[..k], pairs[k], pairs[..k + 1]);
      d := d[pairs[k].0 := pairs[k].1];
    }
    assert pairs[..|pairs|] == pairs;
  }

  /** The first `k + 1` elements are the first `k` and then element `k`. */
  lemma PrefixSnoc<T>(s: seq<T>, k: int)
    requires 0 <= k < |s|
    ensures s[..k + 1] == s[..k] + [s[k]]
  {
  }

  /** Storing one more pair keeps the map built from the longer sequence. */
  lemma StoreStep<K, V>(d: map<K, V>, pairs: seq<(K, V)>, p: (K, V), more: seq<(K, V)>)
    requires Built(d, pairs) && more == pairs + [p]
    ensures Built(d[p.0 := p.1], more)
  {
    var e := d[p.0 := p.1];
    forall i | 0 <= i < |more| && IsLastWrite(more, i)
      ensures more[i].0 in e && e[more[i].0] == more[i].1
    {
      if i < |pairs| {
        assert more[|pairs|].0 != more[i].0;
        assert IsLastWrite(pairs, i) by {
          forall j | i < j < |pairs|
            ensures pairs[j].0 != pairs[i].0
          {
            assert more[j] == pairs[j];
          }
        }
      }
    }
    forall key | key in e
      ensures Occurs(more, key)
    {
      if key == p.0 {
        assert more[|pairs|].0 == key;
      } else {
        var i :| 0 <= i < |pairs| && pairs[i].0 == key;
        assert more[i].0 == key;
      }
    }
    forall i | 0 <= i < |more|
      ensures more[i].0 in e
    {
      if i < |pairs| {
        assert more[i] == pairs[i];
      }
    }
  }

  /** Every key that occurs has a last occurrence. */
  lemma {:induction false} LastWriteExists<K, V>(pairs: seq<(K, V)>, key: K) returns (i: int)
    requires Occurs(pairs, key)
    ensures 0 <= i < |pairs| && pairs[i].0 == key && IsLastWrite(pairs, i)
    decreases |pairs|
  {
    var n := |pairs| - 1;
    if pairs[n].0 == key {
      i := n;
    } else {
      var front := pairs[..n];
      var j :| 0 <= j < |pairs| && pairs[j].0 == key;
      assert front[j].0 == key;
      i := LastWriteExists(front, key);
      forall k | i < k < |pairs|
        ensures pairs[k].0 != pairs[i].0
      {
        if k < n {
          assert front[k] == pairs[k];
        }
      }
    }
  }

  /** The keys and last writes determine the dictionary: `init(tuples:)` has one possible result. */
  lemma BuiltUnique<K, V>(a: map<K, V>, b: map<K, V>, pairs: seq<(K, V)>)
    requires Built(a, pairs) && Built(b, pairs)
    ensures a == b
  {
    forall key | key in a
      ensures key in b && a[key] == b[key]
    {
      var i := LastWriteExists(pairs, key);
    }
    forall key | key in b
      ensures key in a
    {
      var i := LastWriteExists(pairs, key);
    }
  }

  /** `dropping(_:)`: the dictionary without `key`, every other entry as it was. */
  function Dropping<K, V>(d: map<K, V>, key: K): (r: map<K, V>)
    ensures key !in r
    ensures forall k :: k in d && k != key ==> k in r
    ensures forall k :: k in r ==> k in d && r[k] == d[k]
  {
    d - {key}
  }

  /** Dropping a key that is not there changes nothing. */
  lemma DroppingAbsent<K, V>(d: map<K, V>, key: K)
    requires key !in d
    ensures Dropping(d, key) == d
  {
  }

  /** Dropping the same key twice is dropping it once. */
  lemma DroppingTwice<K, V>(d: map<K, V>, key: K)
    ensures Dropping(Dropping(d, key), key) == Dropping(d, key)
  {
  }

  /** Dropping two keys in either order gives the same dictionary. */
  lemma DroppingCommutes<K, V>(d: map<K, V>, a: K, b: K)
    ensures Dropping(Dropping(d, a), b) == Dropping(Dropping(d, b), a)
  {
  }

  /** A Swift `var` dictionary; `drop(_:)` reassigns `entries`. */
  class DictionaryVar<K(==), V> {
    var entries: map<K, V>

    constructor (d: map<K, V>)
      ensures entries == d
    {
      entries := d;
    }

    /** `drop(_:)`. */
    method Drop(key: K)
      modifies this
      ensures entries == Dropping(old(entries), key)
    {
      entries := Dropping(entries, key);
    }
  }
}
