/** Enumerations of a key set: the order in which a Java HashMap happens to visit its keys. */
module Collections {

  /** `order` lists every key of `keys` exactly once, in some order. */
  ghost predicate IsEnumeration<K>(order: seq<K>, keys: set<K>) {
    && (forall i :: 0 <= i < |order| ==> order[i] in keys)
    && (forall k :: k in keys ==> k in order)
    && (forall i, j :: 0 <= i < j < |order| ==> order[i] != order[j])
  }

  /** Concatenation regrouped, for the steps where the verifier does not regroup it by itself. */
  lemma AppendAssoc<T>(x: seq<T>, y: seq<T>, z: seq<T>)
    ensures x + y + z == x + (y + z)
  {
  }

  /** Removing the element at position `j` of an enumeration enumerates the remaining keys. */
  lemma EnumerationWithout<K>(order: seq<K>, keys: set<K>, j: nat)
    requires IsEnumeration(order, keys) && j < |order|
    ensures IsEnumeration(order[..j] + order[j + 1..], keys - {order[j]})
  {
    var rest := order[..j] + order[j + 1..];
    forall k | k in keys - {order[j]} ensures k in rest {
      var i :| 0 <= i < |order| && order[i] == k;
      if i < j { assert rest[i] == k; } else { assert rest[i - 1] == k; }
    }
    forall i, i' | 0 <= i < i' < |rest| ensures rest[i] != rest[i'] {
      var a := if i < j then i else i + 1;
      var b := if i' < j then i' else i' + 1;
      assert rest[i] == order[a] && rest[i'] == order[b];
    }
    forall i | 0 <= i < |rest| ensures rest[i] in keys - {order[j]} {
      var a := if i < j then i else i + 1;
      assert rest[i] == order[a];
    }
  }

  /** An enumeration holds each key exactly once. */
  lemma {:induction false} EnumerationMultiset<K>(order: seq<K>, keys: set<K>)
    requires IsEnumeration(order, keys)
    ensures multiset(order) == multiset(keys)
    decreases |order|
  {
    if order == [] {
      assert forall k :: k !in keys;
      assert keys == {};
    } else {
      var n := |order| - 1;
      var k := order[n];
      EnumerationWithout(order, keys, n);
      assert order[..n] + order[n + 1..] == order[..n];
      EnumerationMultiset(order[..n], keys - {k});
      assert order == order[..n] + [k];
      assert keys == (keys - {k}) + {k};
    }
  }
}
