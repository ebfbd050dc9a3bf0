/** SNMP walks as sequences of rows, and what a dictionary filled from one holds. */
module Walks {
  import opened Wrappers

  /** One row of a walk, or the error (SNMP or a non-numeric value) that ends it. */
  datatype Item<+K, +V> = Bad | Item(index: K, value: V)

  predicate Complete<K, V>(w: seq<Item<K, V>>) {
    forall i :: 0 <= i < |w| ==> w[i].Item?
  }

  /** The last row with the key decides, as for a dictionary filled in order. */
  function LastValue<K(==), V>(w: seq<Item<K, V>>, key: K): Option<V> {
    if w == [] then None
    else
      var last := w[|w| - 1];
      if last.Item? && last.index == key then Some(last.value) else LastValue(w[..|w| - 1], key)
  }

  lemma LastValueSnoc<K, V>(w: seq<Item<K, V>>, i: nat, key: K)
    requires i < |w|
    ensures LastValue(w[..i + 1], key)
            == if w[i].Item? && w[i].index == key then Some(w[i].value) else LastValue(w[..i], key)
  {
    assert w[..i + 1][..i] == w[..i];
  }

  lemma CompleteSnoc<K, V>(w: seq<Item<K, V>>, i: nat)
    requires i < |w| && Complete(w[..i]) && w[i].Item?
    ensures Complete(w[..i + 1])
  {
  }

  /** The keys in order of first appearance: the order of a dictionary filled from the walk. */
  function FirstSeen<K(==,!new), V>(w: seq<Item<K, V>>): (keys: seq<K>)
    ensures forall k :: k in keys <==> LastValue(w, k).Some?
    ensures forall i, j :: 0 <= i < j < |keys| ==> keys[i] != keys[j]
  {
    if w == [] then []
    else
      var front, last := FirstSeen(w[..|w| - 1]), w[|w| - 1];
      if last.Item? && last.index !in front then front + [last.index] else front
  }

  /** The row is the last one with the key, and carries the value. */
  ghost predicate LastRow<K(!new), V(!new)>(w: seq<Item<K, V>>, i: int, key: K, value: V) {
    0 <= i < |w| && w[i] == Item(key, value) && forall j :: i < j < |w| && w[j].Item? ==> w[j].index != key
  }

  lemma LastRowFront<K(!new), V(!new)>(w: seq<Item<K, V>>, i: int, key: K, value: V)
    requires w != [] && (w[|w| - 1].Item? ==> w[|w| - 1].index != key)
    ensures LastRow(w, i, key, value) <==> LastRow(w[..|w| - 1], i, key, value)
  {
    var front := w[..|w| - 1];
    assert forall j :: 0 <= j < |front| ==> front[j] == w[j];
  }

  /** A dictionary filled from a walk holds a value for a key exactly when the key's last row carries it. */
  lemma {:induction false} LastValueExactly<K(!new), V(!new)>(w: seq<Item<K, V>>, key: K, value: V)
    ensures LastValue(w, key) == Some(value) <==> exists i :: LastRow(w, i, key, value)
  {
    if w != [] {
      var n := |w| - 1;
      if w[n].Item? && w[n].index == key {
        assert LastRow(w, n, key, w[n].value);
      } else {
        LastValueExactly(w[..n], key, value);
        forall i ensures LastRow(w, i, key, value) <==> LastRow(w[..n], i, key, value) {
          LastRowFront(w, i, key, value);
        }
      }
    }
  }

  /** The keys come in the order of their first rows: before the first row of a later key there is one of an earlier key. */
  lemma {:induction false} FirstSeenInOrder<K(!new), V>(w: seq<Item<K, V>>, i: nat, j: nat, b: nat) returns (a: nat)
    requires i < j < |FirstSeen(w)| && b < |w| && w[b].Item? && w[b].index == FirstSeen(w)[j]
    ensures a < b && w[a].Item? && w[a].index == FirstSeen(w)[i]
  {
    var front, keys := w[..|w| - 1], FirstSeen(w[..|w| - 1]);
    if j < |keys| && b < |front| {
      assert front[b] == w[b];
      a := FirstSeenInOrder(front, i, j, b);
    } else if j < |keys| {
      assert keys[j] in keys;
      var b' := KeyRow(front, keys[j]);
      a := FirstSeenInOrder(front, i, j, b');
    } else {
      assert b == |front| by {
        if b < |front| { assert front[b] == w[b]; KeyOfRow(front, b); }
      }
      assert keys[i] in keys;
      a := KeyRow(front, keys[i]);
    }
  }

  lemma KeyOfRow<K(!new), V>(w: seq<Item<K, V>>, i: nat)
    requires i < |w| && w[i].Item?
    ensures w[i].index in FirstSeen(w)
  {
    if i < |w| - 1 {
      assert w[..|w| - 1][i] == w[i];
      KeyOfRow(w[..|w| - 1], i);
    }
  }

  lemma KeyRow<K(!new), V>(w: seq<Item<K, V>>, key: K) returns (i: nat)
    requires key in FirstSeen(w)
    ensures i < |w| && w[i].Item? && w[i].index == key
  {
    if key in FirstSeen(w[..|w| - 1]) {
      i := KeyRow(w[..|w| - 1], key);
    } else {
      i := |w| - 1;
    }
  }
}
