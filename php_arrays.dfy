/**
 PHP's associative arrays and the array-union operator `+` (and its compound
 form `+=`).

 A PHP array is an ordered list of entries with pairwise distinct keys. `+` is
 left-biased: it keeps every entry of the left operand, in its order, and then
 walks the right operand in its order, appending each entry whose key the
 result does not have yet. Nothing is ever overwritten.

 The module gives both views: `seq<(K, V)>` is the ordered array, `map<K, V>`
 the key-to-value table that `ToMap` abstracts it to; `UnionOrdered` is `+` on
 arrays and `Union` is the same operation on their tables.
 */
module PhpArrays {

  // ---------------------------------------------------------------------------
  // Ordered arrays

  /** Some entry of `a` has key `k`. */
  predicate HasKey<K(==,!new), V>(a: seq<(K, V)>, k: K)
  {
    exists i :: 0 <= i < |a| && a[i].0 == k
  }

  /** No key occurs twice: the invariant of every PHP array. */
  predicate UniqueKeys<K(==,!new), V>(a: seq<(K, V)>)
  {
    forall i, j :: 0 <= i < j < |a| ==> a[i].0 != a[j].0
  }

  /** The keys of a concatenation are the keys of its parts. */
  lemma HasKeyConcat<K(!new), V>(a: seq<(K, V)>, b: seq<(K, V)>)
    ensures forall k :: HasKey(a + b, k) <==> HasKey(a, k) || HasKey(b, k)
  {
    forall k | HasKey(a, k) ensures HasKey(a + b, k) {
      var i :| 0 <= i < |a| && a[i].0 == k;
      assert (a + b)[i] == a[i];
    }
    forall k | HasKey(a + b, k) ensures HasKey(a, k) || HasKey(b, k) {
      var i :| 0 <= i < |a + b| && (a + b)[i].0 == k;
      if i >= |a| {
        assert b[i - |a|].0 == k;
      }
    }
    forall k | HasKey(b, k) ensures HasKey(a + b, k) {
      var i :| 0 <= i < |b| && b[i].0 == k;
      assert (a + b)[|a| + i] == b[i];
    }
  }

  /** Dropping the first entry of an array keeps its keys unique, and the
      first key does not occur again. */
  lemma UniqueKeysTail<K(!new), V>(a: seq<(K, V)>)
    requires UniqueKeys(a) && |a| > 0
    ensures UniqueKeys(a[1..]) && !HasKey(a[1..], a[0].0)
  {
    forall i, j | 0 <= i < j < |a[1..]| ensures a[1..][i].0 != a[1..][j].0 {
      assert a[1..][i] == a[i + 1] && a[1..][j] == a[j + 1];
    }
  }

  /** Appending an entry with a new key keeps the keys unique. */
  lemma UniqueKeysAppend<K(!new), V>(a: seq<(K, V)>, e: (K, V))
    requires UniqueKeys(a) && !HasKey(a, e.0)
    ensures UniqueKeys(a + [e])
  {
    forall i, j | 0 <= i < j < |a + [e]| ensures (a + [e])[i].0 != (a + [e])[j].0 {
      assert (a + [e])[i] == a[i];
      if j < |a| {
        assert (a + [e])[j] == a[j];
      }
    }
  }

  /** The key-to-value table of an array. */
  function ToMap<K(==,!new), V>(a: seq<(K, V)>): (m: map<K, V>)
    ensures forall k :: k in m <==> HasKey(a, k)
    decreases |a|
  {
    if |a| == 0 then map[]
    else
      HasKeyConcat(a[..1], a[1..]);
      assert a[..1] + a[1..] == a;
      ToMap(a[1..])[a[0].0 := a[0].1]
  }

  /** In an array with unique keys, the table maps each entry's key to that
      entry's value. */
  lemma {:induction false} ToMapAt<K(!new), V>(a: seq<(K, V)>, i: nat)
    requires UniqueKeys(a)
    requires i < |a|
    ensures a[i].0 in ToMap(a) && ToMap(a)[a[i].0] == a[i].1
  {
    if i > 0 {
      UniqueKeysTail(a);
      ToMapAt(a[1..], i - 1);
      assert a[1..][i - 1] == a[i];
    }
  }

  /** Appending an entry with a new key adds exactly that entry to the table. */
  lemma {:induction false} ToMapAppend<K(!new), V>(a: seq<(K, V)>, e: (K, V))
    requires !HasKey(a, e.0)
    ensures ToMap(a + [e]) == ToMap(a)[e.0 := e.1]
    decreases |a|
  {
    if |a| == 0 {
      assert [e][1..] == [];
    } else {
      assert (a + [e])[1..] == a[1..] + [e];
      HasKeyConcat(a[..1], a[1..]);
      assert a[..1] + a[1..] == a;
      ToMapAppend(a[1..], e);
    }
  }

  /** An array with unique keys has as many entries as its table. */
  lemma {:induction false} ToMapSize<K(!new), V>(a: seq<(K, V)>)
    requires UniqueKeys(a)
    ensures |ToMap(a)| == |a|
    decreases |a|
  {
    if |a| > 0 {
      UniqueKeysTail(a);
      ToMapSize(a[1..]);
    }
  }

  /** `left + right` on arrays, as PHP evaluates it: the right operand's
      entries are visited in order and each one whose key is missing so far is
      appended. The left operand comes first, entry for entry. */
  function UnionOrdered<K(==,!new), V>(left: seq<(K, V)>, right: seq<(K, V)>): (r: seq<(K, V)>)
    ensures left <= r
    ensures |r| <= |left| + |right|
    decreases |right|
  {
    if |right| == 0 then left
    else
      var e := right[0];
      UnionOrdered(if HasKey(left, e.0) then left else left + [e], right[1..])
  }

  /** The keys of `left + right` are those of either operand. */
  lemma {:induction false} UnionOrderedKeys<K(!new), V>(left: seq<(K, V)>, right: seq<(K, V)>)
    ensures forall k :: HasKey(UnionOrdered(left, right), k) <==> HasKey(left, k) || HasKey(right, k)
    decreases |right|
  {
    if |right| > 0 {
      var e := right[0];
      assert right[..1] == [e] && right[..1] + right[1..] == right;
      assert forall k :: HasKey([e], k) <==> k == e.0 by {
        assert [e][0] == e;
      }
      HasKeyConcat(left, [e]);
      HasKeyConcat([e], right[1..]);
      UnionOrderedKeys(if HasKey(left, e.0) then left else left + [e], right[1..]);
    }
  }

  /** `+` of two PHP arrays is a PHP array: its keys are unique. */
  lemma {:induction false} UnionOrderedUniqueKeys<K(!new), V>(left: seq<(K, V)>, right: seq<(K, V)>)
    requires UniqueKeys(left)
    ensures UniqueKeys(UnionOrdered(left, right))
    decreases |right|
  {
    if |right| > 0 {
      var e := right[0];
      if !HasKey(left, e.0) {
        UniqueKeysAppend(left, e);
      }
      UnionOrderedUniqueKeys(if HasKey(left, e.0) then left else left + [e], right[1..]);
    }
  }

  /** The entries of `right`, in order, whose keys `left` does not have. */
  function Missing<K(==,!new), V>(left: seq<(K, V)>, right: seq<(K, V)>): (d: seq<(K, V)>)
    ensures forall i :: 0 <= i < |d| ==> d[i] in right && !HasKey(left, d[i].0)
    decreases |right|
  {
    if |right| == 0 then []
    else (if HasKey(left, right[0].0) then [] else [right[0]]) + Missing(left, right[1..])
  }

  /** Adding to `left` a key that `right` does not have leaves the entries
      `right` supplies unchanged. */
  lemma {:induction false} MissingAppendAbsent<K(!new), V>(left: seq<(K, V)>, e: (K, V), right: seq<(K, V)>)
    requires !HasKey(right, e.0)
    ensures Missing(left + [e], right) == Missing(left, right)
    decreases |right|
  {
    if |right| > 0 {
      assert right[0].0 != e.0;
      assert forall k :: HasKey([e], k) <==> k == e.0 by {
        assert [e][0] == e;
      }
      HasKeyConcat(left, [e]);
      assert !HasKey(right[1..], e.0) by {
        HasKeyConcat(right[..1], right[1..]);
        assert right[..1] + right[1..] == right;
      }
      MissingAppendAbsent(left, e, right[1..]);
    }
  }

  /** For a right operand with unique keys, `left + right` is `left` followed
      by the right operand's entries for keys `left` lacks, in their order. */
  lemma {:induction false} UnionOrderedAppendsMissing<K(!new), V>(left: seq<(K, V)>, right: seq<(K, V)>)
    requires UniqueKeys(right)
    ensures UnionOrdered(left, right) == left + Missing(left, right)
    decreases |right|
  {
    if |right| > 0 {
      var e, rest := right[0], right[1..];
      UniqueKeysTail(right);
      if !HasKey(left, e.0) {
        MissingAppendAbsent(left, e, rest);
        UnionOrderedAppendsMissing(left + [e], rest);
        assert left + [e] + Missing(left, rest) == left + ([e] + Missing(left, rest));
      } else {
        UnionOrderedAppendsMissing(left, rest);
        assert [] + Missing(left, rest) == Missing(left, rest);
      }
    }
  }

  /** The right operand adds nothing when the left already has all its keys. */
  lemma {:induction false} UnionOrderedCovered<K(!new), V>(left: seq<(K, V)>, right: seq<(K, V)>)
    requires forall i :: 0 <= i < |right| ==> HasKey(left, right[i].0)
    ensures UnionOrdered(left, right) == left
    decreases |right|
  {
    if |right| > 0 {
      assert forall i :: 0 <= i < |right[1..]| ==> right[1..][i] == right[i + 1];
      UnionOrderedCovered(left, right[1..]);
    }
  }

  /** Applying `+= right` twice gives the same array as applying it once. */
  lemma UnionOrderedIdempotent<K(!new), V>(left: seq<(K, V)>, right: seq<(K, V)>)
    ensures UnionOrdered(UnionOrdered(left, right), right) == UnionOrdered(left, right)
  {
    var u := UnionOrdered(left, right);
    UnionOrderedKeys(left, right);
    forall i | 0 <= i < |right| ensures HasKey(u, right[i].0) {
      assert HasKey(right, right[i].0);
    }
    UnionOrderedCovered(u, right);
  }

  /** `+` on arrays computes `Union` of their tables. */
  lemma {:induction false} UnionOrderedToMap<K(!new), V>(left: seq<(K, V)>, right: seq<(K, V)>)
    requires UniqueKeys(left) && UniqueKeys(right)
    ensures ToMap(UnionOrdered(left, right)) == Union(ToMap(left), ToMap(right))
    decreases |right|
  {
    if |right| > 0 {
      var e, rest := right[0], right[1..];
      UniqueKeysTail(right);
      var next := if HasKey(left, e.0) then left else left + [e];
      if !HasKey(left, e.0) {
        UniqueKeysAppend(left, e);
        ToMapAppend(left, e);
      }
      UnionOrderedToMap(next, rest);
      UnionStep(ToMap(left), ToMap(rest), e.0, e.1);
    }
  }

  // ---------------------------------------------------------------------------
  // Tables

  /** `+` on the tables of two arrays. */
  function Union<K, V>(left: map<K, V>, right: map<K, V>): (r: map<K, V>)
    ensures r.Keys == left.Keys + right.Keys
    ensures forall k {:trigger r[k]} :: k in left ==> r[k] == left[k]
    ensures forall k {:trigger r[k]} :: k in right && k !in left ==> r[k] == right[k]
  {
    left + (right - left.Keys)
  }

  /** Moving the right operand's entry for a key it otherwise lacks over to
      the left operand, where it is added only if the left lacks the key too,
      does not change the union: one step of the array walk. */
  lemma UnionStep<K, V>(left: map<K, V>, right: map<K, V>, k: K, v: V)
    requires k !in right
    ensures Union(if k in left then left else left[k := v], right) == Union(left, right[k := v])
  {
  }

  /** The union has the left's entries plus one per right key the left lacks. */
  lemma UnionSize<K, V>(left: map<K, V>, right: map<K, V>)
    ensures |Union(left, right)| == |left| + |right.Keys - left.Keys|
  {
    assert Union(left, right).Keys == left.Keys + (right.Keys - left.Keys);
  }

  /** The union is the left operand if and only if the left has every right key. */
  lemma UnionCovered<K, V>(left: map<K, V>, right: map<K, V>)
    ensures right.Keys <= left.Keys <==> Union(left, right) == left
  {
    if !(right.Keys <= left.Keys) {
      var k :| k in right.Keys && k !in left.Keys;
      assert k in Union(left, right).Keys;
    }
  }

  /** Right-biased union (Dafny's own `+` on maps, PHP's `array_merge` on
      string keys) agrees with PHP's `+` exactly when the operands agree on
      every key they share. */
  lemma UnionVersusOverride<K, V>(left: map<K, V>, right: map<K, V>)
    ensures Union(left, right) == left + right
            <==> forall k {:trigger left[k]} :: k in left && k in right ==> left[k] == right[k]
  {
    if !forall k {:trigger left[k]} :: k in left && k in right ==> left[k] == right[k] {
      var k :| k in left && k in right && left[k] != right[k];
      assert Union(left, right)[k] != (left + right)[k];
    }
  }
}
