/**
 * A plain JavaScript object used as a dictionary with string keys.
 *
 * Every key the toasters store contains a hyphen, so none of them is an
 * array-index key, and for such keys `Object.keys` lists the properties in
 * insertion order.  An object is therefore modelled as that key order plus a
 * map from keys to values.
 */
module JsObject {

  /** No key occurs twice. */
  ghost predicate Distinct(s: seq<string>) {
    forall i, j :: 0 <= i < j < |s| ==> s[i] != s[j]
  }

  datatype PlainObject<V> = PlainObject(keys: seq<string>, values: map<string, V>)

  /** Well-formed: the key order lists every own property exactly once. */
  ghost predicate Wf<V>(o: PlainObject<V>) {
    && Distinct(o.keys)
    && forall k :: k in o.values <==> k in o.keys
  }

  /** The object literal `{}`. */
  function Empty<V>(): (o: PlainObject<V>)
    ensures Wf(o) && o.keys == []
  {
    PlainObject([], map[])
  }

  /** `s` with every occurrence of `k` taken out, the rest in order. */
  function Without(s: seq<string>, k: string): seq<string>
  {
    if s == [] then []
    else Without(s[..|s| - 1], k) + (if s[|s| - 1] == k then [] else [s[|s| - 1]])
  }

  /** `o[k] = v`: an existing property keeps its place, a new one goes last. */
  function Set<V>(o: PlainObject<V>, k: string, v: V): PlainObject<V>
  {
    if k in o.values then PlainObject(o.keys, o.values[k := v])
    else PlainObject(o.keys + [k], o.values[k := v])
  }

  /** `delete o[k]`; deleting an absent property does nothing. */
  function Delete<V>(o: PlainObject<V>, k: string): PlainObject<V>
  {
    PlainObject(Without(o.keys, k), o.values - {k})
  }

  lemma DistinctInit(s: seq<string>)
    requires Distinct(s) && s != []
    ensures Distinct(s[..|s| - 1]) && s[|s| - 1] !in s[..|s| - 1]
  {
  }

  /** The members of `Without(s, k)` are those of `s` other than `k`. */
  lemma {:induction false} WithoutMembers(s: seq<string>, k: string)
    ensures forall x :: x in Without(s, k) <==> x in s && x != k
  {
    if s != [] {
      WithoutMembers(s[..|s| - 1], k);
      assert s == s[..|s| - 1] + [s[|s| - 1]];
    }
  }

  /** Removing a key that is not there leaves the sequence as it is. */
  lemma {:induction false} WithoutAbsent(s: seq<string>, k: string)
    requires k !in s
    ensures Without(s, k) == s
  {
    if s != [] {
      WithoutAbsent(s[..|s| - 1], k);
      assert s == s[..|s| - 1] + [s[|s| - 1]];
    }
  }

  /**
   * Removing the key at position `i` of a duplicate-free sequence splices
   * out exactly that position: every other key stays, in the same order.
   */
  lemma {:induction false} WithoutAt(s: seq<string>, i: nat)
    requires Distinct(s) && i < |s|
    ensures Without(s, s[i]) == s[..i] + s[i + 1..]
  {
    var init, last := s[..|s| - 1], s[|s| - 1];
    DistinctInit(s);
    assert Without(s, s[i]) == Without(init, s[i]) + (if last == s[i] then [] else [last]);
    if i == |s| - 1 {
      WithoutAbsent(init, last);
      assert s[..i] == init && s[i + 1..] == [];
    } else {
      assert init[i] == s[i];
      WithoutAt(init, i);
      assert s[..i] == init[..i];
      assert s[i + 1..] == init[i + 1..] + [last];
    }
  }

  lemma {:induction false} WithoutDistinct(s: seq<string>, k: string)
    requires Distinct(s)
    ensures Distinct(Without(s, k))
  {
    if s != [] {
      var init, last := s[..|s| - 1], s[|s| - 1];
      DistinctInit(s);
      WithoutDistinct(init, k);
      WithoutMembers(init, k);
    }
  }

  /** Without removes one key from a duplicate-free sequence when it is present, none otherwise. */
  lemma WithoutLength(s: seq<string>, k: string)
    requires Distinct(s)
    ensures |Without(s, k)| == if k in s then |s| - 1 else |s|
  {
    if k in s {
      var i :| 0 <= i < |s| && s[i] == k;
      WithoutAt(s, i);
    } else {
      WithoutAbsent(s, k);
    }
  }

  /** A well-formed object has exactly as many own properties as listed keys. */
  lemma {:induction false} WfSize<V>(o: PlainObject<V>)
    requires Wf(o)
    ensures |o.values| == |o.keys|
    decreases |o.keys|
  {
    if o.keys == [] {
      assert o.values == map[];
    } else {
      var init, last := o.keys[..|o.keys| - 1], o.keys[|o.keys| - 1];
      DistinctInit(o.keys);
      var smaller := PlainObject(init, o.values - {last});
      assert forall k :: k in o.keys <==> k in init || k == last;
      WfSize(smaller);
      assert o.values.Keys == smaller.values.Keys + {last};
    }
  }

  /**
   * Assigning a new property appends its key and keeps well-formedness;
   * assigning an existing one keeps the key order.
   */
  lemma SetWf<V>(o: PlainObject<V>, k: string, v: V)
    requires Wf(o)
    ensures Wf(Set(o, k, v))
    ensures Set(o, k, v).values == o.values[k := v]
    ensures k !in o.values ==> Set(o, k, v).keys == o.keys + [k]
    ensures k in o.values ==> Set(o, k, v).keys == o.keys
    ensures |Set(o, k, v).keys| == |o.keys| + (if k in o.values then 0 else 1)
  {
  }

  /**
   * Deleting keeps the object well-formed, takes out exactly `k` with the
   * other keys in order, lowers the count by one for a present key and
   * changes nothing for an absent one.
   */
  lemma DeleteWf<V>(o: PlainObject<V>, k: string)
    requires Wf(o)
    ensures Wf(Delete(o, k))
    ensures k !in Delete(o, k).values
    ensures forall x :: x in Delete(o, k).values <==> x in o.values && x != k
    ensures |Delete(o, k).keys| == if k in o.values then |o.keys| - 1 else |o.keys|
    ensures k !in o.values ==> Delete(o, k) == o
  {
    WithoutDistinct(o.keys, k);
    WithoutMembers(o.keys, k);
    WithoutLength(o.keys, k);
    if k !in o.values {
      WithoutAbsent(o.keys, k);
      assert o.values - {k} == o.values;
    }
  }

  /** Deleting twice is deleting once. */
  lemma DeleteIdempotent<V>(o: PlainObject<V>, k: string)
    requires Wf(o)
    ensures Delete(Delete(o, k), k) == Delete(o, k)
  {
    DeleteWf(o, k);
    DeleteWf(Delete(o, k), k);
  }

  /** Deleting a property just added to an object that lacked it restores the object. */
  lemma DeleteUndoesSet<V>(o: PlainObject<V>, k: string, v: V)
    requires Wf(o) && k !in o.values
    ensures Delete(Set(o, k, v), k) == o
  {
    var s := o.keys + [k];
    assert s[..|s| - 1] == o.keys;
    WithoutAbsent(o.keys, k);
    assert o.values[k := v] - {k} == o.values;
  }
}
