/**
 * Python's insertion-ordered `dict`, as a sequence of key/value pairs.
 * A key keeps the position where it was first inserted; assigning to an
 * existing key overwrites its value in place.
 */
module OrderedMap {

  /** The keys of `t`, in order. */
  function Keys<K, V>(t: seq<(K, V)>): seq<K>
  {
    seq(|t|, i requires 0 <= i < |t| => t[i].0)
  }

  /** No key occurs twice: the invariant of every Python dict. */
  predicate DistinctKeys<K(==), V>(t: seq<(K, V)>)
  {
    forall i, j :: 0 <= i < j < |t| ==> t[i].0 != t[j].0
  }

  /** Position of the first pair whose key is `k`. */
  function FirstIndex<K(==), V>(t: seq<(K, V)>, k: K): (i: nat)
    requires k in Keys(t)
    ensures i < |t| && t[i].0 == k
    ensures forall j :: 0 <= j < i ==> t[j].0 != k
  {
    if t[0].0 == k then 0
    else
      assert forall m :: 1 <= m < |t| ==> Keys(t[1..])[m - 1] == Keys(t)[m];
      FirstIndex(t[1..], k) + 1
  }

  /** The value carried by the last pair whose key is `k`. */
  function LastValue<K(==), V>(t: seq<(K, V)>, k: K): V
    requires k in Keys(t)
  {
    if t[|t| - 1].0 == k then t[|t| - 1].1
    else
      assert forall m :: 0 <= m < |t| - 1 ==> Keys(t[..|t| - 1])[m] == Keys(t)[m];
      LastValue(t[..|t| - 1], k)
  }

  /** `d[k] = v`. */
  function Put<K(==), V>(t: seq<(K, V)>, k: K, v: V): (r: seq<(K, V)>)
    ensures DistinctKeys(t) ==> DistinctKeys(r)
    ensures k in Keys(t) ==> Keys(r) == Keys(t)
    ensures k !in Keys(t) ==> Keys(r) == Keys(t) + [k]
    ensures forall i :: 0 <= i < |t| && t[i].0 != k ==> r[i] == t[i]
    ensures k in Keys(r) && r[FirstIndex(r, k)] == (k, v)
  {
    assert forall i :: 0 <= i < |t| ==> Keys(t)[i] == t[i].0;
    if k in Keys(t) then t[FirstIndex(t, k) := (k, v)] else t + [(k, v)]
  }

  /**
   * `dict(pairs)`, and equally `{key: value for ...}`: a later pair with the
   * same key overwrites the value of an earlier one and keeps its position.
   */
  function FromPairs<K(==), V>(ps: seq<(K, V)>): (r: seq<(K, V)>)
    ensures DistinctKeys(r)
    ensures forall i :: 0 <= i < |r| ==> r[i].0 in Keys(ps)
    ensures forall i :: 0 <= i < |ps| ==> ps[i].0 in Keys(r)
  {
    if ps == [] then []
    else
      var init := ps[..|ps| - 1];
      assert forall m :: 0 <= m < |ps| - 1 ==> Keys(init)[m] == Keys(ps)[m];
      assert Keys(ps) == Keys(init) + [ps[|ps| - 1].0];
      Put(FromPairs(init), ps[|ps| - 1].0, ps[|ps| - 1].1)
  }

  /** Every value kept by `dict(pairs)` is the one the last pair with that key carried. */
  lemma {:induction false} FromPairsLastValue<K, V>(ps: seq<(K, V)>, i: nat)
    requires i < |FromPairs(ps)|
    ensures FromPairs(ps)[i].0 in Keys(ps)
    ensures FromPairs(ps)[i].1 == LastValue(ps, FromPairs(ps)[i].0)
  {
    var r := FromPairs(ps);
    var init := ps[..|ps| - 1];
    var p := ps[|ps| - 1];
    var d := FromPairs(init);
    if r[i].0 != p.0 {
      PutOtherKey(d, p.0, p.1, i);
      FromPairsLastValue(init, i);
      LastValueOfPrefix(ps, d[i].0);
    } else {
      FirstIndexIsFirst(r, p.0, i);
      assert Keys(ps)[|ps| - 1] == p.0;
    }
  }

  /** The last value of a key that the last pair does not carry is found before it. */
  lemma {:induction false} LastValueOfPrefix<K, V>(t: seq<(K, V)>, k: K)
    requires t != [] && t[|t| - 1].0 != k && k in Keys(t[..|t| - 1])
    ensures k in Keys(t) && LastValue(t, k) == LastValue(t[..|t| - 1], k)
  {
    FirstIndexOfPrefix(t, k);
  }

  /** A pair of `d[k] = v` under another key was already in `d`, at the same place. */
  lemma {:induction false} PutOtherKey<K, V>(t: seq<(K, V)>, k: K, v: V, i: nat)
    requires i < |Put(t, k, v)| && Put(t, k, v)[i].0 != k
    ensures i < |t| && Put(t, k, v)[i] == t[i]
  {
  }

  /** The value `LastValue` finds is carried by a pair with that key. */
  lemma {:induction false} LastValueAt<K, V>(t: seq<(K, V)>, k: K) returns (j: nat)
    requires k in Keys(t)
    ensures j < |t| && t[j] == (k, LastValue(t, k))
  {
    if t[|t| - 1].0 == k {
      j := |t| - 1;
    } else {
      assert forall m :: 0 <= m < |t| - 1 ==> Keys(t[..|t| - 1])[m] == Keys(t)[m];
      j := LastValueAt(t[..|t| - 1], k);
    }
  }

  /** `dict(pairs)` lists its keys in the order in which they were first seen. */
  lemma {:induction false} FromPairsFirstSeen<K, V>(ps: seq<(K, V)>, i: nat, j: nat)
    requires i < j < |FromPairs(ps)|
    ensures FromPairs(ps)[i].0 in Keys(ps) && FromPairs(ps)[j].0 in Keys(ps)
    ensures FirstIndex(ps, FromPairs(ps)[i].0) < FirstIndex(ps, FromPairs(ps)[j].0)
  {
    var r := FromPairs(ps);
    var init := ps[..|ps| - 1];
    var p := ps[|ps| - 1];
    var d := FromPairs(init);
    assert Keys(r)[i] == r[i].0 && Keys(r)[j] == r[j].0;
    assert Keys(d)[i] == d[i].0;
    if j < |d| {
      assert Keys(d)[j] == d[j].0;
      FromPairsFirstSeen(init, i, j);
      FirstIndexOfPrefix(ps, d[i].0);
      FirstIndexOfPrefix(ps, d[j].0);
    } else {
      AppendedKeyComesLast(ps, i);
    }
  }

  /** Dropping the last pair does not move the first occurrence of a key seen before. */
  lemma {:induction false} FirstIndexOfPrefix<K, V>(t: seq<(K, V)>, k: K)
    requires t != [] && k in Keys(t[..|t| - 1])
    ensures k in Keys(t) && FirstIndex(t, k) == FirstIndex(t[..|t| - 1], k)
  {
    assert t == t[..|t| - 1] + [t[|t| - 1]];
    FirstIndexSnoc(t[..|t| - 1], t[|t| - 1], k);
  }

  /** Appending a pair does not move the first occurrence of a key already present. */
  lemma {:induction false} FirstIndexSnoc<K, V>(t: seq<(K, V)>, p: (K, V), k: K)
    requires k in Keys(t)
    ensures k in Keys(t + [p]) && FirstIndex(t + [p], k) == FirstIndex(t, k)
  {
    var u := t + [p];
    var b := FirstIndex(t, k);
    assert Keys(u)[b] == k;
    var a := FirstIndex(u, k);
    assert u[b] == t[b];
  }

  /** A key that the last pair adds comes after every key seen before it. */
  lemma {:induction false} AppendedKeyComesLast<K, V>(ps: seq<(K, V)>, i: nat)
    requires ps != [] && ps[|ps| - 1].0 !in Keys(FromPairs(ps[..|ps| - 1]))
    requires i < |FromPairs(ps[..|ps| - 1])|
    ensures FromPairs(ps[..|ps| - 1])[i].0 in Keys(ps) && ps[|ps| - 1].0 in Keys(ps)
    ensures FirstIndex(ps, FromPairs(ps[..|ps| - 1])[i].0) < FirstIndex(ps, ps[|ps| - 1].0)
  {
    var init := ps[..|ps| - 1];
    var k := FromPairs(init)[i].0;
    assert k in Keys(init);
    FirstIndexOfPrefix(ps, k);
    assert ps[|ps| - 1].0 !in Keys(init) by {
      if ps[|ps| - 1].0 in Keys(init) {
        KeysOfFromPairs(init, ps[|ps| - 1].0);
      }
    }
    FirstIndexOfNewLast(ps);
  }

  /** `dict(pairs)` holds every key of `pairs`. */
  lemma {:induction false} KeysOfFromPairs<K, V>(ps: seq<(K, V)>, k: K)
    requires k in Keys(ps)
    ensures k in Keys(FromPairs(ps))
  {
    var m := FirstIndex(ps, k);
    assert ps[m].0 in Keys(FromPairs(ps));
  }

  /** A key met for the first time in the last pair is first found there. */
  lemma {:induction false} FirstIndexOfNewLast<K, V>(t: seq<(K, V)>)
    requires t != [] && t[|t| - 1].0 !in Keys(t[..|t| - 1])
    ensures t[|t| - 1].0 in Keys(t) && FirstIndex(t, t[|t| - 1].0) == |t| - 1
  {
    assert Keys(t)[|t| - 1] == t[|t| - 1].0;
    assert forall m :: 0 <= m < |t| - 1 ==> Keys(t[..|t| - 1])[m] == t[m].0;
    FirstIndexIsFirst(t, t[|t| - 1].0, |t| - 1);
  }

  /** The first position holding a key is `FirstIndex`. */
  lemma {:induction false} FirstIndexIsFirst<K, V>(t: seq<(K, V)>, k: K, a: nat)
    requires a < |t| && t[a].0 == k
    requires forall j :: 0 <= j < a ==> t[j].0 != k
    ensures k in Keys(t) && FirstIndex(t, k) == a
  {
    assert Keys(t)[a] == k;
  }

  /** On pairs whose keys are already distinct, `dict(pairs)` changes nothing. */
  lemma {:induction false} FromPairsOfDistinct<K, V>(ps: seq<(K, V)>)
    requires DistinctKeys(ps)
    ensures FromPairs(ps) == ps
  {
    if ps != [] {
      var init := ps[..|ps| - 1];
      var p := ps[|ps| - 1];
      DistinctPrefix(ps);
      FromPairsOfDistinct(init);
      PutNewKey(init, p.0, p.1);
      assert init + [p] == ps;
    }
  }

  /** Without its last pair, a list of distinct keys stays distinct and lacks that key. */
  lemma {:induction false} DistinctPrefix<K, V>(ps: seq<(K, V)>)
    requires DistinctKeys(ps) && ps != []
    ensures DistinctKeys(ps[..|ps| - 1]) && ps[|ps| - 1].0 !in Keys(ps[..|ps| - 1])
  {
    var init := ps[..|ps| - 1];
    assert forall m :: 0 <= m < |init| ==> init[m] == ps[m] && Keys(init)[m] == ps[m].0;
  }

  /** Assigning to a new key appends the pair. */
  lemma {:induction false} PutNewKey<K, V>(t: seq<(K, V)>, k: K, v: V)
    requires k !in Keys(t)
    ensures Put(t, k, v) == t + [(k, v)]
  {
  }
}
