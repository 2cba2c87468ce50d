/**
 An insertion-ordered dictionary, as Python's `dict` behaves: a sequence of
 key/value pairs with distinct keys. Assigning `d[k] = v` to a key already
 present replaces its value where it stands; assigning to a new key appends it.
 */
module OrderedDict {
  import opened PyStrings

  type Dict<K, V> = seq<(K, V)>

  /** The keys of `d`, in iteration order. */
  function Keys<K, V>(d: Dict<K, V>): (r: seq<K>)
    ensures |r| == |d|
    ensures forall i :: 0 <= i < |d| ==> r[i] == d[i].0
  {
    seq(|d|, i requires 0 <= i < |d| => d[i].0)
  }

  predicate DistinctKeys<K(==), V>(d: Dict<K, V>) {
    forall i, j :: 0 <= i < j < |d| ==> d[i].0 != d[j].0
  }

  /** The index of the first occurrence of `k` in `ks`. */
  function FindKey<K(==)>(ks: seq<K>, k: K): (r: Option<nat>)
    ensures r.Some? <==> k in ks
    ensures r.Some? ==> r.value < |ks| && ks[r.value] == k && k !in ks[..r.value]
  {
    if ks == [] then None
    else if ks[0] == k then Some(0)
    else match FindKey(ks[1..], k)
      case None => None
      case Some(i) =>
        assert ks[..i + 1] == [ks[0]] + ks[1..][..i];
        Some(i + 1)
  }

  /** An index holding `k` with no `k` before it is the one `FindKey` finds. */
  lemma FindKeyIsFirst<K>(ks: seq<K>, k: K, i: nat)
    requires i < |ks| && ks[i] == k && k !in ks[..i]
    ensures FindKey(ks, k) == Some(i)
  {
  }

  /** The value stored for `k`, if `k` is a key. */
  function Get<K(==), V>(d: Dict<K, V>, k: K): (r: Option<V>)
    ensures r.Some? <==> k in Keys(d)
  {
    match FindKey(Keys(d), k)
    case None => None
    case Some(i) => Some(d[i].1)
  }

  /** `d[k] = v`: an existing key keeps its position and takes the new value;
      a new key goes to the end. */
  function Upsert<K(==,!new), V>(d: Dict<K, V>, k: K, v: V): (r: Dict<K, V>)
    ensures Keys(r) == if k in Keys(d) then Keys(d) else Keys(d) + [k]
    ensures Get(r, k) == Some(v)
    ensures forall k' :: k' != k ==> Get(r, k') == Get(d, k')
    ensures DistinctKeys(d) ==> DistinctKeys(r)
  {
    match FindKey(Keys(d), k)
    case Some(i) =>
      var r := d[i := (k, v)];
      assert Keys(r) == Keys(d);
      r
    case None =>
      var r := d + [(k, v)];
      assert Keys(r) == Keys(d) + [k];
      forall k' | k' != k
        ensures Get(r, k') == Get(d, k')
      {
        if k' in Keys(d) {
          var j := FindKey(Keys(d), k').value;
          assert Keys(r)[..j] == Keys(d)[..j];
          FindKeyIsFirst(Keys(r), k', j);
        }
      }
      FindKeyIsFirst(Keys(r), k, |d|);
      r
  }

  /** A sequence of assignments `d[k] = v` carried out in order. */
  function UpsertAll<K(==,!new), V>(d: Dict<K, V>, writes: seq<(K, V)>): Dict<K, V> {
    if writes == [] then d
    else
      var last := writes[|writes| - 1];
      Upsert(UpsertAll(d, writes[..|writes| - 1]), last.0, last.1)
  }

  /** A single write is one assignment. */
  lemma UpsertAllOne<K(!new), V>(d: Dict<K, V>, a: (K, V))
    ensures UpsertAll(d, [a]) == Upsert(d, a.0, a.1)
  {
    assert [a][..0] == [];
  }

  /** Two writes are two assignments, in order. */
  lemma UpsertAllTwo<K(!new), V>(d: Dict<K, V>, a: (K, V), b: (K, V))
    ensures UpsertAll(d, [a, b]) == Upsert(Upsert(d, a.0, a.1), b.0, b.1)
  {
    assert [a, b][..1] == [a];
    UpsertAllOne(d, a);
  }

  /** The keys of `ks` in order of first appearance: a later repeat adds nothing. */
  function Dedup<K(==)>(ks: seq<K>): seq<K> {
    if ks == [] then []
    else
      var earlier := Dedup(ks[..|ks| - 1]);
      if ks[|ks| - 1] in earlier then earlier else earlier + [ks[|ks| - 1]]
  }

  /** The value of the last write to `k`, if any. */
  function LastWrite<K(==), V>(writes: seq<(K, V)>, k: K): Option<V> {
    if writes == [] then None
    else if writes[|writes| - 1].0 == k then Some(writes[|writes| - 1].1)
    else LastWrite(writes[..|writes| - 1], k)
  }

  /** Splitting the writes in two does not change the outcome. */
  lemma {:induction false} UpsertAllAppend<K(!new), V>(d: Dict<K, V>, w1: seq<(K, V)>, w2: seq<(K, V)>)
    ensures UpsertAll(d, w1 + w2) == UpsertAll(UpsertAll(d, w1), w2)
    decreases |w2|
  {
    if w2 == [] {
      assert w1 + w2 == w1;
    } else {
      var w2' := w2[..|w2| - 1];
      assert (w1 + w2)[..|w1 + w2| - 1] == w1 + w2';
      UpsertAllAppend(d, w1, w2');
    }
  }

  /** Starting from an empty dictionary, the keys end up in order of first write,
      each key once, and every key reads back the last value written to it. */
  lemma {:induction false} UpsertAllFromEmpty<K(!new), V>(writes: seq<(K, V)>)
    ensures Keys(UpsertAll([], writes)) == Dedup(Keys(writes))
    ensures DistinctKeys(UpsertAll([], writes))
    ensures forall k :: Get(UpsertAll([], writes), k) == LastWrite(writes, k)
  {
    if writes != [] {
      var w' := writes[..|writes| - 1];
      UpsertAllFromEmpty(w');
      assert Keys(writes)[..|writes| - 1] == Keys(w');
    }
  }

  /** `Dedup` keeps exactly the keys written, each once. */
  lemma {:induction false} DedupProperties<K>(ks: seq<K>)
    ensures forall k :: k in Dedup(ks) <==> k in ks
    ensures forall i, j :: 0 <= i < j < |Dedup(ks)| ==> Dedup(ks)[i] != Dedup(ks)[j]
  {
    if ks != [] {
      var ks' := ks[..|ks| - 1];
      DedupProperties(ks');
      assert ks == ks' + [ks[|ks| - 1]];
    }
  }
}
