/**
 * Plain JavaScript objects used as dictionaries (`Record<string, V>`).
 * An object is an ordered list of (key, value) pairs: JavaScript keeps the
 * insertion order of string keys, and `Object.values`, `Object.entries` and
 * `for ... in` observe it. Assigning to an existing key keeps its position;
 * assigning to a new key appends it.
 */
module Records {
  import opened Wrappers

  type Record<V> = seq<(string, V)>

  /** The keys of `r`, in order. */
  function Keys<V>(r: Record<V>): (ks: seq<string>)
    ensures |ks| == |r|
    ensures forall i :: 0 <= i < |r| ==> ks[i] == r[i].0
  {
    if |r| == 0 then [] else [r[0].0] + Keys(r[1..])
  }

  /** The values of `r`, in order (`Object.values`). */
  function Values<V>(r: Record<V>): (vs: seq<V>)
    ensures |vs| == |r|
    ensures forall i :: 0 <= i < |r| ==> vs[i] == r[i].1
  {
    if |r| == 0 then [] else [r[0].1] + Values(r[1..])
  }

  /** A JavaScript object never holds the same key twice. */
  predicate DistinctKeys<V>(r: Record<V>) {
    forall i, j :: 0 <= i < j < |r| ==> r[i].0 != r[j].0
  }

  /** Property read `r[k]`: the value stored under `k`, or None when `k` is missing. */
  function Lookup<V>(r: Record<V>, k: string): Option<V> {
    if |r| == 0 then None
    else if r[0].0 == k then Some(r[0].1)
    else Lookup(r[1..], k)
  }

  /** Property assignment `r[k] = v` (also `{...r, [k]: v}`). */
  function Put<V>(r: Record<V>, k: string, v: V): Record<V> {
    if |r| == 0 then [(k, v)]
    else if r[0].0 == k then [(k, v)] + r[1..]
    else [r[0]] + Put(r[1..], k, v)
  }

  /** `Object.fromEntries(ks.map(k => [k, v]))`: every key of `ks` mapped to `v`. */
  function FromKeys<V>(ks: seq<string>, v: V): Record<V> {
    FromKeysInto([], ks, v)
  }

  function FromKeysInto<V>(acc: Record<V>, ks: seq<string>, v: V): Record<V>
    decreases |ks|
  {
    if |ks| == 0 then acc else FromKeysInto(Put(acc, ks[0], v), ks[1..], v)
  }

  /** A record maps `k` to a value exactly when `k` is one of its keys. */
  lemma {:induction false} LookupSomeIffKey<V>(r: Record<V>, k: string)
    ensures Lookup(r, k).Some? <==> k in Keys(r)
  {
    if |r| > 0 {
      LookupSomeIffKey(r[1..], k);
      assert Keys(r) == [r[0].0] + Keys(r[1..]);
    }
  }

  /** The value found under a key is the one stored with its first occurrence. */
  lemma {:induction false} LookupAt<V>(r: Record<V>, i: nat)
    requires i < |r| && DistinctKeys(r)
    ensures Lookup(r, r[i].0) == Some(r[i].1)
  {
    if i > 0 {
      LookupAt(r[1..], i - 1);
    }
  }

  /** Reading back after an assignment: the assigned key has the new value, every other key its old one. */
  lemma {:induction false} LookupPut<V>(r: Record<V>, k: string, v: V, k': string)
    ensures Lookup(Put(r, k, v), k') == if k' == k then Some(v) else Lookup(r, k')
  {
    if |r| > 0 && r[0].0 != k {
      LookupPut(r[1..], k, v, k');
    }
  }

  /** Assignment keeps the key order and appends a new key at the end. */
  lemma {:induction false} KeysPut<V>(r: Record<V>, k: string, v: V)
    ensures Keys(Put(r, k, v)) == if k in Keys(r) then Keys(r) else Keys(r) + [k]
  {
    if |r| > 0 {
      if r[0].0 != k {
        KeysPut(r[1..], k, v);
        assert Keys(r) == [r[0].0] + Keys(r[1..]);
        assert Keys(Put(r, k, v)) == [r[0].0] + Keys(Put(r[1..], k, v));
      } else {
        assert Keys(Put(r, k, v)) == [k] + Keys(r[1..]);
        assert Keys(r) == [k] + Keys(r[1..]);
      }
    }
  }

  /** Assignment never duplicates a key. */
  lemma {:induction false} PutDistinct<V>(r: Record<V>, k: string, v: V)
    requires DistinctKeys(r)
    ensures DistinctKeys(Put(r, k, v))
  {
    var p := Put(r, k, v);
    KeysPut(r, k, v);
    var ks := Keys(p);
    forall i, j | 0 <= i < j < |p| ensures p[i].0 != p[j].0 {
      assert ks[i] == p[i].0 && ks[j] == p[j].0;
      if k in Keys(r) {
        assert Keys(r)[i] == r[i].0 && Keys(r)[j] == r[j].0;
      } else if j < |r| {
        assert Keys(r)[i] == r[i].0 && Keys(r)[j] == r[j].0;
      } else {
        assert ks[i] == Keys(r)[i] == r[i].0;
        assert ks[j] == k;
      }
    }
  }

  /** Assignment adds its key, keeps every other key, and keeps the keys distinct. */
  lemma PutKeys<V>(r: Record<V>, k: string, v: V)
    ensures k in Keys(Put(r, k, v))
    ensures forall k' :: k' in Keys(r) ==> k' in Keys(Put(r, k, v))
    ensures DistinctKeys(r) ==> DistinctKeys(Put(r, k, v))
  {
    KeysPut(r, k, v);
    if DistinctKeys(r) {
      PutDistinct(r, k, v);
    }
  }

  /** `FromKeys` gives each listed key, once, the common value, and no other key. */
  lemma {:induction false} FromKeysIntoSpec<V>(acc: Record<V>, ks: seq<string>, v: V)
    requires DistinctKeys(acc)
    ensures DistinctKeys(FromKeysInto(acc, ks, v))
    ensures forall k :: k in Keys(FromKeysInto(acc, ks, v)) <==> k in Keys(acc) || k in ks
    ensures forall k :: k in ks ==> Lookup(FromKeysInto(acc, ks, v), k) == Some(v)
    ensures forall k :: k !in ks ==> Lookup(FromKeysInto(acc, ks, v), k) == Lookup(acc, k)
    decreases |ks|
  {
    if |ks| > 0 {
      var acc' := Put(acc, ks[0], v);
      PutDistinct(acc, ks[0], v);
      KeysPut(acc, ks[0], v);
      forall k ensures Lookup(acc', k) == if k == ks[0] then Some(v) else Lookup(acc, k) {
        LookupPut(acc, ks[0], v, k);
      }
      FromKeysIntoSpec(acc', ks[1..], v);
      assert ks == [ks[0]] + ks[1..];
    }
  }

  /** Assigning a key the object does not have appends it at the end. */
  lemma {:induction false} PutNew<V>(r: Record<V>, k: string, v: V)
    requires k !in Keys(r)
    ensures Put(r, k, v) == r + [(k, v)]
  {
    if |r| > 0 {
      assert Keys(r) == [r[0].0] + Keys(r[1..]);
      PutNew(r[1..], k, v);
      assert r == [r[0]] + r[1..];
    }
  }

  /** Re-assigning a key the value it already holds changes nothing. */
  lemma {:induction false} PutLookup<V>(r: Record<V>, k: string)
    requires Lookup(r, k).Some?
    ensures Put(r, k, Lookup(r, k).value) == r
  {
    if r[0].0 != k {
      PutLookup(r[1..], k);
      assert r == [r[0]] + r[1..];
    } else {
      assert r == [r[0]] + r[1..];
    }
  }

  /** Of two assignments to the same key, the second wins. */
  lemma {:induction false} PutPut<V>(r: Record<V>, k: string, a: V, b: V)
    ensures Put(Put(r, k, a), k, b) == Put(r, k, b)
  {
    if |r| > 0 && r[0].0 != k {
      PutPut(r[1..], k, a, b);
    }
  }

  lemma KeysAppend<V>(r: Record<V>, e: (string, V))
    ensures Keys(r + [e]) == Keys(r) + [e.0]
  {
  }
}
