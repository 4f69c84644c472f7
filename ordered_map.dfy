/**
 * A JavaScript `Map` with string keys, held as its entries in insertion
 * order: `set` on a new key appends an entry, `set` on a present key replaces
 * the value where the entry stands, and `forEach` visits the entries in order.
 */
module OrderedMaps {
  import opened Wrappers
  import opened Text

  type Entries<V> = seq<(string, V)>

  function Keys<V>(e: Entries<V>): (ks: seq<string>)
    ensures |ks| == |e| && forall i :: 0 <= i < |e| ==> ks[i] == e[i].0
  {
    seq(|e|, i requires 0 <= i < |e| => e[i].0)
  }

  /** No key is entered twice, as in every `Map`. */
  predicate UniqueKeys<V>(e: Entries<V>) {
    Distinct(Keys(e))
  }

  /** `map.get(k)`: the value of the first entry with key `k`. */
  function Find<V>(e: Entries<V>, k: string): (r: Option<V>)
    ensures r.None? <==> k !in Keys(e)
    ensures r.Some? ==> (k, r.value) in e
  {
    if e == [] then None
    else if e[0].0 == k then Some(e[0].1)
    else
      assert Keys(e) == [e[0].0] + Keys(e[1..]);
      Find(e[1..], k)
  }

  /** `map.set(k, v)`. */
  function Put<V>(e: Entries<V>, k: string, v: V): (r: Entries<V>)
    ensures |r| == if k in Keys(e) then |e| else |e| + 1
  {
    if e == [] then [(k, v)]
    else if e[0].0 == k then [(k, v)] + e[1..]
    else
      assert Keys(e) == [e[0].0] + Keys(e[1..]);
      [e[0]] + Put(e[1..], k, v)
  }

  /** A present key keeps its place; a new key is appended. */
  lemma {:induction false} PutKeys<V>(e: Entries<V>, k: string, v: V)
    ensures Keys(Put(e, k, v)) == Add(Keys(e), k)
    decreases |e|
  {
    if e != [] {
      assert Keys(e) == [e[0].0] + Keys(e[1..]);
      if e[0].0 == k {
        assert Keys(Put(e, k, v)) == [k] + Keys(e[1..]);
      } else {
        PutKeys(e[1..], k, v);
        assert Keys(Put(e, k, v)) == [e[0].0] + Keys(Put(e[1..], k, v));
      }
    }
  }

  /** After `set(k, v)`, `get(k)` is `v` and every other key reads as before. */
  lemma {:induction false} PutFind<V>(e: Entries<V>, k: string, v: V, k': string)
    ensures Find(Put(e, k, v), k') == if k' == k then Some(v) else Find(e, k')
    decreases |e|
  {
    if e != [] && e[0].0 != k {
      PutFind(e[1..], k, v, k');
      assert Put(e, k, v)[1..] == Put(e[1..], k, v);
    }
  }

  /** Setting keeps the keys unique. */
  lemma PutUnique<V>(e: Entries<V>, k: string, v: V)
    requires UniqueKeys(e)
    ensures UniqueKeys(Put(e, k, v))
  {
    PutKeys(e, k, v);
    var ks := Keys(e);
    if k !in ks {
      forall i, j | 0 <= i < j < |ks + [k]| ensures (ks + [k])[i] != (ks + [k])[j] {
        if j == |ks| {
          assert (ks + [k])[i] == ks[i];
        } else {
          assert (ks + [k])[i] == ks[i] && (ks + [k])[j] == ks[j];
        }
      }
    }
  }

  /** The entries `pairs` set one after another. */
  function PutAll<V>(e: Entries<V>, pairs: seq<(string, V)>): Entries<V> {
    if pairs == [] then e
    else
      var last := pairs[|pairs| - 1];
      Put(PutAll(e, pairs[..|pairs| - 1]), last.0, last.1)
  }

  /** Setting several entries keeps the keys unique. */
  lemma {:induction false} PutAllUnique<V>(e: Entries<V>, pairs: seq<(string, V)>)
    requires UniqueKeys(e)
    ensures UniqueKeys(PutAll(e, pairs))
    decreases |pairs|
  {
    if pairs != [] {
      var last := pairs[|pairs| - 1];
      PutAllUnique(e, pairs[..|pairs| - 1]);
      PutUnique(PutAll(e, pairs[..|pairs| - 1]), last.0, last.1);
    }
  }

  /** The value the last pair with key `k` sets, if any. */
  function LastWith<V>(pairs: seq<(string, V)>, k: string): Option<V> {
    if pairs == [] then None
    else if pairs[|pairs| - 1].0 == k then Some(pairs[|pairs| - 1].1)
    else LastWith(pairs[..|pairs| - 1], k)
  }

  /** After setting `pairs`, a key holds what the last pair with that key set, or what it held before. */
  lemma {:induction false} PutAllFind<V>(e: Entries<V>, pairs: seq<(string, V)>, k: string)
    ensures Find(PutAll(e, pairs), k) == if LastWith(pairs, k).Some? then LastWith(pairs, k) else Find(e, k)
    decreases |pairs|
  {
    if pairs != [] {
      var last := pairs[|pairs| - 1];
      PutAllFind(e, pairs[..|pairs| - 1], k);
      PutFind(PutAll(e, pairs[..|pairs| - 1]), last.0, last.1, k);
    }
  }

  /** Keys keep their first position; new keys follow in the order they are first set. */
  lemma {:induction false} PutAllKeys<V>(e: Entries<V>, pairs: seq<(string, V)>)
    ensures Keys(PutAll(e, pairs)) == AddAll(Keys(e), Keys(pairs))
    decreases |pairs|
  {
    if pairs != [] {
      var init := pairs[..|pairs| - 1];
      var last := pairs[|pairs| - 1];
      PutAllKeys(e, init);
      assert Keys(pairs) == Keys(init) + [last.0];
      AddAllSnoc(Keys(e), Keys(init), last.0);
      PutKeys(PutAll(e, init), last.0, last.1);
    }
  }

  /** With unique keys, an entry's value is what `get` returns for its key. */
  lemma {:induction false} FindUnique<V>(e: Entries<V>, k: string, v: V)
    requires UniqueKeys(e) && (k, v) in e
    ensures Find(e, k) == Some(v)
    decreases |e|
  {
    var i :| 0 <= i < |e| && e[i] == (k, v);
    assert forall j :: 0 < j < |e| ==> Keys(e)[j] != Keys(e)[0];
    if e[0].0 != k {
      assert e[1..][i - 1] == e[i];
      assert Keys(e[1..]) == Keys(e)[1..];
      FindUnique(e[1..], k, v);
    }
  }

  /** Every entry after `set(k, v)` was there before or is the one set. */
  lemma {:induction false} PutFrom<V>(e: Entries<V>, k: string, v: V, p: (string, V))
    requires p in Put(e, k, v)
    ensures p in e || p == (k, v)
    decreases |e|
  {
    if e != [] && e[0].0 != k && p != e[0] {
      assert p in Put(e[1..], k, v);
      PutFrom(e[1..], k, v, p);
    }
  }

  /** Every entry after setting `pairs` was there before or is one of the pairs. */
  lemma {:induction false} PutAllFrom<V>(e: Entries<V>, pairs: seq<(string, V)>, p: (string, V))
    requires p in PutAll(e, pairs)
    ensures p in e || p in pairs
    decreases |pairs|
  {
    if pairs != [] {
      var init := pairs[..|pairs| - 1];
      var last := pairs[|pairs| - 1];
      PutFrom(PutAll(e, init), last.0, last.1, p);
      if p != last {
        PutAllFrom(e, init, p);
        assert p in e || p in init;
      }
    }
  }
}
