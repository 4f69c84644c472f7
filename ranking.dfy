/**
 * What the tag queries of scripts/tag-system.mjs use to rank and cut their
 * results: `Array.prototype.sort` with a comparator that orders by a key
 * descending (the sort is stable, so ties keep their order), and
 * `Array.prototype.slice(0, limit)`, which counts a negative limit from the end.
 */
module Ranking {

  /** Key `a` ranks strictly above key `b`: first components compared, then second ones. */
  predicate Above(a: (int, int), b: (int, int)) {
    a.0 > b.0 || (a.0 == b.0 && a.1 > b.1)
  }

  /** No element ranks above one before it. */
  predicate Ranked<T>(s: seq<T>, key: T -> (int, int)) {
    forall i, j :: 0 <= i < j < |s| ==> !Above(key(s[j]), key(s[i]))
  }

  /** Puts `x` in front of the first element that does not rank above it. */
  function Insert<T>(x: T, s: seq<T>, key: T -> (int, int)): (r: seq<T>)
    ensures multiset(r) == multiset(s) + multiset{x}
  {
    if s == [] || !Above(key(s[0]), key(x)) then [x] + s
    else
      assert s == [s[0]] + s[1..];
      [s[0]] + Insert(x, s[1..], key)
  }

  /** Inserting into a ranked sequence keeps it ranked. */
  lemma {:induction false} InsertRanked<T>(x: T, s: seq<T>, key: T -> (int, int))
    requires Ranked(s, key)
    ensures Ranked(Insert(x, s, key), key)
    decreases |s|
  {
    var r := Insert(x, s, key);
    if s == [] || !Above(key(s[0]), key(x)) {
      forall j | 0 < j < |r| ensures !Above(key(r[j]), key(r[0])) {
        assert r[j] == s[j - 1];
      }
    } else {
      var rest := Insert(x, s[1..], key);
      InsertRanked(x, s[1..], key);
      assert r == [s[0]] + rest;
      forall j | 0 < j < |r| ensures !Above(key(r[j]), key(r[0])) {
        assert r[j] in multiset(rest);
        assert r[j] == x || r[j] in s[1..];
      }
    }
  }

  /**
   * `s.sort((a, b) => key(b) - key(a))`: the elements of `s` ranked by `key`, highest first;
   * elements of equal key stay in the order they had.
   */
  function SortDesc<T>(s: seq<T>, key: T -> (int, int)): (r: seq<T>)
    ensures multiset(r) == multiset(s)
    ensures Ranked(r, key)
  {
    if s == [] then []
    else
      var rest := SortDesc(s[1..], key);
      InsertRanked(s[0], rest, key);
      assert s == [s[0]] + s[1..];
      Insert(s[0], rest, key)
  }

  /** Where `slice(0, limit)` ends. */
  function SliceEnd(n: nat, limit: int): (e: nat)
    ensures e <= n
    ensures limit >= 0 ==> e <= limit
  {
    if limit < 0 then (if n + limit < 0 then 0 else n + limit)
    else if limit < n then limit else n
  }

  /** `s.slice(0, limit)`: at most `limit` leading elements, or all but the last `-limit`. */
  function Slice<T>(s: seq<T>, limit: int): (r: seq<T>)
    ensures limit >= 0 ==> |r| == if limit < |s| then limit else |s|
    ensures limit < 0 ==> |r| == if |s| + limit < 0 then 0 else |s| + limit
    ensures r == s[..|r|]
  {
    s[..SliceEnd(|s|, limit)]
  }
}
