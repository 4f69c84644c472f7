/**
 * The per-base slug counter: `SlugGenerator.generate` of scripts/utils.mjs,
 * `SlugGenerator::generate` of scripts/Utils.php, and `uniqueSlug` over the
 * module-level `slugCounter` of scripts/build-index.mjs and
 * scripts/build-index.php. All four keep a map from base to the last suffix
 * handed out: the first request for a base returns the base itself and
 * records 0, every later request increments the entry and returns
 * `base-<n>`.
 */
module SlugAllocation {
  import opened Text

  /** Per base, the last suffix handed out (0 once the bare base has been returned). */
  type Counter = map<string, nat>

  /** `${base}-${n}` / `$base . '-' . $n`. */
  function Suffixed(base: string, n: nat): (r: string)
    ensures |r| > |base| + 1 && r[..|base|] == base && r[|base|] == '-'
  {
    base + "-" + NatToString(n)
  }

  /** One request for `base`: the slug handed out and the counter afterwards. */
  function Allocate(counter: Counter, base: string): (r: (string, Counter))
    ensures r.1.Keys == counter.Keys + {base}
    ensures forall b :: b in counter && b != base ==> r.1[b] == counter[b]
    ensures r.0 == (if r.1[base] == 0 then base else Suffixed(base, r.1[base]))
    ensures base in counter ==> r.1[base] == counter[base] + 1
    ensures base !in counter ==> r.1[base] == 0
  {
    if base !in counter then (base, counter[base := 0])
    else
      var n := counter[base] + 1;
      (Suffixed(base, n), counter[base := n])
  }

  /** A generator object: the counter it holds is its whole state. */
  class SlugGenerator {
    var counter: Counter

    constructor()
      ensures counter == map[]
    {
      counter := map[];
    }

    /** `generate(base)`: hands out the next slug for `base`; only `counter[base]` changes. */
    method Generate(base: string) returns (slug: string)
      modifies this
      ensures (slug, counter) == Allocate(old(counter), base)
    {
      if base !in counter {
        counter := counter[base := 0];
        return base;
      }
      var n := counter[base] + 1;
      counter := counter[base := n];
      slug := Suffixed(base, n);
    }
  }

  // ---------------------------------------------------------------- runs of requests

  /** The slugs handed out for the requests `bases`, in order, and the counter afterwards. */
  function AllocateAll(counter: Counter, bases: seq<string>): (r: (seq<string>, Counter))
    ensures |r.0| == |bases|
    ensures r.1.Keys == counter.Keys + set b | b in bases
  {
    if bases == [] then ([], counter)
    else
      var prev := AllocateAll(counter, bases[..|bases| - 1]);
      var step := Allocate(prev.1, bases[|bases| - 1]);
      assert bases == bases[..|bases| - 1] + [bases[|bases| - 1]];
      (prev.0 + [step.0], step.1)
  }

  function Occurrences(s: seq<string>, x: string): nat {
    if s == [] then 0 else Occurrences(s[..|s| - 1], x) + (if s[|s| - 1] == x then 1 else 0)
  }

  /**
   * The slug the request for `b` receives when `k` earlier requests in the run were for `b`:
   * for a base the counter already knows, `b-(c[b]+k+1)`; otherwise the bare base first and
   * then `b-1`, `b-2`, ….
   */
  function NthSlug(counter: Counter, b: string, k: nat): string {
    if b in counter then Suffixed(b, counter[b] + k + 1)
    else if k == 0 then b
    else Suffixed(b, k)
  }

  /** The counter entry for `b` after `k` requests for `b`, if it has one. */
  predicate CounterTracks(start: Counter, now: Counter, b: string, k: nat) {
    && (b in now <==> b in start || k > 0)
    && (b in now ==> now[b] == if b in start then start[b] + k else k - 1)
  }

  /** One request keeps every entry's bookkeeping and answers with the slug its count predicts. */
  lemma AllocateStep(start: Counter, now: Counter, x: string, b: string, k: nat)
    requires CounterTracks(start, now, b, k)
    ensures CounterTracks(start, Allocate(now, x).1, b, k + if x == b then 1 else 0)
    ensures x == b ==> Allocate(now, x).0 == NthSlug(start, b, k)
  {
  }

  lemma {:induction false} OccurrencesLast(s: seq<string>, b: string)
    requires s != []
    ensures Occurrences(s, b) == Occurrences(s[..|s| - 1], b) + if s[|s| - 1] == b then 1 else 0
  {
  }

  /** After a run of requests, each base's counter entry reflects how many requests named it. */
  lemma {:induction false} AllocateAllCounter(counter: Counter, bases: seq<string>, b: string)
    ensures CounterTracks(counter, AllocateAll(counter, bases).1, b, Occurrences(bases, b))
  {
    if bases != [] {
      var init := bases[..|bases| - 1];
      AllocateAllCounter(counter, init, b);
      AllocateStep(counter, AllocateAll(counter, init).1, bases[|bases| - 1], b, Occurrences(init, b));
      OccurrencesLast(bases, b);
    }
  }

  /** The slug of every request is determined by how many earlier requests named the same base. */
  lemma {:induction false} AllocateAllSpec(counter: Counter, bases: seq<string>, i: nat)
    requires i < |bases|
    ensures AllocateAll(counter, bases).0[i] == NthSlug(counter, bases[i], Occurrences(bases[..i], bases[i]))
  {
    var init := bases[..|bases| - 1];
    if i < |bases| - 1 {
      AllocateAllSpec(counter, init, i);
      assert bases[..i] == init[..i];
    } else {
      AllocateAllCounter(counter, init, bases[i]);
      AllocateStep(counter, AllocateAll(counter, init).1, bases[i], bases[i], Occurrences(init, bases[i]));
    }
  }

  /** The k-th request for a base is answered by a slug no other request for that base gets. */
  lemma NthSlugInjective(counter: Counter, b: string, k1: nat, k2: nat)
    requires k1 != k2
    ensures NthSlug(counter, b, k1) != NthSlug(counter, b, k2)
  {
    var s1 := NthSlug(counter, b, k1);
    var s2 := NthSlug(counter, b, k2);
    if |s1| == |s2| && s1 == s2 {
      if b in counter || (k1 > 0 && k2 > 0) {
        var n1 := if b in counter then counter[b] + k1 + 1 else k1;
        var n2 := if b in counter then counter[b] + k2 + 1 else k2;
        assert s1[|b| + 1..] == NatToString(n1);
        assert s2[|b| + 1..] == NatToString(n2);
        NatToStringInjective(n1, n2);
      }
    }
  }

  lemma {:induction false} OccurrencesGrow(s: seq<string>, i: nat, j: nat)
    requires i < j <= |s|
    ensures Occurrences(s[..i], s[i]) < Occurrences(s[..j], s[i])
    decreases j
  {
    assert s[..j][..j - 1] == s[..j - 1];
    if j - 1 > i {
      OccurrencesGrow(s, i, j - 1);
    } else {
      assert s[..j][j - 1] == s[i];
    }
  }

  /** Requests for the same base always receive distinct slugs. */
  lemma SameBaseDistinct(counter: Counter, bases: seq<string>, i: nat, j: nat)
    requires i < j < |bases| && bases[i] == bases[j]
    ensures AllocateAll(counter, bases).0[i] != AllocateAll(counter, bases).0[j]
  {
    AllocateAllSpec(counter, bases, i);
    AllocateAllSpec(counter, bases, j);
    OccurrencesGrow(bases, i, j);
    NthSlugInjective(counter, bases[i], Occurrences(bases[..i], bases[i]), Occurrences(bases[..j], bases[i]));
  }

  /** From a fresh generator, the requests for one base receive `b`, `b-1`, `b-2`, … in turn. */
  lemma FreshSequence(bases: seq<string>, i: nat)
    requires i < |bases|
    ensures var k := Occurrences(bases[..i], bases[i]);
      AllocateAll(map[], bases).0[i] == if k == 0 then bases[i] else Suffixed(bases[i], k)
  {
    AllocateAllSpec(map[], bases, i);
  }

  /** Uniqueness holds only per base: for any base `b`, the requests `b`, `b`, `b-1` yield `b-1` twice. */
  lemma CrossBaseCollision(b: string)
    ensures AllocateAll(map[], [b, b, b + "-1"]).0 == [b, b + "-1", b + "-1"]
  {
    CollisionFirstTwo(b);
    CollisionThird(b);
  }

  lemma CollisionFirstTwo(b: string)
    ensures |AllocateAll(map[], [b, b, b + "-1"]).0| == 3
    ensures AllocateAll(map[], [b, b, b + "-1"]).0[0] == b
    ensures AllocateAll(map[], [b, b, b + "-1"]).0[1] == b + "-1"
  {
    var bases := [b, b, b + "-1"];
    FreshSequence(bases, 0);
    assert bases[..0] == [];
    FreshSequence(bases, 1);
    assert bases[..1] == [b];
    assert Occurrences([b], b) == 1 by { assert [b][..0] == []; }
    assert NatToString(1) == "1";
  }

  lemma CollisionThird(b: string)
    ensures AllocateAll(map[], [b, b, b + "-1"]).0[2] == b + "-1"
  {
    var bases := [b, b, b + "-1"];
    FreshSequence(bases, 2);
    assert bases[..2] == [b, b];
    assert Occurrences([b, b], b + "-1") == 0 by {
      assert [b, b][..1] == [b] && [b][..0] == [];
      assert |b + "-1"| != |b|;
    }
  }
}
