/**
 * The loop every build variant runs over the walked files: skip a file the
 * variant's filter rejects, otherwise ask the slug generator for a slug from
 * the file's slug base and build the catalogue item, stopping at the first
 * file whose processing throws. scripts/build-index.mjs (`walk` and
 * `handleImage`), scripts/image-processor.mjs (`processImages` and
 * `processImage`), scripts/ImageProcessor.php (`processImages` and
 * `processImage`), scripts/build-index.php (the `walkDirectory` callback and
 * `handleImage`) and scripts/process-chunk.php (the chunk loop) all have this
 * shape with their own filter, slug base and item.
 */
module Catalogue {
  import opened Wrappers
  import opened SlugAllocation

  /** The entries the filter lets through, in order. */
  function Accepted<E>(entries: seq<E>, accept: E -> bool): (r: seq<E>)
    ensures |r| <= |entries|
    ensures forall i :: 0 <= i < |r| ==> accept(r[i])
  {
    if entries == [] then []
    else
      var e := entries[|entries| - 1];
      Accepted(entries[..|entries| - 1], accept) + if accept(e) then [e] else []
  }

  /** The slug base of each entry. */
  function Bases<E>(entries: seq<E>, base: E -> string): (r: seq<string>)
    ensures |r| == |entries|
    ensures forall i :: 0 <= i < |entries| ==> r[i] == base(entries[i])
  {
    seq(|entries|, i requires 0 <= i < |entries| => base(entries[i]))
  }

  /**
   * The items built from `entries` and the slug counter afterwards, starting from `counter`.
   * `make(e, slug)` is the item for entry `e` with the slug it was given, or the error it throws.
   */
  function Run<E, I>(counter: Counter, entries: seq<E>, accept: E -> bool, base: E -> string,
                     make: (E, string) -> Result<I, string>): (r: (Result<seq<I>, string>, Counter))
  {
    if entries == [] then (Success([]), counter)
    else Step(Run(counter, entries[..|entries| - 1], accept, base, make), entries[|entries| - 1], accept, base, make)
  }

  /**
   * One iteration of the loop: after a throw or for a rejected entry nothing happens; otherwise
   * the entry is handed the next slug for its base and its item is appended, or its error thrown.
   */
  function Step<E, I>(prev: (Result<seq<I>, string>, Counter), e: E, accept: E -> bool, base: E -> string,
                      make: (E, string) -> Result<I, string>): (r: (Result<seq<I>, string>, Counter))
  {
    if prev.0.Failure? || !accept(e) then prev
    else
      var step := Allocate(prev.1, base(e));
      match make(e, step.0)
      case Success(item) => (Success(prev.0.value + [item]), step.1)
      case Failure(msg) => (Failure(msg), step.1)
  }

  /** One more entry: the run on a longer prefix in terms of the run on the shorter one. */
  lemma RunSnoc<E, I>(counter: Counter, entries: seq<E>, e: E, accept: E -> bool, base: E -> string,
                      make: (E, string) -> Result<I, string>)
    ensures (entries + [e])[..|entries|] == entries
    ensures Run(counter, entries + [e], accept, base, make) == Step(Run(counter, entries, accept, base, make), e, accept, base, make)
  {
    assert (entries + [e])[..|entries|] == entries;
  }

  /** A run over one accepted entry: its slug is the first for its base, then its item or its error. */
  lemma RunOne<E, I>(counter: Counter, e: E, accept: E -> bool, base: E -> string, make: (E, string) -> Result<I, string>)
    requires accept(e)
    ensures var step := Allocate(counter, base(e));
      Run(counter, [e], accept, base, make) ==
        match make(e, step.0)
        case Success(item) => (Success([item]), step.1)
        case Failure(msg) => (Failure(msg), step.1)
  {
    RunSnoc(counter, [], e, accept, base, make);
    assert [] + [e] == [e];
    var step := Allocate(counter, base(e));
    if make(e, step.0).Success? {
      var empty: seq<I> := [];
      assert empty + [make(e, step.0).value] == [make(e, step.0).value];
    }
  }

  lemma AcceptedSnoc<E>(entries: seq<E>, e: E, accept: E -> bool)
    ensures Accepted(entries + [e], accept) == Accepted(entries, accept) + if accept(e) then [e] else []
  {
    assert (entries + [e])[..|entries|] == entries;
  }

  /** What the items of a run that ran to completion must be, given the slugs handed out. */
  ghost predicate Built<E, I>(acc: seq<E>, slugs: seq<string>, make: (E, string) -> Result<I, string>, items: seq<I>)
    requires |slugs| == |acc|
  {
    && |items| == |acc|
    && forall j :: 0 <= j < |acc| ==> make(acc[j], slugs[j]) == Success(items[j])
  }

  lemma BasesSnoc<E>(entries: seq<E>, e: E, base: E -> string)
    ensures Bases(entries + [e], base) == Bases(entries, base) + [base(e)]
  {
    var l := Bases(entries + [e], base);
    var r := Bases(entries, base) + [base(e)];
    assert |l| == |r|;
    forall i | 0 <= i < |l| ensures l[i] == r[i] {
      assert (entries + [e])[i] == if i < |entries| then entries[i] else e;
    }
  }

  lemma AllocateAllSnoc(counter: Counter, bases: seq<string>, b: string)
    ensures (bases + [b])[..|bases|] == bases
    ensures AllocateAll(counter, bases + [b]) ==
      (AllocateAll(counter, bases).0 + [Allocate(AllocateAll(counter, bases).1, b).0],
       Allocate(AllocateAll(counter, bases).1, b).1)
  {
    assert (bases + [b])[..|bases|] == bases;
  }

  /** Every accepted entry's item can be built with the slug it is handed. */
  ghost predicate AllBuild<E, I>(acc: seq<E>, slugs: seq<string>, make: (E, string) -> Result<I, string>)
    requires |slugs| == |acc|
  {
    forall j :: 0 <= j < |acc| ==> make(acc[j], slugs[j]).Success?
  }

  /**
   * What a run over `entries` is, in terms of the accepted entries and the slugs the
   * generator hands out when their bases are requested in turn: it throws exactly when some
   * accepted entry's item cannot be built with its slug, and otherwise builds one item per
   * accepted entry, in order, leaving the counter as those requests leave it.
   */
  ghost predicate RunMeets<E, I>(counter: Counter, entries: seq<E>, accept: E -> bool, base: E -> string,
                                 make: (E, string) -> Result<I, string>)
  {
    var r := Run(counter, entries, accept, base, make);
    var acc := Accepted(entries, accept);
    var alloc := AllocateAll(counter, Bases(acc, base));
    && (r.0.Success? <==> AllBuild(acc, alloc.0, make))
    && (r.0.Success? ==> Built(acc, alloc.0, make, r.0.value) && r.1 == alloc.1)
  }

  lemma RunMeetsSkip<E, I>(counter: Counter, init: seq<E>, e: E, accept: E -> bool, base: E -> string,
                           make: (E, string) -> Result<I, string>)
    requires RunMeets(counter, init, accept, base, make)
    requires !accept(e)
    ensures RunMeets(counter, init + [e], accept, base, make)
  {
    RunSnoc(counter, init, e, accept, base, make);
    AcceptedSnoc(init, e, accept);
    assert Run(counter, init + [e], accept, base, make) == Run(counter, init, accept, base, make);
    assert Accepted(init + [e], accept) == Accepted(init, accept);
  }

  lemma RunMeetsAfterFailure<E, I>(counter: Counter, init: seq<E>, e: E, accept: E -> bool, base: E -> string,
                                   make: (E, string) -> Result<I, string>)
    requires RunMeets(counter, init, accept, base, make)
    requires accept(e) && Run(counter, init, accept, base, make).0.Failure?
    ensures RunMeets(counter, init + [e], accept, base, make)
  {
    var prev := Run(counter, init, accept, base, make);
    var acc0 := Accepted(init, accept);
    var alloc0 := AllocateAll(counter, Bases(acc0, base));
    var step := Allocate(alloc0.1, base(e));
    assert Run(counter, init + [e], accept, base, make) == prev by {
      RunSnoc(counter, init, e, accept, base, make);
    }
    assert Accepted(init + [e], accept) == acc0 + [e] by {
      AcceptedSnoc(init, e, accept);
    }
    assert AllocateAll(counter, Bases(acc0 + [e], base)) == (alloc0.0 + [step.0], step.1) by {
      BasesSnoc(acc0, e, base);
      AllocateAllSnoc(counter, Bases(acc0, base), base(e));
    }
    assert !AllBuild(acc0 + [e], alloc0.0 + [step.0], make) by {
      var j :| 0 <= j < |acc0| && !make(acc0[j], alloc0.0[j]).Success?;
      assert (acc0 + [e])[j] == acc0[j] && (alloc0.0 + [step.0])[j] == alloc0.0[j];
    }
    RunMeetsFrom(counter, init + [e], accept, base, make, prev, acc0 + [e], alloc0.0 + [step.0], step.1);
  }

  lemma BuiltSnoc<E, I>(acc: seq<E>, slugs: seq<string>, make: (E, string) -> Result<I, string>, items: seq<I>,
                        e: E, slug: string, item: I)
    requires |slugs| == |acc| && Built(acc, slugs, make, items)
    requires make(e, slug) == Success(item)
    ensures Built(acc + [e], slugs + [slug], make, items + [item])
  {
  }

  lemma AllSucceedSnoc<E, I>(acc: seq<E>, slugs: seq<string>, make: (E, string) -> Result<I, string>, e: E, slug: string)
    requires |slugs| == |acc|
    ensures AllBuild(acc + [e], slugs + [slug], make) <==> AllBuild(acc, slugs, make) && make(e, slug).Success?
  {
    assert forall j :: 0 <= j < |acc| ==> (acc + [e])[j] == acc[j] && (slugs + [slug])[j] == slugs[j];
    assert (acc + [e])[|acc|] == e && (slugs + [slug])[|acc|] == slug;
  }

  lemma RunMeetsStep<E, I>(counter: Counter, init: seq<E>, e: E, accept: E -> bool, base: E -> string,
                           make: (E, string) -> Result<I, string>)
    requires RunMeets(counter, init, accept, base, make)
    requires accept(e) && Run(counter, init, accept, base, make).0.Success?
    ensures RunMeets(counter, init + [e], accept, base, make)
  {
    var prev := Run(counter, init, accept, base, make);
    var acc0 := Accepted(init, accept);
    var alloc0 := AllocateAll(counter, Bases(acc0, base));
    var step := Allocate(prev.1, base(e));
    var r := Step(prev, e, accept, base, make);
    assert Run(counter, init + [e], accept, base, make) == r by {
      RunSnoc(counter, init, e, accept, base, make);
    }
    assert Accepted(init + [e], accept) == acc0 + [e] by {
      AcceptedSnoc(init, e, accept);
    }
    assert AllocateAll(counter, Bases(acc0 + [e], base)) == (alloc0.0 + [step.0], step.1) by {
      BasesSnoc(acc0, e, base);
      AllocateAllSnoc(counter, Bases(acc0, base), base(e));
    }
    assert AllBuild(acc0 + [e], alloc0.0 + [step.0], make) <==> AllBuild(acc0, alloc0.0, make) && make(e, step.0).Success? by {
      AllSucceedSnoc(acc0, alloc0.0, make, e, step.0);
    }
    RunMeetsAppend(prev, acc0, alloc0.0, e, accept, base, make);
    RunMeetsFrom(counter, init + [e], accept, base, make, r, acc0 + [e], alloc0.0 + [step.0], step.1);
  }

  /** The induction step of `RunSpec` for an accepted entry, stated on the pieces alone. */
  lemma RunMeetsAppend<E, I>(prev: (Result<seq<I>, string>, Counter), acc0: seq<E>, slugs0: seq<string>,
                             e: E, accept: E -> bool, base: E -> string, make: (E, string) -> Result<I, string>)
    requires |slugs0| == |acc0| && prev.0.Success? && accept(e)
    requires AllBuild(acc0, slugs0, make) && Built(acc0, slugs0, make, prev.0.value)
    ensures var step := Allocate(prev.1, base(e));
      var r := Step(prev, e, accept, base, make);
      && (r.0.Success? <==> make(e, step.0).Success?)
      && (r.0.Success? ==> Built(acc0 + [e], slugs0 + [step.0], make, r.0.value) && r.1 == step.1)
  {
    var step := Allocate(prev.1, base(e));
    match make(e, step.0)
    case Success(item) =>
      BuiltSnoc(acc0, slugs0, make, prev.0.value, e, step.0, item);
    case Failure(msg) =>
  }

  /** `RunMeets`, from the run, the accepted entries and the slug requests computed separately. */
  lemma RunMeetsFrom<E, I>(counter: Counter, entries: seq<E>, accept: E -> bool, base: E -> string,
                           make: (E, string) -> Result<I, string>,
                           r: (Result<seq<I>, string>, Counter), acc: seq<E>, slugs: seq<string>, after: Counter)
    requires Run(counter, entries, accept, base, make) == r && Accepted(entries, accept) == acc
    requires AllocateAll(counter, Bases(acc, base)) == (slugs, after) && |slugs| == |acc|
    requires r.0.Success? <==> AllBuild(acc, slugs, make)
    requires r.0.Success? ==> Built(acc, slugs, make, r.0.value) && r.1 == after
    ensures RunMeets(counter, entries, accept, base, make)
  {
  }

  /** Every run is described by `RunMeets`. */
  lemma {:induction false} RunSpec<E, I>(counter: Counter, entries: seq<E>, accept: E -> bool, base: E -> string,
                                         make: (E, string) -> Result<I, string>)
    ensures RunMeets(counter, entries, accept, base, make)
    decreases |entries|
  {
    if entries == [] {
    } else {
      var init := entries[..|entries| - 1];
      var e := entries[|entries| - 1];
      assert entries == init + [e];
      RunSpec(counter, init, accept, base, make);
      if !accept(e) {
        RunMeetsSkip(counter, init, e, accept, base, make);
      } else if Run(counter, init, accept, base, make).0.Failure? {
        RunMeetsAfterFailure(counter, init, e, accept, base, make);
      } else {
        RunMeetsStep(counter, init, e, accept, base, make);
      }
    }
  }

  /** Once a run has thrown, the remaining entries change nothing. */
  lemma {:induction false} RunStopsAtFailure<E, I>(counter: Counter, entries: seq<E>, more: seq<E>, accept: E -> bool,
                                                   base: E -> string, make: (E, string) -> Result<I, string>)
    requires Run(counter, entries, accept, base, make).0.Failure?
    ensures Run(counter, entries + more, accept, base, make) == Run(counter, entries, accept, base, make)
    decreases |more|
  {
    if more == [] {
      assert entries + more == entries;
    } else {
      var init := more[..|more| - 1];
      RunStopsAtFailure(counter, entries, init, accept, base, make);
      assert entries + more == (entries + init) + [more[|more| - 1]];
      RunSnoc(counter, entries + init, more[|more| - 1], accept, base, make);
    }
  }

  /** The run over one more entry of `entries`, in terms of the run over the shorter prefix. */
  lemma RunPrefixSnoc<E, I>(counter: Counter, entries: seq<E>, i: nat, accept: E -> bool, base: E -> string,
                            make: (E, string) -> Result<I, string>)
    requires i < |entries|
    ensures Run(counter, entries[..i + 1], accept, base, make) == Step(Run(counter, entries[..i], accept, base, make), entries[i], accept, base, make)
  {
    assert entries[..i + 1] == entries[..i] + [entries[i]];
    RunSnoc(counter, entries[..i], entries[i], accept, base, make);
  }

  /** A run that has thrown on a prefix of `entries` is the run over all of them. */
  lemma RunPrefixFailure<E, I>(counter: Counter, entries: seq<E>, i: nat, accept: E -> bool, base: E -> string,
                               make: (E, string) -> Result<I, string>)
    requires i <= |entries| && Run(counter, entries[..i], accept, base, make).0.Failure?
    ensures Run(counter, entries, accept, base, make) == Run(counter, entries[..i], accept, base, make)
  {
    RunStopsAtFailure(counter, entries[..i], entries[i..], accept, base, make);
    assert entries[..i] + entries[i..] == entries;
  }

  /** A completed run built one item per accepted entry, with the slug the generator handed out for it. */
  lemma RunItems<E, I>(counter: Counter, entries: seq<E>, accept: E -> bool, base: E -> string,
                       make: (E, string) -> Result<I, string>)
    requires Run(counter, entries, accept, base, make).0.Success?
    ensures var items := Run(counter, entries, accept, base, make).0.value;
      var acc := Accepted(entries, accept);
      var slugs := AllocateAll(counter, Bases(acc, base)).0;
      && |items| == |acc|
      && forall j :: 0 <= j < |acc| ==> make(acc[j], slugs[j]) == Success(items[j])
  {
    RunSpec(counter, entries, accept, base, make);
  }

  /** A run completes exactly when every accepted entry's item can be built with the slug it is handed. */
  lemma RunSucceedsIff<E, I>(counter: Counter, entries: seq<E>, accept: E -> bool, base: E -> string,
                             make: (E, string) -> Result<I, string>)
    ensures var acc := Accepted(entries, accept);
      Run(counter, entries, accept, base, make).0.Success? <==> AllBuild(acc, AllocateAll(counter, Bases(acc, base)).0, make)
  {
    RunSpec(counter, entries, accept, base, make);
  }

  /** When whether an item can be built depends on the entry alone, a run throws exactly when some accepted entry cannot be. */
  lemma RunFailsIff<E, I>(counter: Counter, entries: seq<E>, accept: E -> bool, base: E -> string,
                          make: (E, string) -> Result<I, string>, ok: E -> bool)
    requires forall e, slug :: make(e, slug).Success? <==> ok(e)
    ensures Run(counter, entries, accept, base, make).0.Failure? <==>
      exists j :: 0 <= j < |Accepted(entries, accept)| && !ok(Accepted(entries, accept)[j])
  {
    RunSucceedsIff(counter, entries, accept, base, make);
    var acc := Accepted(entries, accept);
    var slugs := AllocateAll(counter, Bases(acc, base)).0;
    assert |slugs| == |acc|;
    assert AllBuild(acc, slugs, make) <==> (forall j :: 0 <= j < |acc| ==> ok(acc[j]));
  }
  /** One more entry of `entries`: the filter of the longer prefix from that of the shorter one. */
  lemma AcceptedPrefixSnoc<E>(entries: seq<E>, i: nat, accept: E -> bool)
    requires i < |entries|
    ensures Accepted(entries[..i + 1], accept) ==
      Accepted(entries[..i], accept) + if accept(entries[i]) then [entries[i]] else []
  {
    assert entries[..i + 1] == entries[..i] + [entries[i]];
    AcceptedSnoc(entries[..i], entries[i], accept);
  }

  /** Items built for two lists of entries, concatenated, are built for the concatenated entries. */
  lemma BuiltAppend<E, I>(a1: seq<E>, s1: seq<string>, i1: seq<I>, a2: seq<E>, s2: seq<string>, i2: seq<I>,
                          make: (E, string) -> Result<I, string>)
    requires |s1| == |a1| && |s2| == |a2|
    requires Built(a1, s1, make, i1) && Built(a2, s2, make, i2)
    ensures |s1 + s2| == |a1 + a2| && Built(a1 + a2, s1 + s2, make, i1 + i2)
  {
    forall j | 0 <= j < |a1 + a2|
      ensures make((a1 + a2)[j], (s1 + s2)[j]) == Success((i1 + i2)[j])
    {
      if j < |a1| {
        assert (a1 + a2)[j] == a1[j] && (s1 + s2)[j] == s1[j] && (i1 + i2)[j] == i1[j];
      } else {
        var k := j - |a1|;
        assert (a1 + a2)[j] == a2[k] && (s1 + s2)[j] == s2[k] && (i1 + i2)[j] == i2[k];
      }
    }
  }

  lemma AcceptedSingle<E>(e: E, accept: E -> bool)
    requires accept(e)
    ensures Accepted([e], accept) == [e]
  {
    assert [e][..0] == [];
  }

  /** Filtering distributes over concatenation. */
  lemma {:induction false} AcceptedAppend<E>(xs: seq<E>, ys: seq<E>, accept: E -> bool)
    ensures Accepted(xs + ys, accept) == Accepted(xs, accept) + Accepted(ys, accept)
    decreases |ys|
  {
    if ys == [] {
      assert xs + ys == xs;
    } else {
      var init := ys[..|ys| - 1];
      var y := ys[|ys| - 1];
      assert ys == init + [y];
      assert xs + ys == (xs + init) + [y];
      AcceptedAppend(xs, init, accept);
      AcceptedSnoc(xs + init, y, accept);
      AcceptedSnoc(init, y, accept);
    }
  }

  /** An entry is accepted exactly when it is among the entries and passes the filter. */
  lemma {:induction false} AcceptedMembers<E>(entries: seq<E>, accept: E -> bool, x: E)
    ensures x in Accepted(entries, accept) <==> x in entries && accept(x)
    decreases |entries|
  {
    if entries != [] {
      var init := entries[..|entries| - 1];
      var e := entries[|entries| - 1];
      assert entries == init + [e];
      AcceptedMembers(init, accept, x);
    }
  }

  /**
   * A loop that keeps its pushed items after `items0` and its counter in step with `Run`: one
   * more accepted entry either pushes its item and keeps the loop in step, or throws and fixes
   * the whole run's outcome.
   */
  lemma RunVisitState<E, I>(counter: Counter, entries: seq<E>, i: nat, accept: E -> bool, base: E -> string,
                            make: (E, string) -> Result<I, string>, items0: seq<I>, c: Counter, items: seq<I>)
    requires i < |entries| && accept(entries[i])
    requires Run(counter, entries[..i], accept, base, make).0.Success?
    requires c == Run(counter, entries[..i], accept, base, make).1
    requires items == items0 + Run(counter, entries[..i], accept, base, make).0.value
    ensures var step := Allocate(c, base(entries[i]));
      var r := make(entries[i], step.0);
      var next := Run(counter, entries[..i + 1], accept, base, make);
      && (r.Success? ==> next.0.Success? && next.1 == step.1 && items + [r.value] == items0 + next.0.value)
      && (r.Failure? ==> Run(counter, entries, accept, base, make) == (Failure(r.error), step.1))
  {
    RunPrefixSnoc(counter, entries, i, accept, base, make);
    var prev := Run(counter, entries[..i], accept, base, make);
    var step := Allocate(c, base(entries[i]));
    var r := make(entries[i], step.0);
    if r.Success? {
      assert items0 + (prev.0.value + [r.value]) == items + [r.value];
    } else {
      RunPrefixFailure(counter, entries, i + 1, accept, base, make);
    }
  }
}
