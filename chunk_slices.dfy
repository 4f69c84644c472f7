/**
 * The arithmetic of scripts/process-chunk.php: the chunk size `ceil(n / total)`,
 * PHP's `array_slice` and the slice each chunk index takes, and the check of
 * the command-line chunk index read with `intval`.
 */
module ChunkSlices {
  import opened Wrappers
  import opened Text
  import opened SlugAllocation
  import Catalogue
  import opened Arith

  function Min(a: int, b: int): int { if a <= b then a else b }
  function Max(a: int, b: int): int { if a <= b then b else a }

  // ---------------------------------------------------------------- slicing

  /** `ceil(count / totalChunks)`: the fewest files per chunk that fit `n` files into `total` chunks. */
  function ChunkSize(n: nat, total: nat): (size: nat)
    requires total > 0
    ensures size * total >= n
    ensures size == 0 || (size - 1) * total < n
  {
    var q := (n + total - 1) / total;
    var r := (n + total - 1) % total;
    assert q * total + r == n + total - 1;
    q
  }

  /**
   * `array_slice($a, $offset, $length)`: a negative offset counts from the end, a negative
   * length stops that many elements before the end, and both are clipped to the array.
   */
  function ArraySlice<T>(a: seq<T>, offset: int, length: int): (r: seq<T>)
    ensures length >= 0 ==> |r| <= length
    ensures 0 <= offset <= |a| && 0 <= length <= |a| - offset ==> r == a[offset..offset + length]
  {
    var from := if offset < 0 then Max(0, |a| + offset) else Min(offset, |a|);
    var to := if length < 0 then Max(from, |a| + length) else Min(|a|, from + length);
    a[from..to]
  }

  /** Where chunk `i` ends, and chunk `i + 1` starts: `min(i * size, n)`. */
  function Boundary(n: nat, total: nat, i: nat): (b: nat)
    requires total > 0
    ensures b <= n
  {
    Min(i * ChunkSize(n, total), n)
  }

  /** The files of chunk `index`: from `(index - 1) * size` to `min(start + size, n)`. */
  function Chunk<T>(files: seq<T>, total: nat, index: int): (r: seq<T>)
    requires total > 0
    ensures |r| <= ChunkSize(|files|, total)
  {
    var size := ChunkSize(|files|, total);
    var start := (index - 1) * size;
    var end := Min(start + size, |files|);
    if end - start >= 0 then ArraySlice(files, start, end - start)
    else
      assert start > |files|;
      ArraySlice(files, start, end - start)
  }

  /** Chunk `index` (from 1) is the index range between two consecutive boundaries. */
  lemma ChunkIsRange<T>(files: seq<T>, total: nat, index: nat)
    requires total > 0 && index >= 1
    ensures Boundary(|files|, total, index - 1) <= Boundary(|files|, total, index)
    ensures Chunk(files, total, index) ==
      files[Boundary(|files|, total, index - 1)..Boundary(|files|, total, index)]
  {
    var size := ChunkSize(|files|, total);
    MulMonotone(index - 1, index, size);
    assert (index - 1) * size + size == index * size;
  }

  /** A chunk whose start is at or past the end of the listing is empty. */
  lemma ChunkPastEndEmpty<T>(files: seq<T>, total: nat, index: nat)
    requires total > 0 && index >= 1 && (index - 1) * ChunkSize(|files|, total) >= |files|
    ensures Chunk(files, total, index) == []
  {
    ChunkIsRange(files, total, index);
  }

  /** Five files in four chunks: chunks of two, the fourth empty. */
  lemma FiveFilesFourChunks<T>(files: seq<T>)
    requires |files| == 5
    ensures ChunkSize(5, 4) == 2
    ensures Chunk(files, 4, 3) == files[4..] && Chunk(files, 4, 4) == []
  {
    assert ChunkSize(5, 4) == 2;
    ChunkIsRange(files, 4, 3);
    ChunkPastEndEmpty(files, 4, 4);
  }

  /** Chunks are pairwise disjoint: an earlier chunk ends before a later one starts. */
  lemma ChunksDisjoint(n: nat, total: nat, i: nat, j: nat)
    requires total > 0 && 1 <= i < j
    ensures Boundary(n, total, i) <= Boundary(n, total, j - 1)
  {
    MulMonotone(i, j - 1, ChunkSize(n, total));
  }

  /** Chunks 1 to `k`, concatenated in chunk order. */
  function ChunksUpTo<T>(files: seq<T>, total: nat, k: nat): (r: seq<T>)
    requires total > 0
  {
    if k == 0 then [] else ChunksUpTo(files, total, k - 1) + Chunk(files, total, k)
  }

  /** The first `k` chunks are the listing up to the `k`-th boundary. */
  lemma {:induction false} ChunksUpToPrefix<T>(files: seq<T>, total: nat, k: nat)
    requires total > 0
    ensures ChunksUpTo(files, total, k) == files[..Boundary(|files|, total, k)]
  {
    if k > 0 {
      var a := Boundary(|files|, total, k - 1);
      var b := Boundary(|files|, total, k);
      assert ChunksUpTo(files, total, k - 1) == files[..a] by {
        ChunksUpToPrefix(files, total, k - 1);
      }
      assert a <= b && Chunk(files, total, k) == files[a..b] by {
        ChunkIsRange(files, total, k);
      }
      PrefixSplit(files, a, b);
    }
  }

  lemma PrefixSplit<T>(s: seq<T>, a: nat, b: nat)
    requires a <= b <= |s|
    ensures s[..a] + s[a..b] == s[..b]
  {
  }

  /** The `total` chunks, concatenated in chunk order, are the whole listing. */
  lemma ChunksCover<T>(files: seq<T>, total: nat)
    requires total > 0
    ensures ChunksUpTo(files, total, total) == files
  {
    ChunksUpToPrefix(files, total, total);
    LastBoundary(|files|, total);
  }

  /** An entry lies in the first `k` chunks exactly when it lies in one of them. */
  lemma InSomeChunk<T>(files: seq<T>, total: nat, k: nat, x: T)
    requires total > 0
    ensures x in ChunksUpTo(files, total, k) <==> exists i :: 1 <= i <= k && x in Chunk(files, total, i)
  {
    if x in ChunksUpTo(files, total, k) {
      PrefixEntryInChunk(files, total, k, x);
    }
    if i :| 1 <= i <= k && x in Chunk(files, total, i) {
      ChunkEntryInPrefix(files, total, k, i, x);
    }
  }

  /** An entry of the first `k` chunks lies in one of them. */
  lemma {:induction false} PrefixEntryInChunk<T>(files: seq<T>, total: nat, k: nat, x: T)
    requires total > 0 && x in ChunksUpTo(files, total, k)
    ensures exists i :: 1 <= i <= k && x in Chunk(files, total, i)
  {
    var before := ChunksUpTo(files, total, k - 1);
    assert x in before + Chunk(files, total, k);
    if x in before {
      PrefixEntryInChunk(files, total, k - 1, x);
      var i :| 1 <= i <= k - 1 && x in Chunk(files, total, i);
      assert 1 <= i <= k;
    } else {
      assert 1 <= k <= k && x in Chunk(files, total, k);
    }
  }

  /** An entry of chunk `i` lies in the first `k` chunks for every `k >= i`. */
  lemma {:induction false} ChunkEntryInPrefix<T>(files: seq<T>, total: nat, k: nat, i: nat, x: T)
    requires total > 0 && 1 <= i <= k && x in Chunk(files, total, i)
    ensures x in ChunksUpTo(files, total, k)
  {
    var before := ChunksUpTo(files, total, k - 1);
    if i < k {
      ChunkEntryInPrefix(files, total, k - 1, i, x);
    }
    assert x in before + Chunk(files, total, k);
  }

  /** The last boundary is the end of the listing. */
  lemma LastBoundary(n: nat, total: nat)
    requires total > 0
    ensures Boundary(n, total, total) == n
  {
    var size := ChunkSize(n, total);
    assert total * size == size * total;
  }

  /** Two files in four chunks: one file in each of the first two. */
  lemma TwoFilesOneEach<T>(a: T, b: T)
    ensures Chunk([a, b], 4, 1) == [a] && Chunk([a, b], 4, 2) == [b]
  {
    assert ChunkSize(2, 4) == 1;
    ChunkIsRange([a, b], 4, 1);
    ChunkIsRange([a, b], 4, 2);
  }

  // ---------------------------------------------------------------- merging

  /** Concatenation of the chunks' outcomes in chunk order; the first failed chunk aborts the build. */
  function Merge<T>(outcomes: seq<Result<seq<T>, string>>): (r: Result<seq<T>, string>)
    ensures r.Success? <==> forall i :: 0 <= i < |outcomes| ==> outcomes[i].Success?
  {
    if outcomes == [] then Success([])
    else
      var init := Merge(outcomes[..|outcomes| - 1]);
      var last := outcomes[|outcomes| - 1];
      assert forall i :: 0 <= i < |outcomes| - 1 ==> outcomes[..|outcomes| - 1][i] == outcomes[i];
      if init.Failure? then init
      else if last.Failure? then last
      else Success(init.value + last.value)
  }

  /** One more successful chunk appends its items. */
  lemma MergeSnocSuccess<T>(outcomes: seq<Result<seq<T>, string>>, items: seq<T>)
    requires Merge(outcomes).Success?
    ensures Merge(outcomes + [Success(items)]) == Success(Merge(outcomes).value + items)
  {
    assert (outcomes + [Success(items)])[..|outcomes|] == outcomes;
  }

  /**
   * The outcomes of chunks 1 to `k` of `listing`, each chunk run through the catalogue loop
   * from an empty slug counter, as every chunk process starts with a fresh generator.
   */
  function ChunkRuns<E, I>(listing: seq<E>, total: nat, k: nat, accept: E -> bool, base: E -> string,
                           make: (E, string) -> Result<I, string>): (r: seq<Result<seq<I>, string>>)
    requires total > 0
    ensures |r| == k
  {
    if k == 0 then []
    else ChunkRuns(listing, total, k - 1, accept, base, make) + [Catalogue.Run(map[], Chunk(listing, total, k), accept, base, make).0]
  }

  /** The slugs chunks 1 to `k` hand out: each chunk's own requests, counted from scratch. */
  function ChunkSlugs<E>(listing: seq<E>, total: nat, k: nat, accept: E -> bool, base: E -> string): (r: seq<string>)
    requires total > 0
    ensures |r| == |Catalogue.Accepted(ChunksUpTo(listing, total, k), accept)|
  {
    if k == 0 then []
    else
      var here := Catalogue.Accepted(Chunk(listing, total, k), accept);
      Catalogue.AcceptedAppend(ChunksUpTo(listing, total, k - 1), Chunk(listing, total, k), accept);
      ChunkSlugs(listing, total, k - 1, accept, base) + AllocateAll(map[], Catalogue.Bases(here, base)).0
  }

  /** Merging completed chunks 1 to `k`: one item per accepted entry of those chunks, in order, with the chunk's slug. */
  lemma {:induction false} MergeChunkRuns<E, I>(listing: seq<E>, total: nat, k: nat, accept: E -> bool,
                                                base: E -> string, make: (E, string) -> Result<I, string>)
    requires total > 0
    requires Merge(ChunkRuns(listing, total, k, accept, base, make)).Success?
    ensures Catalogue.Built(Catalogue.Accepted(ChunksUpTo(listing, total, k), accept), ChunkSlugs(listing, total, k, accept, base),
                            make, Merge(ChunkRuns(listing, total, k, accept, base, make)).value)
  {
    if k > 0 {
      var runs := ChunkRuns(listing, total, k - 1, accept, base, make);
      var chunk := Chunk(listing, total, k);
      var r := Catalogue.Run(map[], chunk, accept, base, make).0;
      var before := Catalogue.Accepted(ChunksUpTo(listing, total, k - 1), accept);
      var here := Catalogue.Accepted(chunk, accept);
      var hereSlugs := AllocateAll(map[], Catalogue.Bases(here, base)).0;
      assert ChunkRuns(listing, total, k, accept, base, make) == runs + [r];
      MergeParts(runs, r);
      MergeSnocSuccess(runs, r.value);
      MergeChunkRuns(listing, total, k - 1, accept, base, make);
      Catalogue.RunItems(map[], chunk, accept, base, make);
      Catalogue.AcceptedAppend(ChunksUpTo(listing, total, k - 1), chunk, accept);
      Catalogue.BuiltAppend(before, ChunkSlugs(listing, total, k - 1, accept, base), Merge(runs).value,
                            here, hereSlugs, r.value, make);
    }
  }

  /** A merge that completed had every part complete. */
  lemma MergeParts<T>(outcomes: seq<Result<seq<T>, string>>, last: Result<seq<T>, string>)
    requires Merge(outcomes + [last]).Success?
    ensures Merge(outcomes).Success? && last.Success?
  {
    var all := outcomes + [last];
    assert all[|outcomes|] == last;
    forall i | 0 <= i < |outcomes| ensures outcomes[i].Success? {
      assert all[i] == outcomes[i];
    }
  }

  /** The merge completes exactly when every chunk's run does. */
  lemma MergeChunkRunsIff<E, I>(listing: seq<E>, total: nat, k: nat, accept: E -> bool,
                                base: E -> string, make: (E, string) -> Result<I, string>)
    requires total > 0
    ensures Merge(ChunkRuns(listing, total, k, accept, base, make)).Success? <==>
      forall i :: 1 <= i <= k ==> Catalogue.Run(map[], Chunk(listing, total, i), accept, base, make).0.Success?
  {
    var runs := ChunkRuns(listing, total, k, accept, base, make);
    if Merge(runs).Success? {
      forall i | 1 <= i <= k ensures Catalogue.Run(map[], Chunk(listing, total, i), accept, base, make).0.Success? {
        ChunkRunsAt(listing, total, k, accept, base, make, i - 1);
        assert runs[i - 1].Success?;
      }
    } else {
      var j :| 0 <= j < k && !runs[j].Success?;
      ChunkRunsAt(listing, total, k, accept, base, make, j);
      assert !Catalogue.Run(map[], Chunk(listing, total, j + 1), accept, base, make).0.Success?;
    }
  }

  /** Entry `i` of the outcomes is chunk `i + 1`'s run. */
  lemma {:induction false} ChunkRunsAt<E, I>(listing: seq<E>, total: nat, k: nat, accept: E -> bool,
                                             base: E -> string, make: (E, string) -> Result<I, string>, i: nat)
    requires total > 0 && i < k
    ensures ChunkRuns(listing, total, k, accept, base, make)[i] ==
      Catalogue.Run(map[], Chunk(listing, total, i + 1), accept, base, make).0
  {
    if i < k - 1 {
      ChunkRunsAt(listing, total, k - 1, accept, base, make, i);
    }
  }

  // ---------------------------------------------------------------- the command line

  /** The whitespace PHP skips before a leading number. */
  predicate IsNumericSpace(c: char) {
    c == ' ' || c == '\t' || c == '\n' || c == '\r' || c == '\U{B}' || c == '\U{C}'
  }

  /** The longest prefix of decimal digits. */
  function DigitPrefix(s: string): (d: string)
    ensures |d| <= |s| && d == s[..|d|]
    ensures forall i :: 0 <= i < |d| ==> IsDigit(d[i])
    ensures |d| < |s| ==> !IsDigit(s[|d|])
  {
    if s == [] || !IsDigit(s[0]) then []
    else
      var rest := DigitPrefix(s[1..]);
      assert [s[0]] + rest == s[..|rest| + 1];
      [s[0]] + rest
  }

  /**
   * The numeric prefix of a string after its sign: the digits before the point, the digits
   * after it and the exponent (0 when absent). At least one digit is present.
   */
  datatype Numeral = Numeral(whole: string, fraction: string, exponent: int)

  /** Every character is a decimal digit. */
  predicate AllDigits(s: string) {
    forall i :: 0 <= i < |s| ==> IsDigit(s[i])
  }

  /** A numeral's digits are digits. */
  predicate WellFormed(n: Numeral) {
    AllDigits(n.whole) && AllDigits(n.fraction) && (n.whole != [] || n.fraction != [])
  }

  /**
   * The exponent at the head of `s`, the text after a mantissa: `e` or `E`, an optional sign and
   * at least one digit; 0 when there is none.
   */
  function ExponentOf(s: string): int {
    if s == [] || !(s[0] == 'e' || s[0] == 'E') then 0
    else
      var signed := |s| > 1 && (s[1] == '+' || s[1] == '-');
      var digits := DigitPrefix(s[if signed then 2 else 1..]);
      if digits == [] then 0
      else if signed && s[1] == '-' then 0 - ParseDigits(digits) as int
      else ParseDigits(digits)
  }

  /**
   * The numeric prefix of an unsigned string: leading digits, an optional point with more
   * digits, and an optional exponent; none when no digit comes before the exponent.
   */
  function NumericPrefix(u: string): (r: Option<Numeral>)
    ensures r.Some? ==> WellFormed(r.value)
    ensures r.Some? <==> (u != [] && IsDigit(u[0])) || (|u| >= 2 && u[0] == '.' && IsDigit(u[1]))
  {
    var whole := DigitPrefix(u);
    var rest := u[|whole|..];
    if rest != [] && rest[0] == '.' then
      var fraction := DigitPrefix(rest[1..]);
      if whole == [] && fraction == [] then None
      else Some(Numeral(whole, fraction, ExponentOf(rest[1 + |fraction|..])))
    else if whole == [] then None
    else Some(Numeral(whole, [], ExponentOf(rest)))
  }

  /** `10^n`. */
  function Pow10(n: nat): (p: nat)
    ensures p >= 1
  {
    if n == 0 then 1 else 10 * Pow10(n - 1)
  }

  /** `m * 10^e`, truncated toward zero: the integer part of a non-negative decimal number. */
  function Scaled(m: nat, e: int): nat {
    if e >= 0 then
      MulMonotone(0, m, Pow10(e));
      m * Pow10(e)
    else
      DivAtLeast(m, Pow10(-e), 0);
      m / Pow10(-e)
  }

  /** The integer part of a numeral's value: its digits, scaled by the exponent less the fraction's length. */
  function NumeralValue(n: Numeral): nat
    requires WellFormed(n)
  {
    DigitsAppend(n.whole, n.fraction);
    Scaled(ParseDigits(n.whole + n.fraction), n.exponent - |n.fraction|)
  }

  /** Two runs of digits make one. */
  lemma DigitsAppend(a: string, b: string)
    requires AllDigits(a) && AllDigits(b)
    ensures AllDigits(a + b)
  {
  }

  /**
   * `intval($s)` on a string: leading whitespace is skipped, then an optional sign and the
   * numeric prefix, read as a number and truncated toward zero; 0 when there is no numeric prefix.
   */
  function IntVal(s: string): (r: int)
    ensures var t := DropWhile(s, IsNumericSpace);
      && (t != [] && t[0] == '-' ==> r <= 0)
      && (!(t != [] && t[0] == '-') ==> r >= 0)
    ensures r != 0 ==> exists i :: 0 <= i < |s| && IsDigit(s[i])
  {
    var t := DropWhile(s, IsNumericSpace);
    SuffixDigit(s, t);
    if t != [] && t[0] == '-' then
      SuffixDigit(s, t[1..]);
      0 - UnsignedValue(t[1..])
    else if t != [] && t[0] == '+' then
      SuffixDigit(s, t[1..]);
      UnsignedValue(t[1..])
    else UnsignedValue(t)
  }

  /** The integer part of an unsigned string's numeric prefix; 0 when it has none. */
  function UnsignedValue(u: string): (r: nat)
    ensures r != 0 ==> exists i :: 0 <= i < |u| && IsDigit(u[i])
  {
    match NumericPrefix(u)
    case None => 0
    case Some(n) =>
      assert IsDigit(u[0]) || IsDigit(u[1]);
      NumeralValue(n)
  }

  /** A digit of a suffix is a digit of the whole string. */
  lemma SuffixDigit(s: string, t: string)
    requires |t| <= |s| && t == s[|s| - |t|..]
    ensures (exists i :: 0 <= i < |t| && IsDigit(t[i])) ==> exists i :: 0 <= i < |s| && IsDigit(s[i])
  {
    if i :| 0 <= i < |t| && IsDigit(t[i]) {
      assert s[|s| - |t| + i] == t[i];
    }
  }

  /** The value of two runs of digits written one after the other. */
  lemma {:induction false} ParseDigitsAppend(a: string, b: string)
    requires AllDigits(a) && AllDigits(b)
    ensures AllDigits(a + b)
    ensures ParseDigits(a + b) == ParseDigits(a) * Pow10(|b|) + ParseDigits(b)
    decreases |b|
  {
    if b == [] {
      assert a + b == a;
    } else {
      var b' := b[..|b| - 1];
      var c := b[|b| - 1];
      assert (a + b)[..|a + b| - 1] == a + b' && (a + b)[|a + b| - 1] == c;
      ParseDigitsAppend(a, b');
      var x := ParseDigits(a);
      var y := Pow10(|b'|);
      var z := ParseDigits(b');
      assert ParseDigits(a + b) == 10 * ParseDigits(a + b') + DigitValue(c);
      assert ParseDigits(a + b') == x * y + z;
      assert ParseDigits(b) == 10 * z + DigitValue(c);
      assert Pow10(|b|) == 10 * y;
      MulShift(10, x, y);
    }
  }

  /** `n` digits are worth less than `10^n`. */
  lemma {:induction false} ParseDigitsBelow(d: string)
    requires AllDigits(d)
    ensures ParseDigits(d) < Pow10(|d|)
  {
    if d != [] {
      ParseDigitsBelow(d[..|d| - 1]);
    }
  }

  /** The leading digits of a string that starts with a run of digits followed by a non-digit. */
  lemma {:induction false} DigitPrefixOfRun(d: string, rest: string)
    requires AllDigits(d)
    requires rest == [] || !IsDigit(rest[0])
    ensures DigitPrefix(d + rest) == d && (d + rest)[|d|..] == rest
    decreases |d|
  {
    if d != [] {
      assert (d + rest)[1..] == d[1..] + rest;
      DigitPrefixOfRun(d[1..], rest);
    } else {
      assert d + rest == rest;
    }
  }

  /** A string starting with a digit has no whitespace or sign to skip. */
  lemma IntValUnsigned(s: string)
    requires s != [] && IsDigit(s[0])
    ensures IntVal(s) == UnsignedValue(s)
  {
    IntValUnsignedText(s);
  }

  /** Nor has a string that starts with neither whitespace nor a sign. */
  lemma IntValUnsignedText(s: string)
    requires s == [] || !(IsNumericSpace(s[0]) || s[0] == '+' || s[0] == '-')
    ensures IntVal(s) == UnsignedValue(s)
  {
    assert DropWhile(s, IsNumericSpace) == s;
  }

  /** A minus sign in front of unsigned text. */
  lemma IntValMinus(s: string)
    ensures IntVal("-" + s) == 0 - UnsignedValue(s)
  {
    var t := "-" + s;
    assert t[0] == '-' && t[1..] == s;
    assert DropWhile(t, IsNumericSpace) == t;
  }

  /** Digits followed by neither a digit nor a point: a numeral without a fraction. */
  lemma NumericPrefixOfInteger(whole: string, rest: string)
    requires whole != [] && AllDigits(whole)
    requires rest == [] || !(IsDigit(rest[0]) || rest[0] == '.')
    ensures NumericPrefix(whole + rest) == Some(Numeral(whole, [], ExponentOf(rest)))
  {
    DigitPrefixOfRun(whole, rest);
  }

  /** Digits, a point and digits: a numeral with that fraction. */
  lemma NumericPrefixOfDecimal(whole: string, fraction: string, rest: string)
    requires whole != [] && AllDigits(whole) && AllDigits(fraction)
    requires rest == [] || !IsDigit(rest[0])
    ensures NumericPrefix(whole + "." + fraction + rest) == Some(Numeral(whole, fraction, ExponentOf(rest)))
  {
    var after := "." + fraction + rest;
    assert whole + "." + fraction + rest == whole + after;
    DigitPrefixOfRun(whole, after);
    assert after[0] == '.' && after[1..] == fraction + rest;
    DigitPrefixOfRun(fraction, rest);
    assert after[1 + |fraction|..] == rest;
  }

  /** A decimal numeral followed by text that continues neither the number nor an exponent reads as its value. */
  lemma IntValOfNumeral(n: nat, rest: string)
    requires rest == [] || !(IsDigit(rest[0]) || rest[0] == '.' || rest[0] == 'e' || rest[0] == 'E')
    ensures IntVal(NatToString(n) + rest) == n
  {
    var d := NatToString(n);
    assert (d + rest)[0] == d[0];
    IntValUnsigned(d + rest);
    NumericPrefixOfInteger(d, rest);
    assert d + [] == d;
    ParseNatToString(n);
  }

  /** A fraction is cut off: `n.ddd` reads as `n`, whatever its digits. */
  lemma IntValTruncatesFraction(n: nat, fraction: string, rest: string)
    requires AllDigits(fraction)
    requires rest == [] || !(IsDigit(rest[0]) || rest[0] == 'e' || rest[0] == 'E')
    ensures IntVal(NatToString(n) + "." + fraction + rest) == n
  {
    var d := NatToString(n);
    var s := d + "." + fraction + rest;
    assert s[0] == d[0];
    IntValUnsigned(s);
    NumericPrefixOfDecimal(d, fraction, rest);
    assert NumeralValue(Numeral(d, fraction, 0)) == n by {
      ParseDigitsAppend(d, fraction);
      ParseDigitsBelow(fraction);
      ParseNatToString(n);
      DivOfMultiplePlus(n, Pow10(|fraction|), ParseDigits(fraction));
    }
  }

  /** An exponent scales the numeral: `ne` followed by digits `k` reads as `n * 10^k`. */
  lemma IntValScientific(n: nat, k: nat)
    ensures IntVal(NatToString(n) + "e" + NatToString(k)) == n * Pow10(k)
  {
    var d := NatToString(n);
    var rest := "e" + NatToString(k);
    assert d + "e" + NatToString(k) == d + rest;
    ExponentOfDigits(k);
    assert IntVal(d + rest) == NumeralValue(Numeral(d, [], k)) by {
      IntValOfInteger(d, rest);
    }
    IntegerNumeralValue(d, k);
    ParseNatToString(n);
  }

  /** A numeral without a fraction and with a non-negative exponent is its digits times a power of ten. */
  lemma IntegerNumeralValue(d: string, k: nat)
    requires d != [] && AllDigits(d)
    ensures NumeralValue(Numeral(d, [], k)) == ParseDigits(d) * Pow10(k)
  {
    assert d + [] == d;
    var m := ParseDigits(d);
    assert NumeralValue(Numeral(d, [], k)) == Scaled(m, k);
  }

  /** `e` followed by a numeral is that exponent. */
  lemma ExponentOfDigits(k: nat)
    ensures ExponentOf("e" + NatToString(k)) == k
  {
    var e := NatToString(k);
    assert ("e" + e)[1..] == e;
    DigitPrefixOfRun(e, []);
    assert e + [] == e;
    ParseNatToString(k);
  }

  /** A minus sign negates the value: PHP truncates toward zero, so `-2.9` reads as -2. */
  lemma IntValNegated(s: string)
    requires s == [] || !(IsNumericSpace(s[0]) || s[0] == '+' || s[0] == '-')
    ensures IntVal("-" + s) == -IntVal(s)
  {
    IntValMinus(s);
    IntValUnsignedText(s);
  }

  /** The command line check: a missing argument or an index outside 1..4 ends the script with exit code 1. */
  function ChunkIndexArg(argv: seq<string>): (r: Result<int, string>)
    ensures r.Success? <==> |argv| >= 2 && 1 <= IntVal(argv[1]) <= 4
    ensures r.Success? ==> r.value == IntVal(argv[1])
  {
    if |argv| < 2 then Failure("Usage: php process-chunk.php <chunk_index>")
    else
      var index := IntVal(argv[1]);
      if index < 1 || index > 4 then Failure("Chunk index must be between 1 and 4")
      else Success(index)
  }

  /** The numerals 1 to 4 are accepted. */
  lemma ChunkIndexArgAcceptsNumeral(script: string, k: nat)
    requires 1 <= k <= 4
    ensures ChunkIndexArg([script, NatToString(k)]) == Success(k)
  {
    IntValOfNumeral(k, []);
    assert NatToString(k) + [] == NatToString(k);
  }

  /** An argument starting with a letter reads as 0 and is rejected. */
  lemma ChunkIndexArgRejectsWord(script: string, word: string)
    requires word != [] && 'a' <= word[0] <= 'z'
    ensures ChunkIndexArg([script, word]).Failure?
  {
    assert IntVal(word) == 0 by {
      assert DropWhile(word, IsNumericSpace) == word;
      assert DigitPrefix(word) == [];
    }
  }

  /** A fraction is cut off, so `4.9` selects chunk 4. */
  lemma ChunkIndexArgTruncates(script: string, arg: string)
    requires arg == "4.9"
    ensures ChunkIndexArg([script, arg]) == Success(4)
  {
    assert arg == NatToString(4) + "." + "9" + [] by {
      assert NatToString(4) == "4";
    }
    IntValTruncatesFraction(4, "9", []);
  }

  /** An exponent is read: `0.3e1` selects chunk 3. */
  lemma ChunkIndexArgReadsExponent(script: string, arg: string)
    requires arg == "0.3e1"
    ensures ChunkIndexArg([script, arg]) == Success(3)
  {
    var d := NatToString(0);
    assert arg == d + "." + "3" + ("e" + NatToString(1)) by {
      assert d == "0" && NatToString(1) == "1";
    }
    assert d + "." + "3" + ("e" + NatToString(1)) == d + ("." + "3" + ("e" + NatToString(1)));
    assert arg[0] == d[0];
    IntValUnsigned(arg);
    NumericPrefixOfDecimal(d, "3", "e" + NatToString(1));
    ExponentOfDigits(1);
    PointThreeTimesTenValue(d);
  }

  /** The digits `0` and `3` with one place of fraction and exponent 1 are worth 3. */
  lemma PointThreeTimesTenValue(d: string)
    requires d == "0"
    ensures NumeralValue(Numeral(d, "3", 1)) == 3
  {
    var m := d + "3";
    assert m[..1] == d && m[1] == '3';
    assert ParseDigits(m) == 10 * ParseDigits(d) + 3;
    assert ParseDigits(d) == 0 by {
      assert d[..0] == [];
    }
  }

  /** `1e1` reads as 10 and is rejected. */
  lemma ChunkIndexArgRejectsTen(script: string, arg: string)
    requires arg == "1e1"
    ensures ChunkIndexArg([script, arg]).Failure?
  {
    assert arg == NatToString(1) + "e" + NatToString(1) by {
      assert NatToString(1) == "1";
    }
    IntValScientific(1, 1);
    assert Pow10(1) == 10;
  }

  /** A negative exponent scales down: `2e-1` reads as 0 and is rejected. */
  lemma ChunkIndexArgNegativeExponent(script: string, arg: string)
    requires arg == "2e-1"
    ensures ChunkIndexArg([script, arg]).Failure?
  {
    assert arg == NatToString(2) + "e-" + NatToString(1) by {
      assert NatToString(2) == "2" && NatToString(1) == "1";
    }
    IntValNegativeExponent(2, 1);
    assert Pow10(1) == 10;
  }

  /** A negative exponent divides: `ne-k` reads as `n / 10^k`, truncated. */
  lemma IntValNegativeExponent(n: nat, k: nat)
    ensures IntVal(NatToString(n) + "e-" + NatToString(k)) == n / Pow10(k)
  {
    NegativeExponentNumeral(n, k);
    ScaledDownNumeralValue(NatToString(n), k);
    ParseNatToString(n);
  }

  /** `ne-k` is the numeral with the digits of `n` and exponent `-k`. */
  lemma NegativeExponentNumeral(n: nat, k: nat)
    ensures WellFormed(Numeral(NatToString(n), [], -(k as int)))
    ensures IntVal(NatToString(n) + "e-" + NatToString(k)) == NumeralValue(Numeral(NatToString(n), [], -(k as int)))
  {
    var d := NatToString(n);
    var rest := "e-" + NatToString(k);
    assert d + "e-" + NatToString(k) == d + rest;
    ExponentOfNegative(k);
    var x := ExponentOf(rest);
    assert IntVal(d + rest) == NumeralValue(Numeral(d, [], x)) by {
      IntValOfInteger(d, rest);
    }
  }

  /** A numeral without a fraction and with exponent `-k` is its digits divided by `10^k`, truncated. */
  lemma ScaledDownNumeralValue(d: string, k: nat)
    requires d != [] && AllDigits(d)
    ensures NumeralValue(Numeral(d, [], -(k as int))) == ParseDigits(d) / Pow10(k)
  {
    assert d + [] == d;
    var m := ParseDigits(d);
    assert -(k as int) - 0 == -(k as int);
    assert NumeralValue(Numeral(d, [], -(k as int))) == Scaled(m, -(k as int));
    if k > 0 {
      assert Scaled(m, -(k as int)) == m / Pow10(k);
    }
  }

  /** Digits followed by neither a digit nor a point read as a numeral without a fraction. */
  lemma IntValOfInteger(d: string, rest: string)
    requires d != [] && AllDigits(d)
    requires rest == [] || !(IsDigit(rest[0]) || rest[0] == '.')
    ensures IntVal(d + rest) == NumeralValue(Numeral(d, [], ExponentOf(rest)))
  {
    assert (d + rest)[0] == d[0];
    IntValUnsigned(d + rest);
    NumericPrefixOfInteger(d, rest);
  }

  /** `e-` followed by a numeral is that exponent, negated. */
  lemma ExponentOfNegative(k: nat)
    ensures ExponentOf("e-" + NatToString(k)) == -(k as int)
  {
    var e := NatToString(k);
    assert ("e-" + e)[2..] == e && ("e-" + e)[1] == '-';
    DigitPrefixOfRun(e, []);
    assert e + [] == e;
    ParseNatToString(k);
  }
}
