/**
 * Character, string and sequence helpers shared by the build-script models:
 * ASCII case mapping, prefix/substring tests, single-character split and
 * join, run collapsing (the `/[x]+/g` replacements), trimming, literal
 * replace-all, insertion-ordered sets (JavaScript `Set`, PHP
 * `array_unique`) and decimal rendering of naturals.
 */
module Text {

  // ---------------------------------------------------------------- characters

  predicate IsUpper(c: char) { 'A' <= c <= 'Z' }
  predicate IsLower(c: char) { 'a' <= c <= 'z' }
  predicate IsDigit(c: char) { '0' <= c <= '9' }

  /** ASCII lower-casing of one character (`strtolower`, and `toLowerCase` on ASCII). */
  function LowerChar(c: char): char {
    if IsUpper(c) then (c as int + 32) as char else c
  }

  /** ASCII upper-casing of one character (`strtoupper`, and `toUpperCase` on ASCII). */
  function UpperChar(c: char): char {
    if IsLower(c) then (c as int - 32) as char else c
  }

  function Lower(s: string): string {
    seq(|s|, i requires 0 <= i < |s| => LowerChar(s[i]))
  }

  function Upper(s: string): string {
    seq(|s|, i requires 0 <= i < |s| => UpperChar(s[i]))
  }

  lemma LowerHasNoUpper(s: string)
    ensures forall i :: 0 <= i < |Lower(s)| ==> !IsUpper(Lower(s)[i])
  {
  }

  lemma LowerIdempotent(s: string)
    ensures Lower(Lower(s)) == Lower(s)
  {
  }

  // ---------------------------------------------------------------- prefixes and substrings

  predicate StartsWith(s: string, p: string) { |p| <= |s| && s[..|p|] == p }

  predicate EndsWith(s: string, p: string) { |p| <= |s| && s[|s| - |p|..] == p }

  /** A concatenation starts with its first part and ends with its second. */
  lemma AppendAffixes(a: string, b: string)
    ensures StartsWith(a + b, a) && EndsWith(a + b, b)
  {
    assert (a + b)[..|a|] == a;
    assert (a + b)[|a|..] == b;
  }

  /** `s.includes(p)` / `strpos($s, $p) !== false`: `p` occurs somewhere in `s`. */
  predicate Contains(s: string, p: string) {
    exists i :: 0 <= i <= |s| - |p| && StartsWith(s[i..], p)
  }

  /** The first index of `c` in `s`, or -1 (`indexOf` for one character). */
  function IndexOfChar(s: string, c: char): (r: int)
    ensures -1 <= r < |s|
    ensures r >= 0 ==> s[r] == c && c !in s[..r]
    ensures r == -1 ==> c !in s
  {
    if |s| == 0 then -1
    else if s[0] == c then 0
    else
      var k := IndexOfChar(s[1..], c);
      assert k >= 0 ==> s[..k + 1] == [s[0]] + s[1..][..k];
      if k == -1 then -1 else k + 1
  }

  /** The last index of `c` in `s`, or -1 (`lastIndexOf` for one character). */
  function LastIndexOfChar(s: string, c: char): (r: int)
    ensures -1 <= r < |s|
    ensures r >= 0 ==> s[r] == c && c !in s[r + 1..]
    ensures r == -1 ==> c !in s
  {
    if |s| == 0 then -1
    else if s[|s| - 1] == c then |s| - 1
    else
      var init := s[..|s| - 1];
      var k := LastIndexOfChar(init, c);
      LastIndexStep(s, init, c, k);
      k
  }

  lemma LastIndexStep(s: string, init: string, c: char, k: int)
    requires |s| > 0 && init == s[..|s| - 1] && s[|s| - 1] != c && -1 <= k < |init|
    requires k >= 0 ==> init[k] == c && c !in init[k + 1..]
    requires k == -1 ==> c !in init
    ensures k >= 0 ==> s[k] == c && c !in s[k + 1..]
    ensures k == -1 ==> c !in s
  {
    assert s == init + [s[|s| - 1]];
    if k >= 0 {
      assert s[k + 1..] == init[k + 1..] + [s[|s| - 1]];
    }
  }

  lemma IndexOfCharAt(a: string, c: char, b: string)
    requires c !in a
    ensures IndexOfChar(a + [c] + b, c) == |a|
  {
    var s := a + [c] + b;
    assert s[|a|] == c;
    assert s[..|a|] == a;
  }

  /** The last `c` of `a + [c] + b` is the one between them when `b` has none. */
  lemma LastIndexOfCharAt(a: string, c: char, b: string)
    requires c !in b
    ensures LastIndexOfChar(a + [c] + b, c) == |a|
  {
    var s := a + [c] + b;
    assert s[|a|] == c;
    assert s[|a| + 1..] == b;
  }

  // ---------------------------------------------------------------- split and join

  /** `parts.join(sep)` / `implode($sep, $parts)`. */
  function Join(parts: seq<string>, sep: string): string
  {
    if |parts| == 0 then ""
    else if |parts| == 1 then parts[0]
    else parts[0] + sep + Join(parts[1..], sep)
  }

  /** `s.split(c)` / `explode($c, $s)` for a one-character separator. */
  function Split(s: string, c: char): (parts: seq<string>)
    ensures |parts| >= 1
    ensures forall i :: 0 <= i < |parts| ==> c !in parts[i]
    decreases |s|
  {
    var k := IndexOfChar(s, c);
    if k < 0 then [s] else [s[..k]] + Split(s[k + 1..], c)
  }

  /** The first piece of a split is everything before the first separator. */
  lemma SplitFirst(a: string, c: char, b: string)
    requires c !in a
    ensures Split(a + [c] + b, c)[0] == a
  {
    IndexOfCharAt(a, c, b);
    assert (a + [c] + b)[..|a|] == a;
  }

  /** A string without the separator is its own only piece. */
  lemma SplitWithoutSeparator(s: string, c: char)
    requires c !in s
    ensures Split(s, c) == [s]
  {
    assert IndexOfChar(s, c) == -1;
  }

  /** Joining a first part before at least one more puts the separator after it. */
  lemma JoinPrepend(x: string, rest: seq<string>, sep: string)
    requires |rest| >= 1
    ensures Join([x] + rest, sep) == x + sep + Join(rest, sep)
  {
    assert ([x] + rest)[1..] == rest;
  }

  /** A split at the first separator: the piece before it, then the pieces of the rest. */
  lemma SplitAtFirst(s: string, c: char)
    requires IndexOfChar(s, c) >= 0
    ensures var k := IndexOfChar(s, c);
      Split(s, c) == [s[..k]] + Split(s[k + 1..], c) && s == s[..k] + [c] + s[k + 1..]
  {
  }

  /** Joining the pieces of a split with the separator gives back the string. */
  lemma {:induction false} JoinSplit(s: string, c: char)
    ensures Join(Split(s, c), [c]) == s
    decreases |s|
  {
    var k := IndexOfChar(s, c);
    if k >= 0 {
      var rest := s[k + 1..];
      JoinSplit(rest, c);
      SplitAtFirst(s, c);
      JoinPrepend(s[..k], Split(rest, c), [c]);
    }
  }

  /** Splitting a join of separator-free pieces gives back the pieces. */
  lemma {:induction false} SplitJoin(parts: seq<string>, c: char)
    requires |parts| >= 1
    requires forall i :: 0 <= i < |parts| ==> c !in parts[i]
    ensures Split(Join(parts, [c]), c) == parts
  {
    if |parts| > 1 {
      var rest := Join(parts[1..], [c]);
      IndexOfCharAt(parts[0], c, rest);
      var s := parts[0] + [c] + rest;
      assert s[..|parts[0]|] == parts[0];
      assert s[|parts[0]| + 1..] == rest;
      SplitJoin(parts[1..], c);
    }
  }

  /** The last piece of a split: everything after the last separator. */
  function Last<T>(s: seq<T>): T
    requires |s| > 0
  {
    s[|s| - 1]
  }

  // ---------------------------------------------------------------- runs and trimming

  function DropWhile(s: string, P: char -> bool): (r: string)
    ensures |r| <= |s| && r == s[|s| - |r|..]
    ensures r == [] || !P(r[0])
    ensures forall i :: 0 <= i < |s| - |r| ==> P(s[i])
  {
    if |s| == 0 || !P(s[0]) then s
    else
      var r := DropWhile(s[1..], P);
      DropWhileStep(s, P, r);
      r
  }

  lemma DropWhileStep(s: string, P: char -> bool, r: string)
    requires |s| > 0 && P(s[0])
    requires |r| <= |s| - 1 && r == s[1..][|s| - 1 - |r|..]
    requires forall i :: 0 <= i < |s| - 1 - |r| ==> P(s[1..][i])
    ensures r == s[|s| - |r|..]
    ensures forall i :: 0 <= i < |s| - |r| ==> P(s[i])
  {
    forall i | 0 <= i < |s| - |r|
      ensures P(s[i])
    {
      if i > 0 {
        assert s[i] == s[1..][i - 1];
      }
    }
  }

  /**
   * `s.replace(/[P]+/g, r)` / `preg_replace('/[P]+/', r, $s)`: every maximal run of
   * characters satisfying `P` becomes the single character `r`.
   */
  function CollapseRuns(s: string, P: char -> bool, r: char): (out: string)
    ensures |s| > 0 <==> |out| > 0
    ensures |s| > 0 ==> out[0] == (if P(s[0]) then r else s[0])
    ensures forall i :: 0 <= i < |out| ==> out[i] == r || (out[i] in s && !P(out[i]))
    ensures P(r) ==> forall i :: 0 <= i < |out| - 1 ==> !(P(out[i]) && P(out[i + 1]))
    decreases |s|
  {
    if |s| == 0 then []
    else
      var tail := if P(s[0]) then DropWhile(s[1..], P) else s[1..];
      var rest := CollapseRuns(tail, P, r);
      var c := if P(s[0]) then r else s[0];
      CollapseCons(s, tail, c, rest, P, r);
      [c] + rest
  }

  /** The shape facts of `CollapseRuns` carry over from the collapsed tail to the whole string. */
  lemma CollapseCons(s: string, tail: string, c: char, rest: string, P: char -> bool, r: char)
    requires |s| > 0 && c == (if P(s[0]) then r else s[0])
    requires |tail| < |s| && tail == s[|s| - |tail|..]
    requires P(s[0]) ==> tail == [] || !P(tail[0])
    requires |tail| > 0 <==> |rest| > 0
    requires |tail| > 0 ==> rest[0] == (if P(tail[0]) then r else tail[0])
    requires forall i :: 0 <= i < |rest| ==> rest[i] == r || (rest[i] in tail && !P(rest[i]))
    requires P(r) ==> forall i :: 0 <= i < |rest| - 1 ==> !(P(rest[i]) && P(rest[i + 1]))
    ensures forall i :: 0 <= i < |[c] + rest| ==> ([c] + rest)[i] == r || (([c] + rest)[i] in s && !P(([c] + rest)[i]))
    ensures P(r) ==> forall i :: 0 <= i < |[c] + rest| - 1 ==> !(P(([c] + rest)[i]) && P(([c] + rest)[i + 1]))
  {
    var out := [c] + rest;
    forall i | 0 <= i < |out| && out[i] != r
      ensures out[i] in s && !P(out[i])
    {
      if i == 0 {
        assert out[0] == s[0];
      } else {
        assert out[i] == rest[i - 1];
        var k :| 0 <= k < |tail| && tail[k] == out[i];
        assert s[|s| - |tail| + k] == tail[k];
      }
    }
    if P(r) {
      forall i | 0 <= i < |out| - 1
        ensures !(P(out[i]) && P(out[i + 1]))
      {
        if i > 0 {
          assert out[i] == rest[i - 1] && out[i + 1] == rest[i];
        } else if P(s[0]) {
          assert out[1] == rest[0];
        } else {
          assert out[0] == s[0];
        }
      }
    }
  }

  /** A string without two adjacent characters satisfying `P`, whose `P`-characters are all `r`, is its own collapse. */
  lemma {:induction false} CollapseRunsFixpoint(s: string, P: char -> bool, r: char)
    requires forall i :: 0 <= i < |s| - 1 ==> !(P(s[i]) && P(s[i + 1]))
    requires forall i :: 0 <= i < |s| && P(s[i]) ==> s[i] == r
    ensures CollapseRuns(s, P, r) == s
    decreases |s|
  {
    if |s| > 0 {
      CollapseRunsFixpoint(s[1..], P, r);
      if P(s[0]) {
        assert |s| == 1 || !P(s[1]);
        assert DropWhile(s[1..], P) == s[1..];
      }
    }
  }

  /** Remove every leading and trailing character satisfying `P` (`trim`). */
  function TrimWhere(s: string, P: char -> bool): (r: string)
    ensures r == [] || (!P(r[0]) && !P(r[|r| - 1]))
    ensures s == [] || (!P(s[0]) && !P(s[|s| - 1])) ==> r == s
    decreases |s|
  {
    if |s| > 0 && P(s[0]) then TrimWhere(s[1..], P)
    else if |s| > 0 && P(s[|s| - 1]) then TrimWhere(s[..|s| - 1], P)
    else s
  }

  /** The characters removed by ECMAScript's `String.prototype.trim` (WhiteSpace and LineTerminator). */
  predicate IsJsWhitespace(c: char) {
    c == '\t' || c == '\n' || c == '\U{000B}' || c == '\U{000C}' || c == '\r' || c == ' '
    || c == '\U{00A0}' || c == '\U{1680}' || ('\U{2000}' <= c <= '\U{200A}')
    || c == '\U{2028}' || c == '\U{2029}' || c == '\U{202F}' || c == '\U{205F}'
    || c == '\U{3000}' || c == '\U{FEFF}'
  }

  function TrimJs(s: string): string { TrimWhere(s, IsJsWhitespace) }

  // ---------------------------------------------------------------- literal replacement

  /**
   * The pieces of `s` between the occurrences of `pat` found by a left-to-right scan
   * that skips past each occurrence it finds.
   */
  function SplitOn(s: string, pat: string): (parts: seq<string>)
    requires |pat| > 0
    ensures |parts| >= 1
    decreases |s|
  {
    if |s| < |pat| then [s]
    else if s[..|pat|] == pat then [""] + SplitOn(s[|pat|..], pat)
    else
      var rest := SplitOn(s[1..], pat);
      [[s[0]] + rest[0]] + rest[1..]
  }

  /** `str_replace($pat, $rep, $s)` for one pair: each occurrence found left to right becomes `rep`. */
  function ReplaceAll(s: string, pat: string, rep: string): string
    decreases |s|
  {
    if |pat| == 0 || |s| < |pat| then s
    else if s[..|pat|] == pat then rep + ReplaceAll(s[|pat|..], pat, rep)
    else [s[0]] + ReplaceAll(s[1..], pat, rep)
  }

  lemma JoinCons(head: string, parts: seq<string>, sep: string)
    requires |parts| >= 1
    ensures Join([head + parts[0]] + parts[1..], sep) == head + Join(parts, sep)
  {
    if |parts| > 1 {
      assert ([head + parts[0]] + parts[1..])[1..] == parts[1..];
    }
  }

  /** Every part followed by `sep` (`foreach (...) $out .= $part . $sep;`). */
  function JoinTerminated(parts: seq<string>, sep: string): string {
    if parts == [] then "" else JoinTerminated(parts[..|parts| - 1], sep) + parts[|parts| - 1] + sep
  }

  /** One more part written with its terminator. */
  lemma JoinTerminatedSnoc(parts: seq<string>, x: string, sep: string)
    ensures JoinTerminated(parts + [x], sep) == JoinTerminated(parts, sep) + x + sep
  {
    assert (parts + [x])[..|parts|] == parts;
  }

  /** Terminating every part is joining them and terminating the last. */
  lemma {:induction false} JoinTerminatedIsJoin(parts: seq<string>, sep: string)
    requires |parts| >= 1
    ensures JoinTerminated(parts, sep) == Join(parts, sep) + sep
    decreases |parts|
  {
    var init := parts[..|parts| - 1];
    var last := parts[|parts| - 1];
    assert JoinTerminated(parts, sep) == JoinTerminated(init, sep) + last + sep;
    if |init| >= 1 {
      JoinTerminatedIsJoin(init, sep);
      assert init + [last] == parts;
      JoinAppend(init, [last], sep);
      assert Join([last], sep) == last;
    }
  }

  /** Joining two non-empty lists is joining each and putting one separator between them. */
  lemma {:induction false} JoinAppend(a: seq<string>, b: seq<string>, sep: string)
    requires |a| >= 1 && |b| >= 1
    ensures Join(a + b, sep) == Join(a, sep) + sep + Join(b, sep)
    decreases |a|
  {
    assert (a + b)[0] == a[0];
    if |a| == 1 {
      assert (a + b)[1..] == b;
    } else {
      assert (a + b)[1..] == a[1..] + b;
      JoinAppend(a[1..], b, sep);
    }
  }

  /** Replacing every occurrence is joining the pieces between occurrences with the replacement. */
  lemma {:induction false} ReplaceAllJoinsPieces(s: string, pat: string, rep: string)
    requires |pat| > 0
    ensures ReplaceAll(s, pat, rep) == Join(SplitOn(s, pat), rep)
    decreases |s|
  {
    if |s| >= |pat| {
      if s[..|pat|] == pat {
        ReplaceAllJoinsPieces(s[|pat|..], pat, rep);
        var rest := SplitOn(s[|pat|..], pat);
        assert Join([""] + rest, rep) == "" + rep + Join(rest, rep);
      } else {
        ReplaceAllJoinsPieces(s[1..], pat, rep);
        JoinCons([s[0]], SplitOn(s[1..], pat), rep);
      }
    }
  }

  /** Joining the pieces between occurrences with the pattern itself gives back the string. */
  lemma {:induction false} SplitOnJoin(s: string, pat: string)
    requires |pat| > 0
    ensures Join(SplitOn(s, pat), pat) == s
    decreases |s|
  {
    if |s| >= |pat| {
      if s[..|pat|] == pat {
        SplitOnJoin(s[|pat|..], pat);
        var rest := SplitOn(s[|pat|..], pat);
        assert Join([""] + rest, pat) == "" + pat + Join(rest, pat);
        assert s == s[..|pat|] + s[|pat|..];
      } else {
        SplitOnJoin(s[1..], pat);
        JoinCons([s[0]], SplitOn(s[1..], pat), pat);
        assert s == [s[0]] + s[1..];
      }
    }
  }

  /** No piece between two found occurrences contains the pattern: the scan misses none. */
  lemma {:induction false} SplitOnPiecesFree(s: string, pat: string)
    requires |pat| > 0
    ensures forall i :: 0 <= i < |SplitOn(s, pat)| ==> !Contains(SplitOn(s, pat)[i], pat)
    decreases |s|
  {
    var parts := SplitOn(s, pat);
    if |s| < |pat| {
    } else if s[..|pat|] == pat {
      SplitOnPiecesFree(s[|pat|..], pat);
      var rest := SplitOn(s[|pat|..], pat);
      forall i | 0 <= i < |parts| ensures !Contains(parts[i], pat) {
        if i > 0 { assert parts[i] == rest[i - 1]; }
      }
    } else {
      SplitOnPiecesFree(s[1..], pat);
      var rest := SplitOn(s[1..], pat);
      forall i | 0 <= i < |parts| ensures !Contains(parts[i], pat) {
        if i == 0 {
          FirstPieceFree(s, pat, rest);
        } else {
          assert parts[i] == rest[i];
        }
      }
    }
  }

  lemma FirstPieceFree(s: string, pat: string, rest: seq<string>)
    requires |pat| > 0 && |s| >= |pat| && s[..|pat|] != pat
    requires rest == SplitOn(s[1..], pat)
    requires !Contains(rest[0], pat)
    ensures !Contains([s[0]] + rest[0], pat)
  {
    var p0 := [s[0]] + rest[0];
    assert StartsWith(s[1..], rest[0]) by {
      SplitOnJoin(s[1..], pat);
      JoinPrefix(rest, pat);
    }
    forall k | 0 <= k <= |p0| - |pat| ensures !StartsWith(p0[k..], pat) {
      if k == 0 {
        assert p0[..|pat|] == s[..|pat|];
      } else {
        assert p0[k..] == rest[0][k - 1..];
      }
    }
  }

  lemma JoinPrefix(parts: seq<string>, sep: string)
    requires |parts| >= 1
    ensures StartsWith(Join(parts, sep), parts[0])
  {
    if |parts| > 1 {
      assert Join(parts, sep) == parts[0] + (sep + Join(parts[1..], sep));
    }
  }

  /** Replacing a pattern by itself changes nothing, and a string without the pattern is left alone. */
  lemma ReplaceAllIdentities(s: string, pat: string, rep: string)
    requires |pat| > 0
    ensures ReplaceAll(s, pat, pat) == s
    ensures !Contains(s, pat) ==> ReplaceAll(s, pat, rep) == s
  {
    ReplaceAllJoinsPieces(s, pat, pat);
    SplitOnJoin(s, pat);
    ReplaceAllJoinsPieces(s, pat, rep);
    if !Contains(s, pat) {
      NoOccurrenceOnePiece(s, pat);
    }
  }

  lemma {:induction false} NoOccurrenceOnePiece(s: string, pat: string)
    requires |pat| > 0
    requires !Contains(s, pat)
    ensures SplitOn(s, pat) == [s]
    decreases |s|
  {
    if |s| >= |pat| {
      assert StartsWith(s[0..], pat) ==> Contains(s, pat);
      assert s[0..] == s;
      assert s[..|pat|] != pat;
      assert s == [s[0]] + s[1..];
      forall k | 0 <= k <= |s[1..]| - |pat| ensures !StartsWith(s[1..][k..], pat) {
        assert s[1..][k..] == s[k + 1..];
      }
      NoOccurrenceOnePiece(s[1..], pat);
    }
  }

  // ---------------------------------------------------------------- filtering and ordered sets

  function Filter<T(==,!new)>(xs: seq<T>, P: T -> bool): (r: seq<T>)
    ensures |r| <= |xs|
    ensures forall x :: x in r <==> x in xs && P(x)
  {
    if xs == [] then [] else (if P(xs[0]) then [xs[0]] else []) + Filter(xs[1..], P)
  }

  predicate Distinct<T(==)>(s: seq<T>) {
    forall i, j :: 0 <= i < j < |s| ==> s[i] != s[j]
  }

  /** Filtering keeps a sequence free of duplicates. */
  lemma {:induction false} FilterDistinct<T(!new)>(xs: seq<T>, P: T -> bool)
    requires Distinct(xs)
    ensures Distinct(Filter(xs, P))
    decreases |xs|
  {
    if xs != [] {
      FilterDistinct(xs[1..], P);
      assert xs[0] !in xs[1..] by {
        forall j | 0 <= j < |xs| - 1 ensures xs[1..][j] != xs[0] {
          assert xs[1..][j] == xs[j + 1];
        }
      }
    }
  }

  /** `set.add(x)` on an insertion-ordered set held as a sequence. */
  function Add<T(==)>(s: seq<T>, x: T): seq<T> {
    if x in s then s else s + [x]
  }

  /** Two lines, each followed by the separator. */
  lemma JoinTerminatedPair(a: string, b: string, sep: string)
    ensures JoinTerminated([a, b], sep) == a + sep + b + sep
  {
    JoinTerminatedSnoc([], a, sep);
    assert [] + [a] == [a];
    JoinTerminatedSnoc([a], b, sep);
    assert [a] + [b] == [a, b];
  }

  /** `c` does not occur from position `i` on, checked one character at a time. */
  predicate LacksFrom(s: string, c: char, i: nat)
    decreases |s| - i
  {
    i >= |s| || (s[i] != c && LacksFrom(s, c, i + 1))
  }

  lemma {:induction false} LacksFromAll(s: string, c: char, i: nat)
    requires LacksFrom(s, c, i)
    ensures forall j :: i <= j < |s| ==> s[j] != c
    decreases |s| - i
  {
    if i < |s| {
      LacksFromAll(s, c, i + 1);
    }
  }

  /** A short literal without `c`, checked character by character. */
  lemma LacksLiteral(s: string, c: char)
    requires LacksFrom(s, c, 0)
    ensures c !in s
  {
    LacksFromAll(s, c, 0);
  }

  /** An index into the middle part of a three-part concatenation. */
  lemma IndexMiddle<T>(a: seq<T>, b: seq<T>, c: seq<T>, k: int)
    requires |a| <= k < |a| + |b|
    ensures k < |a + b + c| && (a + b + c)[k] == b[k - |a|]
  {
  }

  /** An index into the first part of a concatenation. */
  lemma IndexFront<T>(a: seq<T>, b: seq<T>, k: int)
    requires 0 <= k < |a|
    ensures (a + b)[k] == a[k]
  {
  }

  /** Adding the elements of `xs` one after another (`xs.forEach(x => set.add(x))`). */
  function AddAll<T(==,!new)>(s: seq<T>, xs: seq<T>): (r: seq<T>)
    ensures Distinct(s) ==> Distinct(r)
    ensures forall x :: x in r <==> x in s || x in xs
    ensures |s| <= |r| && r[..|s|] == s
    ensures |r| <= |s| + |xs|
  {
    if xs == [] then s else Add(AddAll(s, xs[..|xs| - 1]), xs[|xs| - 1])
  }

  /** `Array.from(new Set(xs))`: the distinct elements in order of first occurrence. */
  function Dedup<T(==,!new)>(xs: seq<T>): (r: seq<T>)
    ensures Distinct(r)
    ensures forall x :: x in r <==> x in xs
    ensures |r| <= |xs|
  {
    AddAll([], xs)
  }

  lemma {:induction false} AddAllAppend<T(!new)>(s: seq<T>, xs: seq<T>, ys: seq<T>)
    ensures AddAll(s, xs + ys) == AddAll(AddAll(s, xs), ys)
    decreases |ys|
  {
    if ys == [] {
      assert xs + ys == xs;
    } else {
      assert (xs + ys)[..|xs + ys| - 1] == xs + ys[..|ys| - 1];
      AddAllAppend(s, xs, ys[..|ys| - 1]);
    }
  }

  /** De-duplicating a concatenation keeps the de-duplicated first part as a prefix. */
  lemma DedupAppendPrefix<T(!new)>(xs: seq<T>, ys: seq<T>)
    ensures |Dedup(xs)| <= |Dedup(xs + ys)| && Dedup(xs + ys)[..|Dedup(xs)|] == Dedup(xs)
  {
    AddAllAppend([], xs, ys);
  }

  /** Adding one more element to an ordered set built by `AddAll`. */
  lemma AddAllSnoc<T(!new)>(s: seq<T>, xs: seq<T>, a: T)
    ensures AddAll(s, xs + [a]) == Add(AddAll(s, xs), a)
  {
    var ys := xs + [a];
    assert ys[..|ys| - 1] == xs;
    assert ys[|ys| - 1] == a;
  }

  /** Adding two more elements to an ordered set built by `AddAll`. */
  lemma AddAllSnoc2<T(!new)>(s: seq<T>, xs: seq<T>, a: T, b: T)
    ensures AddAll(s, xs + [a, b]) == Add(Add(AddAll(s, xs), a), b)
  {
    assert xs + [a, b] == (xs + [a]) + [b];
    AddAllSnoc(s, xs + [a], b);
    AddAllSnoc(s, xs, a);
  }

  /** Adding elements that are all present already changes nothing. */
  lemma {:induction false} AddAllPresent<T(!new)>(s: seq<T>, xs: seq<T>)
    requires forall x :: x in xs ==> x in s
    ensures AddAll(s, xs) == s
    decreases |xs|
  {
    if xs != [] {
      AddAllPresent(s, xs[..|xs| - 1]);
    }
  }

  /** A duplicate-free sequence is its own de-duplication. */
  lemma {:induction false} AddAllDistinct<T(!new)>(s: seq<T>, xs: seq<T>)
    requires Distinct(s + xs)
    ensures AddAll(s, xs) == s + xs
    decreases |xs|
  {
    if xs != [] {
      var init := xs[..|xs| - 1];
      assert s + xs == (s + init) + [xs[|xs| - 1]];
      assert Distinct(s + init) by {
        forall i, j | 0 <= i < j < |s + init| ensures (s + init)[i] != (s + init)[j] {
          assert (s + init)[i] == (s + xs)[i] && (s + init)[j] == (s + xs)[j];
        }
      }
      AddAllDistinct(s, init);
      assert xs[|xs| - 1] !in s + init by {
        forall i | 0 <= i < |s + init| ensures (s + init)[i] != xs[|xs| - 1] {
          assert (s + init)[i] == (s + xs)[i] && xs[|xs| - 1] == (s + xs)[|s + xs| - 1];
        }
      }
    }
  }

  /** De-duplicating a list that starts with duplicate-free elements adds the rest to those in order. */
  lemma DedupAfterDistinct<T(!new)>(s: seq<T>, xs: seq<T>)
    requires Distinct(s)
    ensures Dedup(s + xs) == AddAll(s, xs)
  {
    AddAllAppend([], s, xs);
    assert [] + s == s;
    AddAllDistinct([], s);
  }

  // ---------------------------------------------------------------- decimal numerals

  function DigitChar(d: nat): char
    requires d < 10
  {
    ('0' as int + d) as char
  }

  function DigitValue(c: char): nat
    requires IsDigit(c)
  {
    c as int - '0' as int
  }

  /** The decimal rendering of `n` (`String(n)`, `"$n"`). */
  function NatToString(n: nat): (s: string)
    ensures |s| >= 1
    ensures forall i :: 0 <= i < |s| ==> IsDigit(s[i])
    ensures s[0] == '0' ==> n == 0
  {
    if n < 10 then [DigitChar(n)] else NatToString(n / 10) + [DigitChar(n % 10)]
  }

  /** The value of a string of decimal digits. */
  function ParseDigits(s: string): nat
    requires forall i :: 0 <= i < |s| ==> IsDigit(s[i])
  {
    if |s| == 0 then 0 else 10 * ParseDigits(s[..|s| - 1]) + DigitValue(s[|s| - 1])
  }

  lemma {:induction false} ParseNatToString(n: nat)
    ensures ParseDigits(NatToString(n)) == n
  {
    if n >= 10 {
      var s := NatToString(n);
      assert s[..|s| - 1] == NatToString(n / 10);
      ParseNatToString(n / 10);
    }
  }

  /** Distinct numbers have distinct numerals. */
  lemma NatToStringInjective(a: nat, b: nat)
    requires NatToString(a) == NatToString(b)
    ensures a == b
  {
    ParseNatToString(a);
    ParseNatToString(b);
  }
}
