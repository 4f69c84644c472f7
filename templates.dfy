/**
 * What the two detail-page generators share: the `{{name}}` placeholder
 * syntax and the expansion of a `{{#…}}…{{/…}}` block. Both generators find
 * a block with a lazy, dot-all regular expression (`{{#each tags}}(.*?){{/each}}`
 * with the `s` flag): the leftmost opening marker, the nearest closing marker
 * after it, and the text between them handed to a callback whose result
 * replaces the whole block. The search then resumes after the closing marker.
 */
module Templates {
  import opened Text

  /** The placeholder `{{name}}`. */
  function Placeholder(name: string): (p: string)
    ensures |p| == |name| + 4
    ensures p[0] == '{' && p[1] == '{'
  {
    "{{" + name + "}}"
  }

  /** `pat` occurs in `s` starting at position `k`. */
  predicate OccursAt(s: string, pat: string, k: int) {
    0 <= k && k + |pat| <= |s| && s[k..k + |pat|] == pat
  }

  /** The first position at which `pat` occurs in `s`, or -1 when it occurs nowhere. */
  function IndexOf(s: string, pat: string): (r: int)
    requires |pat| > 0
    ensures -1 <= r && (r >= 0 ==> r + |pat| <= |s|)
    decreases |s|
  {
    if |s| < |pat| then -1
    else if s[..|pat|] == pat then 0
    else
      var k := IndexOf(s[1..], pat);
      if k < 0 then -1 else k + 1
  }

  lemma OccursShift(s: string, pat: string, j: int)
    requires |s| > 0 && j >= 0
    ensures OccursAt(s[1..], pat, j) <==> OccursAt(s, pat, j + 1)
  {
    if 0 <= j && j + |pat| <= |s| - 1 {
      assert s[1..][j..j + |pat|] == s[j + 1..j + 1 + |pat|];
    }
  }

  /** `IndexOf` finds the first occurrence, and reports -1 exactly when there is none. */
  lemma {:induction false} IndexOfFirst(s: string, pat: string)
    requires |pat| > 0
    ensures IndexOf(s, pat) >= 0 ==> OccursAt(s, pat, IndexOf(s, pat))
    ensures forall k :: 0 <= k < IndexOf(s, pat) ==> !OccursAt(s, pat, k)
    ensures IndexOf(s, pat) < 0 ==> forall k :: !OccursAt(s, pat, k)
    decreases |s|
  {
    if |s| >= |pat| && s[..|pat|] != pat {
      IndexOfFirst(s[1..], pat);
      var r := IndexOf(s[1..], pat);
      if r >= 0 {
        OccursShift(s, pat, r);
      }
      forall k | 0 < k && (r < 0 || k < r + 1) ensures !OccursAt(s, pat, k) {
        OccursShift(s, pat, k - 1);
      }
      assert !OccursAt(s, pat, 0);
    }
  }

  /** A pattern whose first character does not occur in `s` is found where it starts, right after `s`. */
  lemma IndexOfAfter(s: string, pat: string, t: string)
    requires |pat| > 0 && pat[0] !in s
    ensures IndexOf(s + pat + t, pat) == |s|
  {
    var u := s + pat + t;
    assert OccursAt(u, pat, |s|) by {
      assert u[|s|..|s| + |pat|] == pat;
    }
    forall k | 0 <= k < |s| ensures !OccursAt(u, pat, k) {
      assert k + |pat| <= |u| ==> u[k..k + |pat|][0] == s[k];
    }
    IndexOfFirst(u, pat);
  }

  /** A pattern whose first character does not occur in `s` is not found in it. */
  lemma IndexOfMissing(s: string, pat: string)
    requires |pat| > 0 && pat[0] !in s
    ensures IndexOf(s, pat) == -1
  {
    forall k | 0 <= k ensures !OccursAt(s, pat, k) {
      assert k + |pat| <= |s| ==> s[k..k + |pat|][0] == s[k];
    }
    IndexOfFirst(s, pat);
  }

  /**
   * `replace(/open(.*?)close/gs, (m, content) => f(content))`: each block found left to
   * right becomes `f` of its content; text outside the blocks is kept.
   */
  function ReplaceBlocks(s: string, open: string, close: string, f: string -> string): string
    requires |open| > 0 && |close| > 0
    decreases |s|
  {
    if |s| < |open| then s
    else if s[..|open|] != open then [s[0]] + ReplaceBlocks(s[1..], open, close, f)
    else
      var rest := s[|open|..];
      var j := IndexOf(rest, close);
      if j < 0 then s
      else f(rest[..j]) + ReplaceBlocks(rest[j + |close|..], open, close, f)
  }

  /** Text in which the opening marker cannot start is returned unchanged. */
  lemma {:induction false} ReplaceBlocksAbsent(s: string, open: string, close: string, f: string -> string)
    requires |open| > 0 && |close| > 0
    requires open[0] !in s
    ensures ReplaceBlocks(s, open, close, f) == s
    decreases |s|
  {
    if |s| >= |open| {
      assert s[..|open|][0] == s[0];
      assert s[1..] == s[1..] && open[0] !in s[1..];
      ReplaceBlocksAbsent(s[1..], open, close, f);
      assert [s[0]] + s[1..] == s;
    }
  }

  /** A character that cannot start the opening marker is copied and the search goes on. */
  lemma ReplaceBlocksSkip(x: char, s: string, open: string, close: string, f: string -> string)
    requires |open| > 0 && |close| > 0 && x != open[0]
    ensures ReplaceBlocks([x] + s, open, close, f) == [x] + ReplaceBlocks(s, open, close, f)
  {
    var u := [x] + s;
    assert u[1..] == s;
    if |u| >= |open| {
      assert u[..|open|][0] == x;
    }
  }

  /** A block right at the start: its expansion, then the search after the closing marker. */
  lemma ReplaceBlocksAtStart(open: string, c: string, close: string, b: string, f: string -> string)
    requires |open| > 0 && |close| > 0 && close[0] !in c
    ensures ReplaceBlocks(open + c + close + b, open, close, f) == f(c) + ReplaceBlocks(b, open, close, f)
  {
    var s := open + c + close + b;
    var rest := c + close + b;
    assert s[..|open|] == open && s[|open|..] == rest;
    IndexOfAfter(c, close, b);
    assert rest[..|c|] == c && rest[|c| + |close|..] == b;
  }

  /** Leading text in which the opening marker cannot start is copied as it is. */
  lemma {:induction false} ReplaceBlocksPrefix(a: string, s: string, open: string, close: string, f: string -> string)
    requires |open| > 0 && |close| > 0 && open[0] !in a
    ensures ReplaceBlocks(a + s, open, close, f) == a + ReplaceBlocks(s, open, close, f)
    decreases |a|
  {
    if a != [] {
      assert a + s == [a[0]] + (a[1..] + s);
      ReplaceBlocksSkip(a[0], a[1..] + s, open, close, f);
      ReplaceBlocksPrefix(a[1..], s, open, close, f);
      assert a == [a[0]] + a[1..];
    } else {
      assert a + s == s;
    }
  }

  /**
   * The first block of a template: when neither the leading text nor the block's content holds
   * the first character of the marker that ends it, the leading text is kept, the block becomes
   * `f(content)` and the search goes on after the closing marker.
   */
  lemma ReplaceBlocksFirst(a: string, open: string, c: string, close: string, b: string, f: string -> string)
    requires |open| > 0 && |close| > 0
    requires open[0] !in a && close[0] !in c
    ensures ReplaceBlocks(a + open + c + close + b, open, close, f)
         == a + f(c) + ReplaceBlocks(b, open, close, f)
  {
    assert a + open + c + close + b == a + (open + c + close + b);
    ReplaceBlocksPrefix(a, open + c + close + b, open, close, f);
    ReplaceBlocksAtStart(open, c, close, b, f);
  }

  /** An opening marker with no closing marker after it is left as it stands, with everything after it. */
  lemma UnclosedBlockKept(a: string, open: string, c: string, close: string, f: string -> string)
    requires |open| > 0 && |close| > 0
    requires open[0] !in a && close[0] !in c
    ensures ReplaceBlocks(a + open + c, open, close, f) == a + open + c
  {
    var s := open + c;
    assert a + open + c == a + s;
    ReplaceBlocksPrefix(a, s, open, close, f);
    assert s[..|open|] == open && s[|open|..] == c;
    IndexOfMissing(c, close);
  }
}
