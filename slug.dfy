/**
 * Slug normalisation. The same three regular-expression rewrites appear in
 * scripts/utils.mjs and scripts/build-index.mjs (JavaScript, whose last step
 * `/^-|-$/g` removes one leading and one trailing dash) and in
 * scripts/Utils.php and scripts/build-index.php (PHP, whose last step
 * `trim($s, '-')` removes every leading and trailing dash).
 */
module Slugs {
  import opened Text

  /** The characters `[a-z0-9\-_.]` that survive normalisation. */
  predicate SlugChar(c: char) {
    IsLower(c) || IsDigit(c) || c == '-' || c == '_' || c == '.'
  }

  predicate NotSlugChar(c: char) { !SlugChar(c) }

  predicate IsDash(c: char) { c == '-' }

  predicate NoDoubleDash(s: string) {
    forall i :: 0 <= i < |s| - 1 ==> !(s[i] == '-' && s[i + 1] == '-')
  }

  /** What a normalised slug looks like: allowed characters only, no `--`, no dash at either end. */
  predicate IsSlug(t: string) {
    && (forall i :: 0 <= i < |t| ==> SlugChar(t[i]))
    && NoDoubleDash(t)
    && (|t| > 0 ==> t[0] != '-' && t[|t| - 1] != '-')
  }

  /** `.replace(/^-|-$/g, "")`: a leading dash and a trailing dash are removed, once each. */
  function StripEdgeDash(s: string): string {
    var t := if |s| > 0 && s[0] == '-' then s[1..] else s;
    if |t| > 0 && t[|t| - 1] == '-' then t[..|t| - 1] else t
  }

  /** The two rewrites both variants share: lower-case, runs of other characters to `-`, runs of `-` to one. */
  function Collapsed(s: string): string {
    CollapseRuns(CollapseRuns(Lower(s), NotSlugChar, '-'), IsDash, '-')
  }

  /** `toSlug` of scripts/utils.mjs and scripts/build-index.mjs. */
  function ToSlug(s: string): string {
    StripEdgeDash(Collapsed(s))
  }

  /** `Utils::toSlug` of scripts/Utils.php and `toSlug` of scripts/build-index.php. */
  function ToSlugPhp(s: string): string {
    TrimWhere(Collapsed(s), IsDash)
  }

  lemma CollapsedShape(s: string)
    ensures forall i :: 0 <= i < |Collapsed(s)| ==> SlugChar(Collapsed(s)[i])
    ensures NoDoubleDash(Collapsed(s))
  {
    var a := Lower(s);
    var b := CollapseRuns(a, NotSlugChar, '-');
    assert forall i :: 0 <= i < |b| ==> SlugChar(b[i]);
  }

  /** Dropping the first character keeps a string free of `--`. */
  lemma NoDoubleDashTail(c: string)
    requires NoDoubleDash(c) && |c| > 0
    ensures NoDoubleDash(c[1..])
  {
    forall i | 0 <= i < |c| - 2 ensures !(c[1..][i] == '-' && c[1..][i + 1] == '-') {
      assert c[1..][i] == c[i + 1] && c[1..][i + 1] == c[i + 2];
    }
  }

  /** The character next to an edge dash of a `--`-free string is not a dash. */
  lemma NextToEdgeDash(c: string)
    requires NoDoubleDash(c)
    ensures |c| >= 2 && c[0] == '-' ==> c[1] != '-'
    ensures |c| >= 2 && c[|c| - 1] == '-' ==> c[|c| - 2] != '-'
  {
    if |c| >= 2 {
      assert !(c[0] == '-' && c[1] == '-');
      assert !(c[|c| - 2] == '-' && c[|c| - 1] == '-');
    }
  }

  /** After the leading dash is gone, the string no longer starts with a dash. */
  lemma LeadingStripped(c: string)
    requires NoDoubleDash(c)
    ensures var t := if |c| > 0 && c[0] == '-' then c[1..] else c;
      NoDoubleDash(t) && (|t| > 0 ==> t[0] != '-')
  {
    NextToEdgeDash(c);
    if |c| > 0 && c[0] == '-' {
      NoDoubleDashTail(c);
    }
  }

  /** A slug-character string without `--` whose edge dashes are removed is a slug. */
  lemma StripEdgeDashIsSlug(c: string)
    requires forall i :: 0 <= i < |c| ==> SlugChar(c[i])
    requires NoDoubleDash(c)
    ensures IsSlug(StripEdgeDash(c))
  {
    LeadingStripped(c);
    var t := if |c| > 0 && c[0] == '-' then c[1..] else c;
    assert forall i :: 0 <= i < |t| ==> SlugChar(t[i]);
    NextToEdgeDash(t);
    if |t| > 0 && t[|t| - 1] == '-' {
      var u := t[..|t| - 1];
      assert forall i :: 0 <= i < |u| ==> u[i] == t[i];
    }
  }

  /** Every result of `toSlug` is a slug: allowed characters, no `--`, no dash at either end. */
  lemma ToSlugIsSlug(s: string)
    ensures IsSlug(ToSlug(s))
  {
    CollapsedShape(s);
    StripEdgeDashIsSlug(Collapsed(s));
  }

  /** On dash-collapsed text, removing one dash at each end is the same as `trim($s, '-')`. */
  lemma StripAgreesWithTrim(c: string)
    requires NoDoubleDash(c)
    ensures StripEdgeDash(c) == TrimWhere(c, IsDash)
  {
    LeadingStripped(c);
    var t := if |c| > 0 && c[0] == '-' then c[1..] else c;
    assert TrimWhere(c, IsDash) == TrimWhere(t, IsDash);
    NextToEdgeDash(t);
    if |t| > 0 && t[|t| - 1] == '-' {
      var u := t[..|t| - 1];
      assert u == [] || (u[0] != '-' && u[|u| - 1] != '-');
    }
  }

  /** With case mapped on ASCII letters only, the JavaScript and the PHP copies of `toSlug` compute the same function. */
  lemma SlugVariantsAgree(s: string)
    ensures ToSlug(s) == ToSlugPhp(s)
  {
    CollapsedShape(s);
    StripAgreesWithTrim(Collapsed(s));
  }

  /** A slug is left unchanged by `toSlug`. */
  lemma SlugFixpoint(t: string)
    requires IsSlug(t)
    ensures ToSlug(t) == t
  {
    assert Collapsed(t) == t by {
      LowerOfSlugChars(t);
      NoNotSlugChar(t);
      CollapseRunsFixpoint(t, NotSlugChar, '-');
      NoDoubleDashFixpoint(t);
    }
  }

  lemma LowerOfSlugChars(t: string)
    requires forall i :: 0 <= i < |t| ==> SlugChar(t[i])
    ensures Lower(t) == t
  {
    forall i | 0 <= i < |t| ensures Lower(t)[i] == t[i] { assert SlugChar(t[i]); }
  }

  lemma NoNotSlugChar(t: string)
    requires forall i :: 0 <= i < |t| ==> SlugChar(t[i])
    ensures forall i :: 0 <= i < |t| - 1 ==> !(NotSlugChar(t[i]) && NotSlugChar(t[i + 1]))
    ensures forall i :: 0 <= i < |t| && NotSlugChar(t[i]) ==> t[i] == '-'
  {
  }

  lemma NoDoubleDashFixpoint(t: string)
    requires NoDoubleDash(t)
    ensures CollapseRuns(t, IsDash, '-') == t
  {
    CollapseRunsFixpoint(t, IsDash, '-');
  }

  /** `toSlug(toSlug(s)) == toSlug(s)`. */
  lemma ToSlugIdempotent(s: string)
    ensures ToSlug(ToSlug(s)) == ToSlug(s)
  {
    ToSlugIsSlug(s);
    SlugFixpoint(ToSlug(s));
  }

  /** Characters outside the collapsed class pass through unchanged. */
  lemma {:induction false} CollapseRunsKeepsPrefix(a: string, b: string, P: char -> bool, r: char)
    requires forall i :: 0 <= i < |a| ==> !P(a[i])
    ensures CollapseRuns(a + b, P, r) == a + CollapseRuns(b, P, r)
    decreases |a|
  {
    if |a| > 0 {
      assert (a + b)[1..] == a[1..] + b;
      CollapseRunsKeepsPrefix(a[1..], b, P, r);
    } else {
      assert a + b == b;
    }
  }

  lemma RoomCollapse()
    ensures CollapseRuns("room!!", NotSlugChar, '-') == "room-"
  {
    assert NotSlugChar('!');
    assert "!!"[1..] == "!" && "!"[1..] == "";
    assert DropWhile("!", NotSlugChar) == "";
    assert CollapseRuns("", NotSlugChar, '-') == "";
    assert CollapseRuns("!!", NotSlugChar, '-') == "-";
    assert "room!!" == "room" + "!!";
    CollapseRunsKeepsPrefix("room", "!!", NotSlugChar, '-');
  }

  lemma RoomCollapsed()
    ensures Collapsed("Room!!") == "room-"
  {
    assert Lower("Room!!") == "room!!";
    RoomCollapse();
    CollapseRunsFixpoint("room-", IsDash, '-');
  }

  /** The worked example: `Room!!` and `room` normalise to the same base. */
  lemma RoomExample()
    ensures ToSlug("Room!!") == "room"
    ensures ToSlug("room") == "room"
  {
    RoomCollapsed();
    assert StripEdgeDash("room-") == "room";
    SlugFixpoint("room");
  }

  /** Two non-empty slugs joined by a dash are a slug already, so `toSlug` keeps the join. */
  lemma JoinedSlugs(a: string, b: string)
    requires IsSlug(a) && IsSlug(b) && a != "" && b != ""
    ensures ToSlug(a + "-" + b) == a + "-" + b
  {
    var t := a + "-" + b;
    forall i | 0 <= i < |t| ensures SlugChar(t[i]) {
      if i > |a| { assert t[i] == b[i - |a| - 1]; }
    }
    forall i | 0 <= i < |t| - 1 ensures !(t[i] == '-' && t[i + 1] == '-') {
      if i < |a| - 1 { assert t[i] == a[i] && t[i + 1] == a[i + 1]; }
      else if i > |a| { assert t[i] == b[i - |a| - 1] && t[i + 1] == b[i - |a|]; }
    }
    assert t[0] == a[0] && t[|t| - 1] == b[|b| - 1];
    SlugFixpoint(t);
  }

  /** A slug never holds a path separator. */
  lemma SlugHasNoSlash(t: string)
    requires IsSlug(t)
    ensures '/' !in t
  {
    forall i | 0 <= i < |t| ensures t[i] != '/' { assert SlugChar(t[i]); }
  }
}
