/**
 * The two path helpers of components/OptimizedImage.js: `getWebPPath`, which
 * swaps a path's extension for `.webp`, and `normalizePath`, which roots a
 * path under the site's base path. An absent (`undefined`/`null`) path is
 * `None`; the empty string is the other falsy path.
 */
module OptimizedImage {
  import opened Wrappers
  import opened Text
  import opened Paths

  /** The GitHub Pages base path the component hard-codes, `/yohyama0216.github.io-free-image-material-`, written around its one `.`. */
  const BasePath: string := "/yohyama0216.github" + "." + "io-free-image-material-"

  /** `getWebPPath`, as written: everything before the last `.` of the whole path, then `.webp`. */
  function WebPPath(p: string): (r: string)
    ensures '.' !in p ==> r == p
    ensures '.' in p ==> EndsWith(r, ".webp") && |r| <= |p| + 4
  {
    var k := LastIndexOfChar(p, '.');
    if k == -1 then p
    else
      AppendAffixes(p[..k], ".webp");
      p[..k] + ".webp"
  }

  /** A path ending in an extension has that extension replaced. */
  lemma WebPPathReplacesExtension(stem: string, ext: string)
    requires '.' !in ext
    ensures WebPPath(stem + "." + ext) == stem + ".webp"
  {
    LastIndexOfCharAt(stem, '.', ext);
    assert (stem + "." + ext)[..|stem|] == stem;
  }

  /** `normalizePath`: `./x` and `x` go under the base path, a rooted path outside it is prefixed, one inside it kept. */
  function NormalizePath(p: string): (r: string)
    ensures p == "" ==> r == ""
    ensures p != "" ==> StartsWith(r, BasePath)
    ensures StartsWith(p, BasePath) ==> r == p
  {
    if p == "" then p
    else if StartsWith(p, "./") then
      assert p[0] == p[..2][0] && BasePath[0] == '/';
      AppendAffixes(BasePath, "/" + p[2..]);
      BasePath + ("/" + p[2..])
    else if StartsWith(p, "/") && !StartsWith(p, BasePath) then
      AppendAffixes(BasePath, p);
      BasePath + p
    else if StartsWith(p, BasePath) then p
    else
      AppendAffixes(BasePath, "/" + p);
      BasePath + ("/" + p)
  }

  /** `./x` and a bare `x` normalise alike, and so does `/x` for an `x` outside the base path. */
  lemma NormalizeRelativeForms(x: string)
    requires x != "" && !StartsWith(x, "./") && !StartsWith(x, "/") && !StartsWith(x, BasePath)
    ensures NormalizePath("./" + x) == BasePath + "/" + x
    ensures NormalizePath(x) == BasePath + "/" + x
    ensures !StartsWith("/" + x, BasePath) ==> NormalizePath("/" + x) == BasePath + "/" + x
  {
    assert ("./" + x)[..2] == "./";
    assert ("./" + x)[2..] == x;
    assert ("/" + x)[..1] == "/";
    assert ("/" + x)[..2] != "./";
    assert !StartsWith("./" + x, BasePath) by {
      assert ("./" + x)[0] != BasePath[0];
    }
    assert BasePath + "/" + x == BasePath + ("/" + x);
  }

  /** Normalising twice changes nothing: every non-empty result is already under the base path. */
  lemma NormalizePathIdempotent(p: string)
    ensures NormalizePath(NormalizePath(p)) == NormalizePath(p)
  {
  }

  /**
   * The picture's two sources, as written: the fallback is the normalised path
   * and the WebP source is `getWebPPath` of that same normalised path.
   */
  function Sources(src: Option<string>): (r: (Option<string>, Option<string>))
    ensures src.None? ==> r == (None, None)
    ensures src.Some? ==> r.1.Some? && r.0 == Some(WebPPath(r.1.value))
    ensures src.Some? && src.value != "" ==> StartsWith(r.1.value, BasePath)
    ensures src.Some? && StartsWith(src.value, BasePath) ==> r.1 == src
  {
    match src
    case None => (None, None)
    case Some(p) =>
      var normalized := NormalizePath(p);
      (Some(WebPPath(normalized)), Some(normalized))
  }

  /** As written, every bare extensionless image gets the same broken WebP source. */
  lemma SourcesOfExtensionlessImage(p: string)
    requires '.' !in p
    requires p != "" && !StartsWith(p, "./") && !StartsWith(p, "/")
    ensures Sources(Some(p)).0 == Some("/yohyama0216.github" + ".webp")
    ensures Sources(Some(p)).1 == Some(BasePath + "/" + p)
  {
    WebPPathCutsBasePath(p);
    NormalizeBare(p);
    assert BasePath + ("/" + p) == BasePath + "/" + p;
  }

  /** The sources with the corrected WebP rule: the WebP source differs from the fallback only in the last segment's extension. */
  function CorrectedSources(src: Option<string>): (r: (Option<string>, Option<string>))
    ensures src.None? ==> r == (None, None)
    ensures src.Some? ==> r.1 == Sources(src).1 && r.0 == Some(WebPPathInLastSegment(r.1.value))
  {
    match src
    case None => (None, None)
    case Some(p) =>
      var normalized := NormalizePath(p);
      (Some(WebPPathInLastSegment(normalized)), Some(normalized))
  }

  /**
   * The base path itself contains a `.`, so for a path without an extension the
   * as-written `getWebPPath` cuts into the base path.
   */
  lemma WebPPathCutsBasePath(p: string)
    requires '.' !in p
    requires p != "" && !StartsWith(p, "./") && !StartsWith(p, "/")
    ensures WebPPath(NormalizePath(p)) == "/yohyama0216.github" + ".webp"
  {
    var head := "/yohyama0216.github";
    var tail := "io-free-image-material-";
    NormalizeBare(p);
    NoDotAfterGithub();
    SplitAt(head, tail, "/" + p);
    var n := NormalizePath(p);
    assert n == head + "." + (tail + ("/" + p));
    assert '.' !in tail + ("/" + p);
    WebPPathReplacesExtension(head, tail + ("/" + p));
  }

  /** A non-empty path that is neither `./`-relative nor rooted goes under the base path after a `/`. */
  lemma NormalizeBare(p: string)
    requires p != "" && !StartsWith(p, "./") && !StartsWith(p, "/")
    ensures NormalizePath(p) == BasePath + ("/" + p)
  {
    assert !StartsWith(p, BasePath) by {
      assert BasePath[0] == '/';
      if |p| >= |BasePath| {
        assert p[..|BasePath|][0] == p[0];
        assert p[..1] != "/";
      }
    }
  }

  lemma SplitAt(a: string, b: string, c: string)
    ensures (a + "." + b) + c == a + "." + (b + c)
  {
  }

  lemma NoDotAfterGithub()
    ensures '.' !in "io-free-image-material-"
  {
  }

  /** The corrected rule: only a `.` in the last path segment starts an extension. */
  function WebPPathInLastSegment(p: string): (r: string)
    ensures '.' !in Basename(p) ==> r == p
  {
    var slash := LastIndexOfChar(p, '/');
    var k := LastIndexOfChar(p, '.');
    if k <= slash then p else p[..k] + ".webp"
  }

  /** Corrected, an extensionless path keeps its name and an extension is still replaced. */
  lemma WebPPathInLastSegmentSpec(dir: string, stem: string, ext: string)
    requires '.' !in ext && '/' !in ext && '/' !in stem
    ensures WebPPathInLastSegment(dir + "/" + stem + "." + ext) == dir + "/" + stem + ".webp"
    ensures '.' !in stem ==> WebPPathInLastSegment(dir + "/" + stem) == dir + "/" + stem
  {
    var q := dir + "/" + stem;
    var p := q + "." + ext;
    assert LastIndexOfChar(p, '.') == |q| by {
      LastIndexOfCharAt(q, '.', ext);
    }
    assert LastIndexOfChar(p, '/') <= |dir| by {
      assert p == dir + "/" + (stem + "." + ext);
      LastIndexOfCharAt(dir, '/', stem + "." + ext);
    }
    assert p[..|q|] == q;
    if '.' !in stem {
      assert Basename(q) == stem by {
        LastIndexOfCharAt(dir, '/', stem);
      }
    }
  }

  /** Corrected, the WebP source of an extensionless image is its normalised path itself. */
  lemma CorrectedKeepsExtensionlessPath(p: string)
    requires '.' !in p && p != "" && !StartsWith(p, "./") && !StartsWith(p, "/")
    ensures WebPPathInLastSegment(NormalizePath(p)) == NormalizePath(p)
    ensures CorrectedSources(Some(p)).0 == CorrectedSources(Some(p)).1
  {
    WebPPathCutsBasePath(p);
    var n := NormalizePath(p);
    assert n == BasePath + "/" + p;
    var q := LastIndexOfChar(n, '.');
    var s := LastIndexOfChar(n, '/');
    assert n[|BasePath|] == '/';
    assert q < |BasePath|;
    assert s >= |BasePath|;
  }
}
