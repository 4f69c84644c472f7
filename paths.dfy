/**
 * The path decompositions the build scripts rely on: Node's POSIX
 * `path.basename`, `path.dirname`, `path.extname` and `path.parse(p).name`,
 * and PHP's `basename`, `dirname` and `pathinfo` (PATHINFO_EXTENSION,
 * PATHINFO_FILENAME). Paths are `/`-separated and do not end in `/`, as the
 * directory walkers produce them.
 */
module Paths {
  import opened Text

  /** The last segment: everything after the last `/` (both `path.basename` and PHP `basename`). */
  function Basename(p: string): (b: string)
    ensures '/' !in b
    ensures EndsWith(p, b)
  {
    var k := LastIndexOfChar(p, '/');
    p[k + 1..]
  }

  /** `path.dirname` / PHP `dirname`: everything before the last `/`; `.` without one, `/` at the root. */
  function Dirname(p: string): (d: string)
    ensures '/' !in p ==> d == "."
  {
    var k := LastIndexOfChar(p, '/');
    if k < 0 then "." else if k == 0 then "/" else p[..k]
  }

  /** The last segment of `dir/name` is `name`. */
  lemma BasenameAfterSlash(dir: string, name: string)
    requires '/' !in name
    ensures Basename(dir + "/" + name) == name
  {
    LastIndexOfCharAt(dir, '/', name);
    assert (dir + "/" + name)[|dir| + 1..] == name;
  }

  /** A path without `/` is its own last segment. */
  lemma NoSlashBasename(name: string)
    requires '/' !in name
    ensures Basename(name) == name
  {
    assert LastIndexOfChar(name, '/') == -1;
  }

  /** A path below the root that has a directory part is its directory, `/` and its last segment. */
  lemma DirnameBasename(p: string)
    requires LastIndexOfChar(p, '/') > 0
    ensures p == Dirname(p) + "/" + Basename(p)
  {
  }

  /**
   * `path.extname`: from the last `.` of the last segment to its end, or "" when that
   * segment has no `.`, starts with its only `.` run's last dot (`.hidden`), or is `..`.
   */
  function NodeExtname(p: string): (e: string)
    ensures e == "" || (e[0] == '.' && EndsWith(Basename(p), e) && |e| < |Basename(p)|)
    ensures '.' in e ==> e[0] == '.' && '.' !in e[1..]
  {
    var b := Basename(p);
    var k := LastIndexOfChar(b, '.');
    if k <= 0 || b == ".." then "" else b[k..]
  }

  /** `path.parse(p).name`: the last segment without its `extname`. */
  function NodeName(p: string): (n: string)
    ensures n + NodeExtname(p) == Basename(p)
  {
    var b := Basename(p);
    var e := NodeExtname(p);
    assert b[|b| - |e|..] == e;
    assert b[..|b| - |e|] + b[|b| - |e|..] == b;
    b[..|b| - |e|]
  }

  /** The name of `stem.ext`, for a plain stem and extension, is the stem. */
  lemma NodeNameOfFile(stem: string, ext: string)
    requires stem != "" && '/' !in stem && '.' !in stem && '/' !in ext && '.' !in ext
    ensures NodeName(stem + "." + ext) == stem
  {
    var p := stem + "." + ext;
    DottedBasename(stem, ext);
    assert NodeExtname(p) == p[|stem|..] by {
      LastIndexOfCharAt(stem, '.', ext);
      assert p[0] == stem[0];
    }
    assert p[..|stem|] == stem;
  }

  lemma DottedBasename(stem: string, ext: string)
    requires '/' !in stem && '/' !in ext
    ensures Basename(stem + "." + ext) == stem + "." + ext
  {
    assert '/' !in stem + "." + ext;
    NoSlashBasename(stem + "." + ext);
  }

  /** The extension of `dir/name` is that of `name`. */
  lemma ExtnameOfSegment(dir: string, name: string)
    requires '/' !in name
    ensures NodeExtname(dir + "/" + name) == NodeExtname(name)
  {
    BasenameAfterSlash(dir, name);
    NoSlashBasename(name);
  }

  /** The name of `dir/name` is that of `name`. */
  lemma NodeNameOfSegment(dir: string, name: string)
    requires '/' !in name
    ensures NodeName(dir + "/" + name) == NodeName(name)
  {
    assert Basename(dir + "/" + name) == Basename(name) by {
      BasenameAfterSlash(dir, name);
      NoSlashBasename(name);
    }
    ExtnameOfSegment(dir, name);
  }

  /** The directory of `dir/name` is `dir` when `dir` is not empty. */
  lemma DirnameOfSegment(dir: string, name: string)
    requires '/' !in name && dir != ""
    ensures Dirname(dir + "/" + name) == dir
  {
    LastIndexOfCharAt(dir, '/', name);
    assert (dir + "/" + name)[..|dir|] == dir;
  }

  /** PHP `pathinfo($p, PATHINFO_EXTENSION)`: what follows the last `.` of the last segment, or "". */
  function PhpExtension(p: string): (e: string)
    ensures '.' !in e && '/' !in e
  {
    var b := Basename(p);
    var k := LastIndexOfChar(b, '.');
    if k < 0 then "" else b[k + 1..]
  }

  /** PHP `pathinfo($p, PATHINFO_FILENAME)`: the last segment up to its last `.`. */
  function PhpFilename(p: string): (n: string)
  {
    var b := Basename(p);
    var k := LastIndexOfChar(b, '.');
    if k < 0 then b else b[..k]
  }

  /** The PHP decomposition recombines into the last segment. */
  lemma PhpPathinfoRecombines(p: string)
    ensures '.' in Basename(p) ==> PhpFilename(p) + "." + PhpExtension(p) == Basename(p)
    ensures '.' !in Basename(p) ==> PhpFilename(p) == Basename(p) && PhpExtension(p) == ""
  {
    var b := Basename(p);
    var k := LastIndexOfChar(b, '.');
    if k >= 0 {
      assert b == b[..k] + "." + b[k + 1..];
    }
  }

  /**
   * Where the two runtimes disagree: a name that starts with its only `.` (`.hidden`) has no
   * Node extension and is its own Node name, while PHP reads an extension and an empty filename.
   */
  lemma LeadingDotName(s: string)
    requires '.' !in s && '/' !in s
    ensures NodeExtname("." + s) == "" && NodeName("." + s) == "." + s
    ensures PhpExtension("." + s) == s && PhpFilename("." + s) == ""
  {
    LeadingDot(s);
  }

  lemma LeadingDot(s: string)
    requires '.' !in s && '/' !in s
    ensures Basename("." + s) == "." + s && LastIndexOfChar("." + s, '.') == 0 && ("." + s)[1..] == s
  {
    var p := "." + s;
    assert '/' !in p;
    NoSlashBasename(p);
    LastIndexOfCharAt([], '.', s);
    assert [] + ['.'] + s == p;
  }

  /** On an ordinary name both runtimes split at the last `.`. */
  lemma ExtensionsAgree(p: string)
    requires var b := Basename(p); var k := LastIndexOfChar(b, '.'); k > 0 && b != ".."
    ensures NodeExtname(p) == "." + PhpExtension(p)
    ensures NodeName(p) == PhpFilename(p)
  {
    var b := Basename(p);
    var k := LastIndexOfChar(b, '.');
    assert NodeExtname(p) == b[k..];
    assert b[k..] == "." + b[k + 1..];
    assert NodeName(p) == b[..|b| - |b[k..]|];
  }

  /** PHP's `pathinfo` of `dir/stem.ext`: the extension is `ext` and the filename `stem`. */
  lemma PhpPathinfoOfFile(dir: string, stem: string, ext: string)
    requires '/' !in stem && '.' !in ext && '/' !in ext
    ensures PhpExtension(dir + "/" + (stem + "." + ext)) == ext
    ensures PhpFilename(dir + "/" + (stem + "." + ext)) == stem
  {
    DottedNameInDir(dir, stem, ext);
    var name := stem + "." + ext;
    assert name[..|stem|] == stem;
    assert name[|stem| + 1..] == ext;
  }

  lemma DottedNameInDir(dir: string, stem: string, ext: string)
    requires '/' !in stem && '.' !in ext && '/' !in ext
    ensures Basename(dir + "/" + (stem + "." + ext)) == stem + "." + ext
    ensures LastIndexOfChar(stem + "." + ext, '.') == |stem|
  {
    assert '/' !in stem + "." + ext;
    BasenameAfterSlash(dir, stem + "." + ext);
    LastIndexOfCharAt(stem, '.', ext);
  }
}
