/**
 * scripts/ImageProcessor.php: the class-based PHP build. `processImage` skips a
 * file with an invalid extension, one under `_thumbs` or one whose image info
 * cannot be read, and otherwise takes the next slug from the shared
 * `SlugGenerator`, brings the file's thumbnail up to date and appends the item.
 * A stale thumbnail is redrawn with GD. A picture with a side of zero makes the
 * size ratio divide by zero, and one so thin that a side of its thumbnail
 * truncates to zero makes `imagecreatetruecolor` throw a `ValueError`; nothing
 * catches either, so the whole walk stops there. Paths are the full paths the
 * walk produces, `<assetsDir>/<rel>`; `realpath` is taken to be the identity on them.
 * What the filesystem reports (image size and type, whether GD can decode the
 * body, file size, modification times of the file and of its thumbnail, the
 * directory's `.meta.json`) is an input.
 */
module ImageProcessorPhp {
  import opened Wrappers
  import opened Text
  import opened Paths
  import opened Slugs
  import opened SlugAllocation
  import Catalogue
  import opened Arith
  import N = PhpNumber

  /** `Config::getValidExtensions`. */
  const ValidExtensions: seq<string> := [".jpg", ".jpeg", ".png", ".webp"]
  /** `Config::getDefaultLicense`. */
  const DefaultLicense: string := "CC0-1.0"

  /** The fields of one entry of a `.meta.json`; `None` is an absent or `null` field (`??` falls through). */
  datatype Meta = Meta(title: Option<string>, tags: Option<seq<string>>, description: Option<string>,
                       license: Option<string>)

  const NoMeta: Meta := Meta(None, None, None, None)

  /** A directory's `.meta.json`: absent, decoding to a falsy value, or a map from file name to entry. */
  datatype MetaFile = Missing | Falsy | Entries(entries: map<string, Meta>)

  /** `Config::getThumbnailWidth`: the longer side of a GD thumbnail. */
  const ThumbnailWidth: nat := 480

  /** The `IMAGETYPE_*` constant `getimagesize` reports at index 2. */
  datatype ImageType = Jpeg | Png | Webp | Gif | OtherType

  /**
   * What `getimagesize` reports (width, height, type), and whether the `imagecreatefrom*`
   * function for that type decodes the body (it returns false on a corrupt one).
   */
  datatype ImageInfo = ImageInfo(width: nat, height: nat, imageType: ImageType, decodes: bool)

  /**
   * A walked file: its full path, its image info (`None`: unreadable), its size, its
   * modification time and that time formatted, and the modification time of the thumbnail
   * it maps to when `processImage` reaches it (`None`: no thumbnail there).
   */
  datatype PhpFile = PhpFile(path: string, info: Option<ImageInfo>, size: nat, mtime: int, modified: string,
                             thumbMtime: Option<int>)

  datatype Item = Item(id: string, title: string, category: string, tags: seq<string>, description: string,
                       license: string, originalPath: string, thumbnailPath: string, width: nat, height: nat,
                       fileSize: nat, slug: string, createdAt: string, updatedAt: string)

  // ---------------------------------------------------------------- the filters

  /** `in_array('.' . strtolower(pathinfo($p, PATHINFO_EXTENSION)), $validExtensions)`. */
  predicate ValidExtension(path: string) {
    "." + Lower(PhpExtension(path)) in ValidExtensions
  }

  /** `strpos($p, '_thumbs') !== false`: anywhere in the full path, not only as a directory. */
  predicate UnderThumbs(path: string) {
    Contains(path, "_thumbs")
  }

  /** The three checks `processImage` makes before it takes a slug. */
  predicate Accepts(file: PhpFile) {
    ValidExtension(file.path) && !UnderThumbs(file.path) && file.info.Some?
  }

  /** A file is processed exactly when its extension is valid, its path has no `_thumbs` and its info is readable. */
  lemma AcceptsIff(file: PhpFile)
    ensures Accepts(file) <==>
      && "." + Lower(PhpExtension(file.path)) in ValidExtensions
      && !(exists i :: 0 <= i <= |file.path| - 7 && StartsWith(file.path[i..], "_thumbs"))
      && file.info.Some?
  {
  }

  /** Any occurrence of `_thumbs` excludes a file, even in a name like `my_thumbs.jpg`. */
  lemma ThumbsAnywhere(dir: string, name: string)
    ensures UnderThumbs(dir + "/my_thumbs" + name)
  {
    var p := dir + "/my_thumbs" + name;
    assert p == (dir + "/my") + ("_thumbs" + name);
    assert p[|dir| + 3..][..7] == "_thumbs";
  }

  // ---------------------------------------------------------------- derivations

  /**
   * `getCategoryFromPath`: the path with every occurrence of the assets directory removed,
   * trimmed of `/`, and its first `/`-separated piece. `explode` always yields one piece,
   * so the `'other'` fallback is never taken.
   */
  function CategoryFromPath(assetsDir: string, path: string): (c: string)
    ensures '/' !in c
  {
    Split(TrimWhere(ReplaceAll(path, assetsDir, ""), IsSlash), '/')[0]
  }

  predicate IsSlash(c: char) { c == '/' }

  /** Under the assets directory, the category is the first `/`-separated piece of the file's path below it. */
  lemma CategoryIsFirstFolder(assetsDir: string, rel: string)
    requires |assetsDir| > 0 && !Contains("/" + rel, assetsDir)
    requires rel != [] && rel[0] != '/' && rel[|rel| - 1] != '/'
    ensures CategoryFromPath(assetsDir, assetsDir + "/" + rel) == Split(rel, '/')[0]
  {
    StripThenTrim(assetsDir, rel);
  }

  /** What remains of a path under the assets directory once the directory and the separating `/` are gone. */
  lemma StripThenTrim(assetsDir: string, rel: string)
    requires |assetsDir| > 0 && !Contains("/" + rel, assetsDir)
    requires rel != [] && rel[0] != '/' && rel[|rel| - 1] != '/'
    ensures TrimWhere(ReplaceAll(assetsDir + "/" + rel, assetsDir, ""), IsSlash) == rel
  {
    assert assetsDir + "/" + rel == assetsDir + ("/" + rel);
    StripAssetsDir(assetsDir, "/" + rel);
    TrimLeadingSlash(rel);
  }

  /** A file directly in the assets directory is its own category, extension included. */
  lemma CategoryOfTopLevelFile(assetsDir: string, name: string)
    requires |assetsDir| > 0 && !Contains("/" + name, assetsDir)
    requires name != [] && '/' !in name
    ensures CategoryFromPath(assetsDir, assetsDir + "/" + name) == name
  {
    CategoryIsFirstFolder(assetsDir, name);
    SplitWithoutSeparator(name, '/');
  }

  /** Removing the assets directory from the front of a path that does not repeat it leaves the rest. */
  lemma StripAssetsDir(assetsDir: string, rest: string)
    requires |assetsDir| > 0 && !Contains(rest, assetsDir)
    ensures ReplaceAll(assetsDir + rest, assetsDir, "") == rest
  {
    var p := assetsDir + rest;
    assert p[..|assetsDir|] == assetsDir && p[|assetsDir|..] == rest;
    ReplaceAllIdentities(rest, assetsDir, "");
  }

  lemma TrimLeadingSlash(rel: string)
    requires rel != [] && rel[0] != '/' && rel[|rel| - 1] != '/'
    ensures TrimWhere("/" + rel, IsSlash) == rel
  {
    assert ("/" + rel)[1..] == rel;
    assert TrimWhere(rel, IsSlash) == rel;
  }

  /**
   * `'assets/' . str_replace($assetsDir . '/', '', $path)` with every `\` then turned into `/`.
   */
  function RelativePath(assetsDir: string, path: string): (r: string)
    ensures '\\' !in r
  {
    var r := ReplaceAll("assets/" + ReplaceAll(path, assetsDir + "/", ""), "\\", "/");
    ReplaceCharRemoves("assets/" + ReplaceAll(path, assetsDir + "/", ""), '\\', '/');
    r
  }

  /** Replacing one character by a different one leaves none of it. */
  lemma {:induction false} ReplaceCharRemoves(s: string, c: char, d: char)
    requires c != d
    ensures c !in ReplaceAll(s, [c], [d])
    decreases |s|
  {
    if |s| >= 1 {
      ReplaceCharRemoves(s[1..], c, d);
      if s[..1] == [c] {
        assert ReplaceAll(s, [c], [d]) == [d] + ReplaceAll(s[1..], [c], [d]);
      } else {
        assert s[0] != c;
        assert ReplaceAll(s, [c], [d]) == [s[0]] + ReplaceAll(s[1..], [c], [d]);
      }
    }
  }

  /** The original path of a file under the assets directory is `assets/<rel>`. */
  lemma RelativePathOf(assetsDir: string, rel: string)
    requires !Contains(rel, assetsDir + "/") && '\\' !in rel
    ensures RelativePath(assetsDir, assetsDir + "/" + rel) == "assets/" + rel
  {
    var pat := assetsDir + "/";
    var p := assetsDir + "/" + rel;
    assert p == pat + rel;
    assert p[..|pat|] == pat && p[|pat|..] == rel;
    ReplaceAllIdentities(rel, pat, "");
    assert ReplaceAll(p, pat, "") == rel;
    NoCharUnchanged("assets/" + rel, '\\', "/");
  }

  lemma {:induction false} NoCharUnchanged(s: string, c: char, rep: string)
    requires c !in s
    ensures ReplaceAll(s, [c], rep) == s
    decreases |s|
  {
    if |s| >= 1 {
      NoCharUnchanged(s[1..], c, rep);
      assert s[0] != c;
      assert s[..1] != [c];
      assert s == [s[0]] + s[1..];
    }
  }

  /**
   * `generateThumbnail`'s answer: the flat `assets/_thumbs/<filename>_thumb.<ext>`, with
   * the extension as written (not lower-cased).
   */
  function ThumbnailPath(path: string): (t: string)
    ensures StartsWith(t, "assets/_thumbs/")
  {
    AppendAffixes("assets/_thumbs/", PhpFilename(path) + "_thumb." + PhpExtension(path));
    "assets/_thumbs/" + (PhpFilename(path) + "_thumb." + PhpExtension(path))
  }

  /** The thumbnail path ignores the folder: equal names in different folders share one thumbnail. */
  lemma ThumbnailPathIsFlat(dir1: string, dir2: string, name: string)
    requires '/' !in name
    ensures ThumbnailPath(dir1 + "/" + name) == ThumbnailPath(dir2 + "/" + name)
  {
    BasenameAfterSlash(dir1, name);
    BasenameAfterSlash(dir2, name);
  }

  /** `generateThumbnail`'s skip test: the thumbnail exists and is not older than the source. */
  predicate ThumbnailIsCurrent(thumbMtime: Option<int>, mtime: int) {
    thumbMtime.Some? && thumbMtime.value >= mtime
  }

  /** The messages of the errors the GD thumbnail code can throw. */
  const DivisionError: string := "Division by zero"
  const WidthError: string := "imagecreatetruecolor(): Argument #1 ($width) must be greater than 0"
  const HeightError: string := "imagecreatetruecolor(): Argument #2 ($height) must be greater than 0"
  const SourceImageError: string := "imagecopyresampled(): Argument #2 ($src_image) must be of type GdImage, bool given"

  /** The three types `createThumbnailWithGD` loads; for any other it returns false. */
  predicate GdLoads(t: ImageType) {
    t.Jpeg? || t.Png? || t.Webp?
  }

  function LongerSide(info: ImageInfo): nat {
    if info.width >= info.height then info.width else info.height
  }

  /**
   * 2^31. No JPEG, PNG or WebP that GD reads has a side this long (PNG's own limit is
   * 2^31 - 1); the sizing lemmas are stated for sides below it.
   */
  const MaxSide: nat := 0x8000_0000

  predicate InRange(info: ImageInfo) {
    info.width < MaxSide && info.height < MaxSide
  }

  /** `$ratio = min(480 / $w, 480 / $h)`, in PHP's numbers. */
  function GdRatio(info: ImageInfo): (r: N.Number)
    requires info.width > 0 && info.height > 0
    ensures N.Value(r) >= 0.0
  {
    N.Min(N.Div(ThumbnailWidth, info.width), N.Div(ThumbnailWidth, info.height))
  }

  /**
   * `createThumbnailWithGD`'s size: each side is `intval($side * $ratio)`. `None` when a side
   * is zero, where the ratio divides by zero.
   */
  function GdThumbnailSize(info: ImageInfo): Option<(int, int)> {
    if info.width == 0 || info.height == 0 then None
    else
      var ratio := GdRatio(info);
      Some((N.Truncate(N.Mul(info.width, ratio)), N.Truncate(N.Mul(info.height, ratio))))
  }

  /**
   * A side `s` of an image, scaled by the ratio and truncated: `s * 480` over the longer side,
   * truncated, except that an exact quotient may come out one lower, because the ratio and
   * the product are doubles.
   */
  lemma GdScaledSide(info: ImageInfo, s: nat)
    requires 0 < info.width < MaxSide && 0 < info.height < MaxSide
    requires s == info.width || s == info.height
    ensures var t := N.Truncate(N.Mul(s, GdRatio(info)));
      var a := s * ThumbnailWidth;
      var m := LongerSide(info);
      && (a % m != 0 ==> t == a / m)
      && (a % m == 0 ==> a / m - 1 <= t <= a / m)
  {
    var (w, h, m) := (info.width, info.height, LongerSide(info));
    N.DivNear(ThumbnailWidth, w);
    N.DivNear(ThumbnailWidth, h);
    N.MinNear(N.Div(ThumbnailWidth, w), N.Div(ThumbnailWidth, h), ThumbnailWidth, w, h);
    N.QuotientPositive(ThumbnailWidth as real, m as real);
    N.TruncatedProduct(s, GdRatio(info), ThumbnailWidth, m, s * ThumbnailWidth);
  }

  /**
   * The longer side of a GD thumbnail becomes 480, or 479 when rounding the ratio down makes
   * the product fall just short of 480; neither side exceeds 480.
   */
  lemma GdThumbnailFits(info: ImageInfo)
    requires 0 < info.width < MaxSide && 0 < info.height < MaxSide
    ensures var (w, h) := GdThumbnailSize(info).value;
      && 0 <= w <= ThumbnailWidth && 0 <= h <= ThumbnailWidth
      && (info.width >= info.height ==> ThumbnailWidth - 1 <= w)
      && (info.width <= info.height ==> ThumbnailWidth - 1 <= h)
  {
    GdScaledSide(info, info.width);
    GdScaledSide(info, info.height);
    ScaledSide(info.width, LongerSide(info));
    ScaledSide(info.height, LongerSide(info));
  }

  /** A side `x` of an image whose longer side is `m`, scaled by `480 / m` exactly. */
  lemma ScaledSide(x: nat, m: nat)
    requires 0 < x <= m
    ensures x * ThumbnailWidth / m <= ThumbnailWidth
    ensures x == m ==> x * ThumbnailWidth / m == ThumbnailWidth && (x * ThumbnailWidth) % m == 0
    ensures x * ThumbnailWidth / m == 0 <==> x * ThumbnailWidth < m
  {
    DivAtMost(x * ThumbnailWidth, m, ThumbnailWidth);
    if x == m {
      DivAtLeast(x * ThumbnailWidth, m, ThumbnailWidth);
    }
    DivIsZero(x * ThumbnailWidth, m);
  }

  /**
   * What `createThumbnailWithGD` throws for an image, if anything: nothing when the type is not
   * loaded or the body does not decode (it returns false), a `DivisionByZeroError` for a zero
   * side, and `imagecreatetruecolor`'s `ValueError` for a thumbnail side of zero.
   */
  function GdThumbnailError(info: ImageInfo): Option<string> {
    if !GdLoads(info.imageType) || !info.decodes then None
    else match GdThumbnailSize(info)
      case None => Some(DivisionError)
      case Some((w, h)) =>
        if w == 0 then Some(WidthError) else if h == 0 then Some(HeightError) else None
  }

  /** `generateThumbnail` on an accepted file: it redraws only a missing or stale thumbnail. */
  function ThumbnailError(file: PhpFile): Option<string> {
    if file.info.None? || ThumbnailIsCurrent(file.thumbMtime, file.mtime) then None
    else GdThumbnailError(file.info.value)
  }

  /**
   * A file's thumbnail step throws only when it has image info, its thumbnail is missing or
   * older than the file, GD loads and decodes it, and it has a zero side or its shorter side
   * times 480 is at most its longer side; and it throws whenever, besides the rest, that
   * product is strictly below the longer side. Where the two are equal the rounding of the
   * ratio decides: `TieThumbnailThrows` and `TieThumbnailDrawn` show both outcomes.
   */
  lemma ThumbnailErrorCases(file: PhpFile)
    requires file.info.Some? ==> InRange(file.info.value)
    ensures ThumbnailError(file).Some? ==>
      && file.info.Some?
      && !(file.thumbMtime.Some? && file.thumbMtime.value >= file.mtime)
      && file.info.value.imageType in {Jpeg, Png, Webp}
      && file.info.value.decodes
      && var w := file.info.value.width; var h := file.info.value.height;
         w == 0 || h == 0 || if w <= h then w * ThumbnailWidth <= h else h * ThumbnailWidth <= w
    ensures
      && file.info.Some?
      && !(file.thumbMtime.Some? && file.thumbMtime.value >= file.mtime)
      && file.info.value.imageType in {Jpeg, Png, Webp}
      && file.info.value.decodes
      && (var w := file.info.value.width; var h := file.info.value.height;
          w == 0 || h == 0 || if w <= h then w * ThumbnailWidth < h else h * ThumbnailWidth < w)
      ==> ThumbnailError(file).Some?
  {
    if file.info.Some? {
      var info := file.info.value;
      if info.width > 0 && info.height > 0 {
        GdSideZero(info, info.width);
        GdSideZero(info, info.height);
      }
    }
  }

  /** A scaled side truncates to zero only if that side times 480 is at most the longer side, and always if it is below. */
  lemma GdSideZero(info: ImageInfo, s: nat)
    requires 0 < info.width < MaxSide && 0 < info.height < MaxSide
    requires s == info.width || s == info.height
    ensures var t := N.Truncate(N.Mul(s, GdRatio(info)));
      && (t == 0 ==> s * ThumbnailWidth <= LongerSide(info))
      && (s * ThumbnailWidth < LongerSide(info) ==> t == 0)
  {
    GdScaledSide(info, s);
    var m := LongerSide(info);
    var a := s * ThumbnailWidth;
    DivIsZero(a, m);
    if a > m {
      DivAtLeast(a, m, 1);
    }
  }

  /** 480 / 23520 as a double, and the two sides of a 23520×49 image scaled by it. */
  lemma TieRatio()
    ensures N.Div(ThumbnailWidth, 23520) == N.Float(5882252574524729.0 / 288230376151711744.0)
    ensures N.Truncate(N.Mul(23520, N.Div(ThumbnailWidth, 23520))) == 479
    ensures N.Truncate(N.Mul(49, N.Div(ThumbnailWidth, 23520))) == 0
  {
    N.Pow2Values();
    var x := 480.0 / 23520.0;
    assert N.Significand(x, -58) == x * 288230376151711744.0;
    assert N.NearestInt(N.Significand(x, -58)) == 5882252574524729;
    N.RoundIn(x, -58);
    var f := 5882252574524729.0 / 288230376151711744.0;
    assert N.Div(ThumbnailWidth, 23520) == N.Float(f);
    var long := 23520.0 * f;
    assert N.Significand(long, -44) == long * 17592186044416.0;
    assert N.NearestInt(N.Significand(long, -44)) == 8444249301319679;
    N.RoundIn(long, -44);
    assert N.Mul(23520, N.Float(f)) == N.Float(8444249301319679.0 / 17592186044416.0);
    var short := 49.0 * f;
    assert N.Significand(short, -53) == short * 9007199254740992.0;
    assert N.NearestInt(N.Significand(short, -53)) == 9007199254740991;
    N.RoundIn(short, -53);
    assert N.Mul(49, N.Float(f)) == N.Float(9007199254740991.0 / 9007199254740992.0);
  }

  /** 480 / 11 as a double: the quotient rounded down to a 53-bit significand. */
  lemma ElevenRatio()
    ensures N.Div(ThumbnailWidth, 11) == N.Float(6141272219141585.0 / 140737488355328.0)
  {
    N.Pow2Values();
    var x := 480.0 / 11.0;
    assert N.Significand(x, -47) == x * 140737488355328.0;
    assert N.NearestInt(N.Significand(x, -47)) == 6141272219141585;
    N.RoundIn(x, -47);
  }

  /** The longer side of an 11×1 image times that double rounds to just below 480. */
  lemma ElevenLongSide()
    ensures N.Truncate(N.Mul(11, N.Float(6141272219141585.0 / 140737488355328.0))) == 479
  {
    N.Pow2Values();
    var long := 11.0 * (6141272219141585.0 / 140737488355328.0);
    assert N.Significand(long, -44) == long * 17592186044416.0;
    assert N.NearestInt(N.Significand(long, -44)) == 8444249301319679;
    N.RoundIn(long, -44);
  }

  /** The shorter side, 1, times that double is the double itself. */
  lemma ElevenShortSide()
    ensures N.Truncate(N.Mul(1, N.Float(6141272219141585.0 / 140737488355328.0))) == 43
  {
    N.Pow2Values();
    var f := 6141272219141585.0 / 140737488355328.0;
    assert N.Significand(f, -47) == 6141272219141585.0;
    N.RoundIn(f, -47);
  }

  /** 480 / 960 as a double, exactly 0.5, and the two sides of a 960×2 image scaled by it. */
  lemma HalfRatio()
    ensures N.Div(ThumbnailWidth, 960) == N.Float(0.5)
    ensures N.Truncate(N.Mul(960, N.Div(ThumbnailWidth, 960))) == 480
    ensures N.Truncate(N.Mul(2, N.Div(ThumbnailWidth, 960))) == 1
  {
    N.Pow2Values();
    assert N.Significand(0.5, -53) == 4503599627370496.0;
    N.RoundIn(0.5, -53);
    assert N.Div(ThumbnailWidth, 960) == N.Float(0.5);
    assert N.Significand(480.0, -44) == 8444249301319680.0;
    N.RoundIn(480.0, -44);
    assert N.Significand(1.0, -52) == 4503599627370496.0;
    N.RoundIn(1.0, -52);
  }

  /**
   * An 11×1 picture: `480 / 11` rounds down as a double, so its longer side comes out 479,
   * not 480.
   */
  lemma GdThumbnailOfElevenByOne(info: ImageInfo)
    requires info.width == 11 && info.height == 1
    ensures GdThumbnailSize(info) == Some((479, 43))
  {
    ElevenRatio();
    ElevenLongSide();
    ElevenShortSide();
    N.DivAboveHalf(ThumbnailWidth, 1);
    assert GdRatio(info) == N.Div(ThumbnailWidth, 11);
  }

  /**
   * A 23520×49 JPEG with no thumbnail yet: 49 × 480 is exactly 23520, but the ratio rounds
   * below 1/49 and the height truncates to 0, so `imagecreatetruecolor` throws.
   */
  lemma TieThumbnailThrows(file: PhpFile)
    requires file.info == Some(ImageInfo(23520, 49, Jpeg, true)) && file.thumbMtime.None?
    ensures GdThumbnailSize(file.info.value) == Some((479, 0))
    ensures ThumbnailError(file) == Some(HeightError)
  {
    TieRatio();
    N.DivAboveHalf(ThumbnailWidth, 49);
    assert GdRatio(file.info.value) == N.Div(ThumbnailWidth, 23520);
  }

  /** A 960×2 JPEG with no thumbnail yet: the same exact proportion, but here the ratio is exact and the thumbnail is 480×1. */
  lemma TieThumbnailDrawn(file: PhpFile)
    requires file.info == Some(ImageInfo(960, 2, Jpeg, true)) && file.thumbMtime.None?
    ensures GdThumbnailSize(file.info.value) == Some((480, 1))
    ensures ThumbnailError(file) == None
  {
    HalfRatio();
    assert GdRatio(file.info.value) == N.Div(ThumbnailWidth, 960);
  }

  /**
   * `loadMetadata`: the entry for the file name (without extension) in `<dir>/.meta.json`,
   * or nothing when that file is missing, decodes to a falsy value, or has no such entry.
   */
  function LoadMetadata(metaFiles: map<string, MetaFile>, path: string): (m: Meta)
    ensures var key := Dirname(path) + "/.meta.json";
      (key !in metaFiles || !metaFiles[key].Entries? || PhpFilename(path) !in metaFiles[key].entries) ==> m == NoMeta
  {
    var key := Dirname(path) + "/.meta.json";
    if key !in metaFiles then NoMeta
    else match metaFiles[key]
      case Entries(entries) =>
        if PhpFilename(path) in entries then entries[PhpFilename(path)] else NoMeta
      case _ => NoMeta
  }

  /** Files that differ only in extension share one metadata entry: the key drops the extension. */
  lemma MetadataKeyDropsExtension(metaFiles: map<string, MetaFile>, dir: string, stem: string, ext1: string, ext2: string)
    requires '/' !in stem && '.' !in ext1 && '/' !in ext1 && '.' !in ext2 && '/' !in ext2
    ensures LoadMetadata(metaFiles, dir + "/" + stem + "." + ext1) == LoadMetadata(metaFiles, dir + "/" + stem + "." + ext2)
  {
    FileInDir(dir, stem, ext1);
    FileInDir(dir, stem, ext2);
  }

  lemma FileInDir(dir: string, stem: string, ext: string)
    requires '/' !in stem && '.' !in ext && '/' !in ext
    ensures Dirname(dir + "/" + stem + "." + ext) == (if dir == "" then "/" else dir)
    ensures PhpFilename(dir + "/" + stem + "." + ext) == stem
  {
    var name := stem + "." + ext;
    var p := dir + "/" + name;
    assert dir + "/" + stem + "." + ext == p;
    assert '/' !in name;
    BasenameAfterSlash(dir, name);
    LastIndexOfCharAt(dir, '/', name);
    assert p[..|dir|] == dir;
    LastIndexOfCharAt(stem, '.', ext);
    assert name[..|stem|] == stem;
  }

  /** The slug base: `Utils::toSlug` of the file name alone, without category. */
  function SlugBaseOf(file: PhpFile): (b: string)
    ensures b == ToSlug(PhpFilename(file.path))
  {
    SlugVariantsAgree(PhpFilename(file.path));
    ToSlugPhp(PhpFilename(file.path))
  }

  /** The item `processImage` appends for an accepted file with the slug it was given. */
  function MakeItem(assetsDir: string, metaFiles: map<string, MetaFile>, file: PhpFile, slug: string): Item
    requires file.info.Some?
  {
    var filename := PhpFilename(file.path);
    var category := CategoryFromPath(assetsDir, file.path);
    var meta := LoadMetadata(metaFiles, file.path);
    Item(slug, meta.title.GetOr(filename), category, meta.tags.GetOr([category]), meta.description.GetOr(""),
         meta.license.GetOr(DefaultLicense), RelativePath(assetsDir, file.path), ThumbnailPath(file.path),
         file.info.value.width, file.info.value.height, file.size, slug, file.modified, file.modified)
  }

  /**
   * What an item records: the slug as both id and slug, the sidecar title even when empty
   * (`??` only falls through on null), else the file name; the sidecar tags instead of (not
   * added to) the category; an empty description and the CC0 licence by default.
   */
  lemma MakeItemFields(assetsDir: string, metaFiles: map<string, MetaFile>, file: PhpFile, slug: string)
    requires file.info.Some?
    ensures var it := MakeItem(assetsDir, metaFiles, file, slug);
      var meta := LoadMetadata(metaFiles, file.path);
      && it.id == slug && it.slug == slug
      && (meta.title == Some("") ==> it.title == "")
      && (meta.title.None? ==> it.title == PhpFilename(file.path))
      && (meta.tags.Some? ==> it.tags == meta.tags.value)
      && (meta.tags.None? ==> it.tags == [it.category])
      && (meta.description.None? ==> it.description == "")
      && (meta.license.None? ==> it.license == DefaultLicense)
      && it.createdAt == it.updatedAt
      && '\\' !in it.originalPath
  {
  }

  /** The item of an accepted file, or the error its thumbnail step throws, as a function value for the catalogue loop. */
  function MakeFn(assetsDir: string, metaFiles: map<string, MetaFile>): (PhpFile, string) -> Result<Item, string> {
    (f: PhpFile, s: string) =>
      if ThumbnailError(f).Some? then Failure(ThumbnailError(f).value)
      else if f.info.Some? then Success(MakeItem(assetsDir, metaFiles, f, s))
      else Failure("")
  }

  /** The walk's outcome, its items or the error that stopped it, and the generator's counter afterwards. */
  function ProcessImagesSpec(assetsDir: string, metaFiles: map<string, MetaFile>, counter: Counter, files: seq<PhpFile>)
    : (Result<seq<Item>, string>, Counter)
  {
    Catalogue.Run(counter, files, Accepts, SlugBaseOf, MakeFn(assetsDir, metaFiles))
  }

  /** A file the walk does not accept changes nothing. */
  lemma ProcessImagesSkip(assetsDir: string, metaFiles: map<string, MetaFile>, counter: Counter, files: seq<PhpFile>, i: nat)
    requires i < |files| && !Accepts(files[i])
    ensures ProcessImagesSpec(assetsDir, metaFiles, counter, files[..i + 1]) ==
      ProcessImagesSpec(assetsDir, metaFiles, counter, files[..i])
  {
    Catalogue.RunPrefixSnoc(counter, files, i, Accepts, SlugBaseOf, MakeFn(assetsDir, metaFiles));
  }

  /**
   * An accepted file is handed the next slug for its file name; then its item is appended, or
   * the error of its thumbnail step ends the whole walk with the counter already advanced.
   */
  lemma ProcessImagesVisit(assetsDir: string, metaFiles: map<string, MetaFile>, counter: Counter, files: seq<PhpFile>, i: nat)
    requires i < |files| && Accepts(files[i])
    requires ProcessImagesSpec(assetsDir, metaFiles, counter, files[..i]).0.Success?
    ensures var prev := ProcessImagesSpec(assetsDir, metaFiles, counter, files[..i]);
      var step := Allocate(prev.1, SlugBaseOf(files[i]));
      && (ThumbnailError(files[i]).None? ==>
            ProcessImagesSpec(assetsDir, metaFiles, counter, files[..i + 1]) ==
              (Success(prev.0.value + [MakeItem(assetsDir, metaFiles, files[i], step.0)]), step.1))
      && (ThumbnailError(files[i]).Some? ==>
            ProcessImagesSpec(assetsDir, metaFiles, counter, files) == (Failure(ThumbnailError(files[i]).value), step.1))
  {
    var prev := ProcessImagesSpec(assetsDir, metaFiles, counter, files[..i]);
    assert [] + prev.0.value == prev.0.value;
    Catalogue.RunVisitState(counter, files, i, Accepts, SlugBaseOf, MakeFn(assetsDir, metaFiles), [], prev.1, prev.0.value);
    var step := Allocate(prev.1, SlugBaseOf(files[i]));
    MakeFnOf(assetsDir, metaFiles, files[i], step.0);
    var next := ProcessImagesSpec(assetsDir, metaFiles, counter, files[..i + 1]);
    if ThumbnailError(files[i]).None? {
      assert [] + next.0.value == next.0.value;
      assert next.0.value == prev.0.value + [MakeItem(assetsDir, metaFiles, files[i], step.0)];
    }
  }

  /**
   * One file's turn: a file the walk does not accept leaves the items and the counter alone; an
   * accepted one takes the next slug for its name and then either appends its item or throws.
   */
  function ProcessImageSpec(assetsDir: string, metaFiles: map<string, MetaFile>, counter: Counter,
                            items: seq<Item>, file: PhpFile): (Result<seq<Item>, string>, Counter)
  {
    if !Accepts(file) then (Success(items), counter)
    else
      var step := Allocate(counter, SlugBaseOf(file));
      (if ThumbnailError(file).Some? then Failure(ThumbnailError(file).value)
       else Success(items + [MakeItem(assetsDir, metaFiles, file, step.0)]), step.1)
  }

  /**
   * The walk is the files' turns in order: while the turns succeed each one extends the walk by
   * one file, and the first that throws is the outcome of the whole walk.
   */
  lemma ProcessImagesNext(assetsDir: string, metaFiles: map<string, MetaFile>, counter: Counter, files: seq<PhpFile>, i: nat)
    requires i < |files|
    requires ProcessImagesSpec(assetsDir, metaFiles, counter, files[..i]).0.Success?
    ensures var prev := ProcessImagesSpec(assetsDir, metaFiles, counter, files[..i]);
      var next := ProcessImageSpec(assetsDir, metaFiles, prev.1, prev.0.value, files[i]);
      && (next.0.Success? ==> ProcessImagesSpec(assetsDir, metaFiles, counter, files[..i + 1]) == next)
      && (next.0.Failure? ==> ProcessImagesSpec(assetsDir, metaFiles, counter, files) == next)
  {
    if Accepts(files[i]) {
      ProcessImagesVisit(assetsDir, metaFiles, counter, files, i);
    } else {
      ProcessImagesSkip(assetsDir, metaFiles, counter, files, i);
    }
  }

  /** What the catalogue loop's item function gives for a file with its info. */
  lemma MakeFnOf(assetsDir: string, metaFiles: map<string, MetaFile>, f: PhpFile, slug: string)
    requires f.info.Some?
    ensures MakeFn(assetsDir, metaFiles)(f, slug) ==
      if ThumbnailError(f).Some? then Failure(ThumbnailError(f).value) else Success(MakeItem(assetsDir, metaFiles, f, slug))
  {
  }

  predicate Processable(file: PhpFile) {
    file.info.Some? && ThumbnailError(file).None?
  }

  /** Some file the walk processes makes its thumbnail step throw. */
  predicate SomeThumbnailThrows(files: seq<PhpFile>) {
    exists f :: f in files && Accepts(f) && ThumbnailError(f).Some?
  }

  /** The walk stops early exactly when the thumbnail step of a file it processes throws; nothing else stops it. */
  lemma ProcessImagesFailsIff(assetsDir: string, metaFiles: map<string, MetaFile>, counter: Counter, files: seq<PhpFile>)
    ensures ProcessImagesSpec(assetsDir, metaFiles, counter, files).0.Failure? <==> SomeThumbnailThrows(files)
  {
    MakeFnSucceeds(assetsDir, metaFiles);
    Catalogue.RunFailsIff(counter, files, Accepts, SlugBaseOf, MakeFn(assetsDir, metaFiles), Processable);
    ThrowsAmongAccepted(files);
  }

  /** The item function succeeds exactly on the processable files. */
  lemma MakeFnSucceeds(assetsDir: string, metaFiles: map<string, MetaFile>)
    ensures forall f, slug :: MakeFn(assetsDir, metaFiles)(f, slug).Success? <==> Processable(f)
  {
    forall f, slug ensures MakeFn(assetsDir, metaFiles)(f, slug).Success? <==> Processable(f) {
      if f.info.Some? {
        MakeFnOf(assetsDir, metaFiles, f, slug);
      }
    }
  }

  /** A thumbnail step throws in the walk exactly when some accepted file is not processable. */
  lemma ThrowsAmongAccepted(files: seq<PhpFile>)
    ensures var acc := Catalogue.Accepted(files, Accepts);
      SomeThumbnailThrows(files) <==> exists j :: 0 <= j < |acc| && !Processable(acc[j])
  {
    var acc := Catalogue.Accepted(files, Accepts);
    if SomeThumbnailThrows(files) {
      var f :| f in files && Accepts(f) && ThumbnailError(f).Some?;
      Catalogue.AcceptedMembers(files, Accepts, f);
      var j :| 0 <= j < |acc| && acc[j] == f;
      assert !Processable(acc[j]);
    }
    if j :| 0 <= j < |acc| && !Processable(acc[j]) {
      Catalogue.AcceptedMembers(files, Accepts, acc[j]);
      assert acc[j] in files && Accepts(acc[j]);
    }
  }

  /**
   * A walk that completes has the items of the accepted files in order, each with the slug the
   * shared generator hands out for its file name; it completes exactly when no thumbnail step throws.
   */
  lemma ProcessImagesItems(assetsDir: string, metaFiles: map<string, MetaFile>, counter: Counter, files: seq<PhpFile>)
    ensures var r := ProcessImagesSpec(assetsDir, metaFiles, counter, files).0;
      var acc := Catalogue.Accepted(files, Accepts);
      var slugs := AllocateAll(counter, Catalogue.Bases(acc, SlugBaseOf)).0;
      && (r.Success? <==> !SomeThumbnailThrows(files))
      && (r.Success? ==>
            && |r.value| == |acc|
            && forall j :: 0 <= j < |acc| ==> r.value[j] == MakeItem(assetsDir, metaFiles, acc[j], slugs[j]))
  {
    ProcessImagesFailsIff(assetsDir, metaFiles, counter, files);
    if ProcessImagesSpec(assetsDir, metaFiles, counter, files).0.Success? {
      Catalogue.RunItems(counter, files, Accepts, SlugBaseOf, MakeFn(assetsDir, metaFiles));
    }
  }

  /** Two processed files whose names slug alike get distinct slugs from the shared generator. */
  lemma ProcessImagesSlugsDistinct(assetsDir: string, metaFiles: map<string, MetaFile>, counter: Counter,
                                   files: seq<PhpFile>, i: nat, j: nat)
    requires var acc := Catalogue.Accepted(files, Accepts);
      i < j < |acc| && SlugBaseOf(acc[i]) == SlugBaseOf(acc[j])
    ensures var r := ProcessImagesSpec(assetsDir, metaFiles, counter, files).0;
      r.Success? ==> |r.value| == |Catalogue.Accepted(files, Accepts)| && r.value[i].slug != r.value[j].slug
  {
    ProcessImagesItems(assetsDir, metaFiles, counter, files);
    var acc := Catalogue.Accepted(files, Accepts);
    SameBaseDistinct(counter, Catalogue.Bases(acc, SlugBaseOf), i, j);
  }

  /** The processor: the assets directory of its configuration and the slug generator it shares. */
  class ImageProcessor {
    const assetsDir: string
    const slugGenerator: SlugGenerator

    constructor(assetsDir: string, slugGenerator: SlugGenerator)
      ensures this.assetsDir == assetsDir && this.slugGenerator == slugGenerator
    {
      this.assetsDir := assetsDir;
      this.slugGenerator := slugGenerator;
    }

    /**
     * `processImage` / `processImageFile`: skips a file it does not accept; otherwise takes the
     * next slug, brings the thumbnail up to date and appends the item, unless the thumbnail
     * step throws.
     */
    method ProcessImage(file: PhpFile, metaFiles: map<string, MetaFile>, items: seq<Item>) returns (r: Result<seq<Item>, string>)
      modifies slugGenerator
      ensures (r, slugGenerator.counter) == ProcessImageSpec(assetsDir, metaFiles, old(slugGenerator.counter), items, file)
    {
      if !ValidExtension(file.path) || UnderThumbs(file.path) || file.info.None? {
        return Success(items);
      }
      var baseSlug := ToSlugPhp(PhpFilename(file.path));
      assert baseSlug == SlugBaseOf(file);
      var slug := slugGenerator.Generate(baseSlug);
      var thrown := ThumbnailError(file);
      if thrown.Some? {
        return Failure(thrown.value);
      }
      r := Success(items + [MakeItem(assetsDir, metaFiles, file, slug)]);
    }

    /**
     * `processImages`: the walk, skipping `_thumbs` paths and processing every other file in
     * turn, until a thumbnail step throws.
     */
    method ProcessImages(files: seq<PhpFile>, metaFiles: map<string, MetaFile>) returns (r: Result<seq<Item>, string>)
      modifies slugGenerator
      ensures (r, slugGenerator.counter) == ProcessImagesSpec(assetsDir, metaFiles, old(slugGenerator.counter), files)
    {
      var items := [];
      var i := 0;
      while i < |files|
        invariant 0 <= i <= |files|
        invariant (Success(items), slugGenerator.counter) ==
          ProcessImagesSpec(assetsDir, metaFiles, old(slugGenerator.counter), files[..i])
      {
        ProcessImagesNext(assetsDir, metaFiles, old(slugGenerator.counter), files, i);
        if !UnderThumbs(files[i].path) {
          var step := ProcessImage(files[i], metaFiles, items);
          if step.Failure? {
            return step;
          }
          items := step.value;
        }
        i := i + 1;
      }
      assert files[..i] == files;
      return Success(items);
    }
  }
}
