/**
 * scripts/build-index.php: the PHP copy of the naive full build. A directory
 * walk hands every file under the assets directory to a filter; each file
 * that passes goes to `handleImage`, which takes a slug from the global
 * counter `$slugCounter` and appends an item to the global `$items`. The
 * route list and the sitemap are built from the items afterwards. Where the
 * PHP copy differs from scripts/build-index.mjs: the filter also accepts
 * `.gif` and skips any path with a `/_thumbs/` segment; the title is
 * `ucwords` of the base with dashes and underscores turned into spaces one
 * for one; folder tags drop `"0"` as well as empty segments; a top-level
 * file's thumbnail sits under `_thumbs/./`; `getBaseUrl` treats `"0"` as
 * unset and keeps everything after the first `/` as the repository; every
 * `<loc>` is escaped with `htmlspecialchars`; and an unreadable image does not
 * stop the build but only leaves its size `null`. What does stop it is the GD
 * thumbnail: an image of a type GD loads whose thumbnail would have a side of
 * zero, or whose body does not decode, makes `createThumbnail` throw an error
 * that the script's `catch (Exception $e)` does not catch.
 */
module BuildIndexPhp {
  import opened Wrappers
  import opened Text
  import opened Paths
  import opened Slugs
  import opened SlugAllocation
  import opened Escape
  import Catalogue
  import opened Arith
  import IPP = ImageProcessorPhp
  import N = PhpNumber
  import IP = ImageProcessorJs
  import SitemapJs
  import BuildIndexJs

  /** The entries of `assets.json`, the same record the JavaScript copy writes. */
  type IndexItem = BuildIndexJs.IndexItem

  /** `$validExt`. */
  const ValidExt: seq<string> := [".jpg", ".jpeg", ".png", ".webp", ".gif"]
  const License: string := "CC0-1.0"

  /**
   * A file the walk yields: its path below the assets directory, what `getimagesize` reads and
   * whether GD decodes the body (`None` when `getimagesize` returns false), and its `filesize`.
   */
  datatype AssetFile = AssetFile(rel: string, info: Option<IPP.ImageInfo>, bytes: nat)

  // ---------------------------------------------------------------- the ingestion filter

  /** The path the walk reports: the assets directory, `/`, the relative path. */
  function FullPath(assetsDir: string, rel: string): string {
    assetsDir + "/" + rel
  }

  /**
   * The walk callback's test: `'.' . strtolower(pathinfo($filePath, PATHINFO_EXTENSION))` is in
   * `$validExt` and the full path has no `/_thumbs/` in it.
   */
  predicate Ingested(assetsDir: string, file: AssetFile) {
    var p := FullPath(assetsDir, file.rel);
    "." + Lower(PhpExtension(p)) in ValidExt && !Contains(p, "/_thumbs/")
  }

  /** A file `dir/stem.ext` is ingested exactly when `.ext`, lowercased, is valid and no `/_thumbs/` occurs. */
  lemma IngestedFile(assetsDir: string, dir: string, stem: string, ext: string, info: Option<IPP.ImageInfo>, bytes: nat)
    requires '/' !in stem && '.' !in ext && '/' !in ext
    ensures Ingested(assetsDir, AssetFile(dir + "/" + (stem + "." + ext), info, bytes)) <==>
      && "." + Lower(ext) in ValidExt
      && !Contains(assetsDir + "/" + (dir + "/" + (stem + "." + ext)), "/_thumbs/")
  {
    var name := stem + "." + ext;
    var p := FullPath(assetsDir, dir + "/" + name);
    assert p == (assetsDir + "/" + dir) + "/" + name;
    PhpPathinfoOfFile(assetsDir + "/" + dir, stem, ext);
    assert PhpExtension(p) == ext;
  }

  /** Whatever its extension, nothing in the `_thumbs` folder at the top of the assets is ingested. */
  lemma ThumbsFolderSkipped(assetsDir: string, rest: string, info: Option<IPP.ImageInfo>, bytes: nat)
    ensures !Ingested(assetsDir, AssetFile("_thumbs/" + rest, info, bytes))
  {
    var p := FullPath(assetsDir, "_thumbs/" + rest);
    assert p == assetsDir + "/_thumbs/" + rest;
    assert p[|assetsDir|..][..9] == "/_thumbs/";
  }

  // ---------------------------------------------------------------- the derivations

  /** `ucwords`'s default word separators: space, tab, carriage return, newline, form feed, vertical tab. */
  predicate IsWordSeparator(c: char) {
    c == ' ' || c == '\t' || c == '\r' || c == '\n' || c == '\U{C}' || c == '\U{B}'
  }

  /** The character `ucwords` writes at position `i`: uppercased at the start and after a separator. */
  function UcWordsChar(s: string, i: nat): char
    requires i < |s|
  {
    if i == 0 || IsWordSeparator(s[i - 1]) then UpperChar(s[i]) else s[i]
  }

  /** `ucwords($s)`: the first character of the string and every character after a separator uppercased. */
  function UcWords(s: string): (r: string)
    ensures |r| == |s|
    ensures forall i :: 0 <= i < |s| ==> r[i] == UcWordsChar(s, i)
  {
    seq(|s|, i requires 0 <= i < |s| => UcWordsChar(s, i))
  }

  /** What `str_replace(['-', '_'], ' ', ...)` makes of one character. */
  function SpaceForDash(c: char): char {
    if c == '-' || c == '_' then ' ' else c
  }

  /** `str_replace(['-', '_'], ' ', $s)`: each dash and underscore becomes one space. */
  function DashesToSpaces(s: string): (r: string)
    ensures |r| == |s|
    ensures forall i :: 0 <= i < |s| ==> r[i] == SpaceForDash(s[i])
  {
    seq(|s|, i requires 0 <= i < |s| => SpaceForDash(s[i]))
  }

  /** The title of a base name. */
  function Title(base: string): string {
    UcWords(DashesToSpaces(base))
  }

  /** Uppercasing leaves the space, the dash and the underscore alone and makes no new one. */
  lemma UpperCharKeeps(c: char)
    ensures UpperChar(c) == ' ' <==> c == ' '
    ensures UpperChar(c) == '-' <==> c == '-'
    ensures UpperChar(c) == '_' <==> c == '_'
    ensures IsWordSeparator(UpperChar(c)) <==> IsWordSeparator(c)
    ensures !IsLower(UpperChar(c))
  {
  }

  /** The title's character at `i` is the base's character with dashes made spaces, perhaps uppercased. */
  lemma TitleAt(base: string, i: nat)
    requires i < |base|
    ensures |Title(base)| == |base|
    ensures Title(base)[i] == SpaceForDash(base[i]) || Title(base)[i] == UpperChar(SpaceForDash(base[i]))
  {
    var d := DashesToSpaces(base);
    assert Title(base)[i] == UcWordsChar(d, i);
  }

  /**
   * The title keeps one character per character of the base (runs are not collapsed and
   * nothing is trimmed) and has a space exactly where the base has a space, dash or underscore.
   */
  lemma TitleSpaces(base: string)
    ensures |Title(base)| == |base|
    ensures forall i :: 0 <= i < |base| ==>
      (Title(base)[i] == ' ' <==> base[i] == ' ' || base[i] == '-' || base[i] == '_')
  {
    forall i | 0 <= i < |base|
      ensures Title(base)[i] == ' ' <==> base[i] == ' ' || base[i] == '-' || base[i] == '_'
    {
      TitleAt(base, i);
      UpperCharKeeps(SpaceForDash(base[i]));
    }
  }

  /** No dash or underscore is left in a title. */
  lemma TitleNoDashes(base: string)
    ensures forall i :: 0 <= i < |Title(base)| ==> Title(base)[i] != '-' && Title(base)[i] != '_'
  {
    forall i | 0 <= i < |Title(base)| ensures Title(base)[i] != '-' && Title(base)[i] != '_' {
      TitleAt(base, i);
      UpperCharKeeps(SpaceForDash(base[i]));
    }
  }

  /** Apart from the spaces, the title differs from the base only in letter case. */
  lemma TitleCaseOnly(base: string)
    ensures forall i :: 0 <= i < |Title(base)| && Title(base)[i] != ' ' ==>
      LowerChar(Title(base)[i]) == LowerChar(base[i])
  {
    forall i | 0 <= i < |Title(base)| && Title(base)[i] != ' '
      ensures LowerChar(Title(base)[i]) == LowerChar(base[i])
    {
      TitleAt(base, i);
      UpperCharKeeps(SpaceForDash(base[i]));
    }
  }

  /** Every word of the title, the first included, starts with a character that is not a lowercase letter. */
  lemma TitleWordStarts(base: string)
    ensures |Title(base)| > 0 ==> !IsLower(Title(base)[0])
    ensures forall i :: 0 < i < |Title(base)| && Title(base)[i - 1] == ' ' ==> !IsLower(Title(base)[i])
  {
    var d := DashesToSpaces(base);
    var t := Title(base);
    if |t| > 0 {
      assert t[0] == UcWordsChar(d, 0);
      UpperCharKeeps(d[0]);
    }
    forall i | 0 < i < |t| && t[i - 1] == ' ' ensures !IsLower(t[i]) {
      assert t[i] == UcWordsChar(d, i);
      assert t[i - 1] == UcWordsChar(d, i - 1);
      UpperCharKeeps(d[i]);
      UpperCharKeeps(d[i - 1]);
    }
  }

  /** `ucwords` is idempotent: a second pass changes nothing. */
  lemma UcWordsIdempotent(s: string)
    ensures UcWords(UcWords(s)) == UcWords(s)
  {
    var u := UcWords(s);
    forall i | 0 <= i < |s| ensures UcWords(u)[i] == u[i] {
      assert UcWords(u)[i] == UcWordsChar(u, i);
      assert u[i] == UcWordsChar(s, i);
      if i > 0 {
        assert u[i - 1] == UcWordsChar(s, i - 1);
        UpperCharKeeps(s[i - 1]);
      }
    }
  }

  /**
   * `$parts[0] ?? 'misc'`, the parts being `explode('/', $relFromAssets)`, which splits as
   * `split("/")` does. `explode` always yields a first element, so it is never `misc`.
   */
  function Category(rel: string): string {
    IP.Parts(rel)[0]
  }

  /** A file in a folder is filed under the folder; a file at the top under its own name, extension included. */
  lemma CategoryOf(dir: string, name: string)
    requires '/' !in dir && '/' !in name
    ensures Category(dir + "/" + name) == dir
    ensures Category(name) == name
  {
    SplitFirst(dir, '/', name);
    SplitWithoutSeparator(name, '/');
  }

  /** PHP truthiness of a string: neither `""` nor `"0"`. */
  predicate Truthy(s: string) {
    s != "" && s != "0"
  }

  /** `array_unique(array_filter(array_slice($parts, 0, -1)))`: the truthy folders above the file, once each. */
  function FolderTags(rel: string): (tags: seq<string>)
    ensures Distinct(tags)
  {
    var parts := IP.Parts(rel);
    Dedup(Filter(parts[..|parts| - 1], Truthy))
  }

  /** A tag is a folder above the file that is neither empty nor `"0"`. */
  lemma FolderTagsMembers(rel: string, t: string)
    ensures t in FolderTags(rel) <==> Truthy(t) && t in IP.Parts(rel)[..|IP.Parts(rel)| - 1]
  {
  }

  /** The PHP tags are the JavaScript ones without a folder named `"0"`, which PHP finds falsy. */
  lemma TagsDropZeroFolders(rel: string, t: string)
    ensures t in FolderTags(rel) <==> t in IP.FolderTags(rel) && t != "0"
  {
    FolderTagsMembers(rel, t);
  }

  /** `toSlug($category . '-' . $base)`: the base the global counter is asked for. */
  function SlugBase(rel: string): string {
    ToSlugPhp(Category(rel) + "-" + PhpFilename(rel))
  }

  /**
   * For a name with an ordinary extension under a named folder, the PHP script asks for the
   * same slug base as the JavaScript one.
   */
  lemma SlugBaseAgrees(rel: string)
    requires var b := Basename(rel); var k := LastIndexOfChar(b, '.'); k > 0 && b != ".."
    requires IP.Parts(rel)[0] != ""
    ensures SlugBase(rel) == IP.SlugBase(IP.NoMeta, rel)
  {
    ExtensionsAgree(rel);
    SlugVariantsAgree(Category(rel) + "-" + PhpFilename(rel));
  }

  /** `'assets/' . '_thumbs/' . dirname($rel) . '/' . $base . '-480.jpg'`. */
  function ThumbPath(rel: string): string {
    "assets/" + ("_thumbs/" + Dirname(rel)) + "/" + (PhpFilename(rel) + "-480.jpg")
  }

  /** In a folder the thumbnail mirrors the folder; at the top `dirname` gives `.`, so the path has `/./`. */
  lemma ThumbPathOf(dir: string, name: string)
    requires dir != "" && '/' !in name
    ensures ThumbPath(dir + "/" + name) == "assets/" + ("_thumbs/" + dir) + "/" + (PhpFilename(name) + "-480.jpg")
    ensures ThumbPath(name) == "assets/" + ("_thumbs/" + ".") + "/" + (PhpFilename(name) + "-480.jpg")
  {
    DirnameOfSegment(dir, name);
    assert PhpFilename(dir + "/" + name) == PhpFilename(name) by {
      BasenameAfterSlash(dir, name);
      NoSlashBasename(name);
    }
  }

  /** The item `handleImage` appends for a file with the slug it was given. */
  function MakeItem(file: AssetFile, slug: string): IndexItem {
    var base := PhpFilename(file.rel);
    BuildIndexJs.IndexItem(base, slug, Title(base), Category(file.rel), FolderTags(file.rel),
                           if file.info.Some? then Some(file.info.value.width) else None,
                           if file.info.Some? then Some(file.info.value.height) else None,
                           file.bytes, "assets/" + file.rel, ThumbPath(file.rel), License)
  }

  /**
   * The item's id is the file name without extension, its file the path under `assets/`, its
   * licence CC0; the size is the image's when `getimagesize` read it and `null` otherwise.
   */
  lemma MakeItemFields(file: AssetFile, slug: string)
    ensures var it := MakeItem(file, slug);
      && it.id == PhpFilename(file.rel) && it.slug == slug
      && it.file == "assets/" + file.rel && it.license == "CC0-1.0"
      && (it.width.Some? <==> file.info.Some?) && (it.height.Some? <==> file.info.Some?)
      && (file.info.Some? ==> it.width.value == file.info.value.width && it.height.value == file.info.value.height)
  {
  }

  // ---------------------------------------------------------------- the thumbnail

  /** The width `handleImage` asks `createThumbnail` for. */
  const ThumbWidth: nat := 480

  /**
   * The size branch of `createThumbnail`: an image no wider than `maxWidth` keeps its size; a
   * wider one gets width `maxWidth` and height `(int)($srcHeight * ($maxWidth / $srcWidth))`,
   * in PHP's numbers: the quotient is a double, and so is the product.
   */
  function ThumbnailSize(src: IPP.ImageInfo, maxWidth: nat): IPP.ImageInfo {
    if src.width <= maxWidth then src
    else src.(width := maxWidth, height := N.Truncate(N.Mul(src.height, N.Div(maxWidth, src.width))))
  }

  /**
   * A thumbnail is never larger than its source and never wider than `maxWidth` unless the
   * source is; a scaled height is `height * maxWidth / width` on integers, except that an
   * exact quotient may come out one lower.
   */
  lemma ThumbnailNeverUpscales(src: IPP.ImageInfo, maxWidth: nat)
    requires IPP.InRange(src) && maxWidth <= ThumbWidth
    ensures var r := ThumbnailSize(src, maxWidth);
      && r.width == (if src.width <= maxWidth then src.width else maxWidth)
      && r.width <= src.width && r.height <= src.height
      && (src.width <= maxWidth <==> r == src)
      && (src.width > maxWidth ==> ScaledHeight(src, maxWidth, r.height))
  {
    if src.width > maxWidth {
      var a := src.height * maxWidth;
      ScaledHeightBound(src, maxWidth);
      assert a <= src.height * src.width by {
        MulMonotone(maxWidth, src.width, src.height);
      }
      DivAtMost(a, src.width, src.height);
    }
  }

  /** `t` is the exact truncated quotient `height * maxWidth / width`, or one less when that quotient is exact. */
  predicate ScaledHeight(src: IPP.ImageInfo, maxWidth: nat, t: int)
    requires src.width > 0
  {
    var a := src.height * maxWidth;
    if a % src.width != 0 then t == a / src.width else a / src.width - 1 <= t <= a / src.width
  }

  lemma ScaledHeightBound(src: IPP.ImageInfo, maxWidth: nat)
    requires IPP.InRange(src) && maxWidth <= ThumbWidth && src.width > maxWidth
    ensures ScaledHeight(src, maxWidth, ThumbnailSize(src, maxWidth).height)
  {
    var ratio := N.Div(maxWidth, src.width);
    if src.height > 0 && maxWidth > 0 {
      N.DivNear(maxWidth, src.width);
      MulMonotone(maxWidth, ThumbWidth, src.height);
      assert src.height * maxWidth < 2251799813685248;
      N.TruncatedProduct(src.height, ratio, maxWidth, src.width, src.height * maxWidth);
    } else if src.height == 0 {
      assert N.Value(N.Mul(0, ratio)) == 0.0;
    } else {
      assert ratio == N.Int(0);
    }
  }

  /** The four types `createThumbnail` loads; for any other it prints a message and returns false. */
  predicate CreatesFrom(t: IPP.ImageType) {
    !t.OtherType?
  }

  /**
   * What `createThumbnail` throws for a file, if anything. An unreadable image leaves the type
   * `null`, so the switch returns false, as it does for a type it does not load. Otherwise
   * `imagecreatetruecolor` throws a `ValueError` for a side of zero, and `imagecopyresampled`
   * a `TypeError` when the body did not decode and the source image is `false`.
   */
  function ThumbnailError(file: AssetFile): Option<string> {
    if file.info.None? || !CreatesFrom(file.info.value.imageType) then None
    else
      var size := ThumbnailSize(file.info.value, ThumbWidth);
      if size.width == 0 then Some(IPP.WidthError)
      else if size.height == 0 then Some(IPP.HeightError)
      else if !file.info.value.decodes then Some(IPP.SourceImageError)
      else None
  }

  /**
   * `createThumbnail` throws only for a readable image of a type it loads that has a side of
   * zero, does not decode, or is wider than 480 pixels with its height times 480 at most its
   * width; and it throws whenever, besides the rest, that product is below the width. Where the
   * two are equal the rounding of the ratio decides: `TieImageStopsWalk` and `TieImageIsDrawn`
   * show both outcomes.
   */
  lemma ThumbnailErrorCases(file: AssetFile)
    requires file.info.Some? ==> IPP.InRange(file.info.value)
    ensures ThumbnailError(file).Some? ==>
      && file.info.Some?
      && file.info.value.imageType != IPP.OtherType
      && var w := file.info.value.width; var h := file.info.value.height;
         w == 0 || h == 0 || (w > ThumbWidth && h * ThumbWidth <= w) || !file.info.value.decodes
    ensures
      && file.info.Some?
      && file.info.value.imageType != IPP.OtherType
      && (var w := file.info.value.width; var h := file.info.value.height;
          w == 0 || h == 0 || (w > ThumbWidth && h * ThumbWidth < w) || !file.info.value.decodes)
      ==> ThumbnailError(file).Some?
  {
    if file.info.Some? && file.info.value.width > ThumbWidth {
      var src := file.info.value;
      ScaledHeightBound(src, ThumbWidth);
      var a := src.height * ThumbWidth;
      DivIsZero(a, src.width);
      if a > src.width {
        DivAtLeast(a, src.width, 1);
      }
    }
  }

  // ---------------------------------------------------------------- the walk

  function SlugBaseFn(): AssetFile -> string {
    (f: AssetFile) => SlugBase(f.rel)
  }

  /** `handleImage` past its slug: the item, or what `createThumbnail` throws. */
  function HandleImageItem(file: AssetFile, slug: string): Result<IndexItem, string> {
    match ThumbnailError(file)
    case Some(msg) => Failure(msg)
    case None => Success(MakeItem(file, slug))
  }

  function MakeFn(): (AssetFile, string) -> Result<IndexItem, string> {
    (f: AssetFile, s: string) => HandleImageItem(f, s)
  }

  function IngestedFn(assetsDir: string): AssetFile -> bool {
    (f: AssetFile) => Ingested(assetsDir, f)
  }

  /** The items the walk appends from `counter` on, or the first error, and the counter afterwards. */
  function WalkSpec(assetsDir: string, counter: Counter, files: seq<AssetFile>): (Result<seq<IndexItem>, string>, Counter) {
    Catalogue.Run(counter, files, IngestedFn(assetsDir), SlugBaseFn(), MakeFn())
  }

  /** The script's globals: `$items` and `$slugCounter`. */
  class IndexBuild {
    var items: seq<IndexItem>
    var slugCounter: Counter

    /** `$items = []; $slugCounter = [];` */
    constructor()
      ensures items == [] && slugCounter == map[]
    {
      items := [];
      slugCounter := map[];
    }

    /** `uniqueSlug($base)`: the bare base on first request, then `base-1`, `base-2`, …. */
    method UniqueSlug(base: string) returns (slug: string)
      modifies this
      ensures (slug, slugCounter) == Allocate(old(slugCounter), base)
      ensures items == old(items)
    {
      if base !in slugCounter {
        slugCounter := slugCounter[base := 0];
        return base;
      }
      var n := slugCounter[base] + 1;
      slugCounter := slugCounter[base := n];
      slug := Suffixed(base, n);
    }

    /**
     * `handleImage($fullPath)`: a slug from the global counter, then the thumbnail, then the item
     * appended; a throw from `createThumbnail` has used up the slug but appends nothing.
     */
    method HandleImage(file: AssetFile) returns (r: Result<IndexItem, string>)
      modifies this
      ensures (r, slugCounter, items) == HandleImageSpec(old(slugCounter), old(items), file)
    {
      var slug := UniqueSlug(SlugBase(file.rel));
      var thrown := ThumbnailError(file);
      if thrown.Some? {
        return Failure(thrown.value);
      }
      r := Success(MakeItem(file, slug));
      items := items + [r.value];
    }

    /** `walkDirectory($ASSETS_DIR, ...)` over the files in walk order; `Some(error)` when a `handleImage` threw. */
    method Walk(assetsDir: string, files: seq<AssetFile>) returns (err: Option<string>)
      modifies this
      ensures var run := WalkSpec(assetsDir, old(slugCounter), files);
        && slugCounter == run.1
        && (err.None? <==> run.0.Success?)
        && (run.0.Success? ==> items == old(items) + run.0.value)
        && (run.0.Failure? ==> err == Some(run.0.error))
    {
      var i := 0;
      while i < |files|
        invariant 0 <= i <= |files|
        invariant WalkedSoFar(assetsDir, old(slugCounter), old(items), files, i, slugCounter, items)
      {
        err := Visit(assetsDir, old(slugCounter), old(items), files, i);
        if err.Some? {
          return;
        }
        i := i + 1;
      }
      assert files[..i] == files;
      return None;
    }

    /** The walk callback on the `i`-th file: `handleImage` when the filter lets it through. */
    method Visit(assetsDir: string, ghost counter: Counter, ghost items0: seq<IndexItem>, files: seq<AssetFile>, i: nat)
      returns (err: Option<string>)
      requires i < |files| && WalkedSoFar(assetsDir, counter, items0, files, i, slugCounter, items)
      modifies this
      ensures err.None? ==> WalkedSoFar(assetsDir, counter, items0, files, i + 1, slugCounter, items)
      ensures err.Some? ==> WalkSpec(assetsDir, counter, files) == (Failure(err.value), slugCounter)
    {
      if Ingested(assetsDir, files[i]) {
        WalkVisit(assetsDir, counter, items0, files, i, slugCounter, items);
        var r := HandleImage(files[i]);
        if r.Failure? {
          return Some(r.error);
        }
      } else {
        WalkSkip(assetsDir, counter, files, i);
      }
      return None;
    }
  }

  /** One `handleImage`: the item or error, the counter and the items afterwards. */
  function HandleImageSpec(counter: Counter, items: seq<IndexItem>, file: AssetFile)
    : (Result<IndexItem, string>, Counter, seq<IndexItem>)
  {
    var step := Allocate(counter, SlugBase(file.rel));
    var r := HandleImageItem(file, step.0);
    (r, step.1, if r.Success? then items + [r.value] else items)
  }

  /** The state after walking the first `i` files without a throw. */
  ghost predicate WalkedSoFar(assetsDir: string, counter: Counter, items0: seq<IndexItem>, files: seq<AssetFile>, i: nat,
                              slugCounter: Counter, items: seq<IndexItem>)
    requires i <= |files|
  {
    var run := WalkSpec(assetsDir, counter, files[..i]);
    run.0.Success? && slugCounter == run.1 && items == items0 + run.0.value
  }

  /** A file the filter rejects changes nothing. */
  lemma WalkSkip(assetsDir: string, counter: Counter, files: seq<AssetFile>, i: nat)
    requires i < |files| && !Ingested(assetsDir, files[i])
    ensures WalkSpec(assetsDir, counter, files[..i + 1]) == WalkSpec(assetsDir, counter, files[..i])
  {
    Catalogue.RunPrefixSnoc(counter, files, i, IngestedFn(assetsDir), SlugBaseFn(), MakeFn());
  }

  /**
   * An ingested file, reached without a throw, takes the next slug for its base and appends its
   * item, or throws and ends the walk with its error and the counter as it left it.
   */
  lemma WalkVisit(assetsDir: string, counter: Counter, items0: seq<IndexItem>, files: seq<AssetFile>, i: nat,
                  slugCounter: Counter, items: seq<IndexItem>)
    requires i < |files| && Ingested(assetsDir, files[i])
    requires WalkedSoFar(assetsDir, counter, items0, files, i, slugCounter, items)
    ensures var h := HandleImageSpec(slugCounter, items, files[i]);
      && (h.0.Success? ==> WalkedSoFar(assetsDir, counter, items0, files, i + 1, h.1, h.2))
      && (h.0.Failure? ==> WalkSpec(assetsDir, counter, files) == (Failure(h.0.error), h.1))
  {
    Catalogue.RunVisitState(counter, files, i, IngestedFn(assetsDir), SlugBaseFn(), MakeFn(), items0, slugCounter, items);
    var step := Allocate(slugCounter, SlugBase(files[i].rel));
    assert MakeFn()(files[i], step.0) == HandleImageItem(files[i], step.0);
  }

  predicate Drawable(f: AssetFile) { ThumbnailError(f).None? }

  /**
   * The walk stops early exactly when `createThumbnail` throws for some ingested file: a
   * readable image of a type GD loads that is too thin for a thumbnail side or does not decode.
   */
  lemma WalkFailsIff(assetsDir: string, counter: Counter, files: seq<AssetFile>)
    ensures var acc := Catalogue.Accepted(files, IngestedFn(assetsDir));
      WalkSpec(assetsDir, counter, files).0.Failure? <==> exists j :: 0 <= j < |acc| && ThumbnailError(acc[j]).Some?
  {
    assert forall f, slug :: MakeFn()(f, slug).Success? <==> Drawable(f);
    Catalogue.RunFailsIff(counter, files, IngestedFn(assetsDir), SlugBaseFn(), MakeFn(), Drawable);
  }

  /** A 1000 by 2 JPEG that decodes stops the whole build: its thumbnail would be 480 by 0 pixels. */
  lemma ThinImageStopsWalk(assetsDir: string, file: AssetFile)
    requires Ingested(assetsDir, file) && file.info == Some(IPP.ImageInfo(1000, 2, IPP.Jpeg, true))
    ensures WalkSpec(assetsDir, map[], [file]).0 == Failure(IPP.HeightError)
  {
    ScaledHeightBound(file.info.value, ThumbWidth);
    assert ThumbnailError(file) == Some(IPP.HeightError);
    OneFileWalk(assetsDir, file);
  }

  /**
   * A 23520 by 49 JPEG that decodes stops the whole build too, although 49 × 480 is exactly
   * 23520: the ratio 480 / 23520 rounds below 1/49 and the height truncates to 0.
   */
  lemma TieImageStopsWalk(assetsDir: string, file: AssetFile)
    requires Ingested(assetsDir, file) && file.info == Some(IPP.ImageInfo(23520, 49, IPP.Jpeg, true))
    ensures ThumbnailSize(file.info.value, ThumbWidth).height == 0
    ensures WalkSpec(assetsDir, map[], [file]).0 == Failure(IPP.HeightError)
  {
    IPP.TieRatio();
    assert ThumbnailError(file) == Some(IPP.HeightError);
    OneFileWalk(assetsDir, file);
  }

  /** A 960 by 2 JPEG, in the same exact proportion, gets a 480 by 1 thumbnail: here the ratio is exact. */
  lemma TieImageIsDrawn(file: AssetFile)
    requires file.info == Some(IPP.ImageInfo(960, 2, IPP.Jpeg, true))
    ensures ThumbnailSize(file.info.value, ThumbWidth) == IPP.ImageInfo(480, 1, IPP.Jpeg, true)
    ensures ThumbnailError(file) == None
  {
    IPP.HalfRatio();
  }

  /** An image `getimagesize` cannot read still yields an item, without a size. */
  lemma UnreadableImageIsListed(assetsDir: string, file: AssetFile)
    requires Ingested(assetsDir, file) && file.info.None?
    ensures WalkSpec(assetsDir, map[], [file]).0 == Success([MakeItem(file, SlugBase(file.rel))])
    ensures MakeItem(file, SlugBase(file.rel)).width.None?
  {
    assert ThumbnailError(file).None?;
    OneFileWalk(assetsDir, file);
  }

  /** A walk over one ingested file is `handleImage` on it with the bare slug base. */
  lemma OneFileWalk(assetsDir: string, file: AssetFile)
    requires Ingested(assetsDir, file)
    ensures var r := WalkSpec(assetsDir, map[], [file]).0;
      && (ThumbnailError(file).Some? ==> r == Failure(ThumbnailError(file).value))
      && (ThumbnailError(file).None? ==> r == Success([MakeItem(file, SlugBase(file.rel))]))
  {
    assert IngestedFn(assetsDir)(file);
    Catalogue.RunOne(map[], file, IngestedFn(assetsDir), SlugBaseFn(), MakeFn());
    var slug := SlugBase(file.rel);
    assert SlugBaseFn()(file) == slug;
    assert Allocate(map[], slug).0 == slug;
    assert MakeFn()(file, slug) == HandleImageItem(file, slug);
  }

  /** A completed walk appended one item per ingested file, in walk order, each with the slug handed out for it. */
  lemma WalkItems(assetsDir: string, counter: Counter, files: seq<AssetFile>)
    requires WalkSpec(assetsDir, counter, files).0.Success?
    ensures var r := WalkSpec(assetsDir, counter, files).0;
      var acc := Catalogue.Accepted(files, IngestedFn(assetsDir));
      var slugs := AllocateAll(counter, Catalogue.Bases(acc, SlugBaseFn())).0;
      && |r.value| == |acc|
      && forall j :: 0 <= j < |acc| ==> r.value[j] == MakeItem(acc[j], slugs[j])
  {
    Catalogue.RunItems(counter, files, IngestedFn(assetsDir), SlugBaseFn(), MakeFn());
  }

  /** Two ingested files of a completed walk with the same slug base get different slugs. */
  lemma WalkSlugsDistinct(assetsDir: string, counter: Counter, files: seq<AssetFile>, i: nat, j: nat)
    requires WalkSpec(assetsDir, counter, files).0.Success?
    requires var acc := Catalogue.Accepted(files, IngestedFn(assetsDir));
      i < j < |acc| && SlugBase(acc[i].rel) == SlugBase(acc[j].rel)
    ensures var r := WalkSpec(assetsDir, counter, files).0;
      |r.value| == |Catalogue.Accepted(files, IngestedFn(assetsDir))| && r.value[i].slug != r.value[j].slug
  {
    WalkItems(assetsDir, counter, files);
    var acc := Catalogue.Accepted(files, IngestedFn(assetsDir));
    SameBaseDistinct(counter, Catalogue.Bases(acc, SlugBaseFn()), i, j);
  }

  // ---------------------------------------------------------------- the base URL

  /** `getenv('GITHUB_REPOSITORY') ?: 'owner/repo'`: unset, `""` and `"0"` all fall back. */
  function Repository(env: Option<string>): string {
    if env.Some? && Truthy(env.value) then env.value else "owner/repo"
  }

  /**
   * `list($owner, $repoName) = explode('/', $repo, 2)`: the owner up to the first `/` and the
   * repository after it, further slashes included; without a `/` the repository is `null`,
   * which interpolates as "".
   */
  function BaseUrlOf(repository: string): string {
    var k := IndexOfChar(repository, '/');
    var owner := if k < 0 then repository else repository[..k];
    var repoName := if k < 0 then "" else repository[k + 1..];
    "https://" + owner + ".github.io/" + repoName + "/"
  }

  /** `getBaseUrl()`. */
  function GetBaseUrl(env: Option<string>): string {
    BaseUrlOf(Repository(env))
  }

  /** `owner/rest` gives `https://owner.github.io/rest/`, whatever slashes `rest` holds. */
  lemma GetBaseUrlOf(owner: string, rest: string)
    requires '/' !in owner
    ensures GetBaseUrl(Some(owner + "/" + rest)) == "https://" + owner + ".github.io/" + rest + "/"
  {
    var s := owner + "/" + rest;
    assert s[|owner|] == '/';
    assert Repository(Some(s)) == s;
    IndexOfCharAt(owner, '/', rest);
    assert s[..|owner|] == owner && s[|owner| + 1..] == rest;
  }

  /** Unset, empty or `"0"`, the variable gives the default `https://owner.github.io/repo/`. */
  lemma GetBaseUrlDefault(env: Option<string>)
    requires env.None? || env == Some("") || env == Some("0")
    ensures GetBaseUrl(env) == "https://" + "owner" + ".github.io/" + "repo" + "/"
  {
    var r := Repository(env);
    assert r == "owner" + "/" + "repo";
    GetBaseUrlOf("owner", "repo");
  }

  /** A value without `/` gives an empty repository segment: `https://owner.github.io//`. */
  lemma GetBaseUrlNoSlash(s: string)
    requires Truthy(s) && '/' !in s
    ensures GetBaseUrl(Some(s)) == "https://" + s + ".github.io/" + "/"
  {
  }

  /**
   * Where the two copies disagree on a set variable: with three segments the PHP copy keeps
   * `repo/extra` where the JavaScript one keeps `repo`.
   */
  lemma BaseUrlsDiffer(owner: string, repo: string, extra: string)
    requires '/' !in owner && '/' !in repo && '/' !in extra
    ensures GetBaseUrl(Some(owner + "/" + (repo + "/" + extra))) == "https://" + owner + ".github.io/" + (repo + "/" + extra) + "/"
    ensures SitemapJs.GetBaseUrl(Some(owner + "/" + (repo + "/" + extra))) == "https://" + owner + ".github.io/" + repo + "/"
  {
    GetBaseUrlOf(owner, repo + "/" + extra);
    assert Join([repo] + [extra], "/") == repo + "/" + extra by {
      assert ([repo] + [extra])[1..] == [extra];
    }
    SitemapJs.GetBaseUrlOf(owner, repo, [extra]);
  }

  // ---------------------------------------------------------------- routes and sitemap

  /** The route list before `array_unique`: root, `index.html`, then file and detail URL per item. */
  function RouteList(baseUrl: string, pages: seq<SitemapJs.Page>): seq<string> {
    SitemapJs.StartRoutes(baseUrl) + SitemapJs.ItemUrls(baseUrl, pages)
  }

  /** The route loop of the main block. */
  method CollectRoutes(baseUrl: string, pages: seq<SitemapJs.Page>) returns (routes: seq<string>)
    ensures routes == RouteList(baseUrl, pages)
  {
    routes := [baseUrl, baseUrl + "index.html"];
    var i := 0;
    while i < |pages|
      invariant 0 <= i <= |pages|
      invariant routes == RouteList(baseUrl, pages[..i])
    {
      assert pages[..i + 1][..i] == pages[..i];
      routes := routes + [SitemapJs.FileUrl(baseUrl, pages[i])];
      routes := routes + [SitemapJs.DetailUrl(baseUrl, pages[i])];
      i := i + 1;
    }
    assert pages[..i] == pages;
  }

  /**
   * `array_unique($routes)`, iterated in key order, keeps the first occurrences in order: the
   * same routes, in the same order, as the JavaScript copy's set.
   */
  lemma RoutesAsJavaScript(baseUrl: string, pages: seq<SitemapJs.Page>)
    ensures Dedup(RouteList(baseUrl, pages)) == SitemapJs.Routes(baseUrl, pages)
  {
    var s := SitemapJs.StartRoutes(baseUrl);
    assert Distinct(s) by {
      assert |s[1]| > |s[0]|;
    }
    DedupAfterDistinct(s, SitemapJs.ItemUrls(baseUrl, pages));
  }

  /** One sitemap line: the route escaped with `htmlspecialchars`'s default flags. */
  function LocLine(u: string): string {
    SitemapJs.UrlEntry(HtmlSpecialChars(u, BothQuotes))
  }

  function LocLines(routes: seq<string>): (lines: seq<string>)
    ensures |lines| == |routes|
    ensures forall i :: 0 <= i < |routes| ==> lines[i] == LocLine(routes[i])
  {
    seq(|routes|, i requires 0 <= i < |routes| => LocLine(routes[i]))
  }

  /** The document `buildSitemapXML` returns: every line ends in a newline except `</urlset>`. */
  function SitemapXml(routes: seq<string>): string {
    SitemapJs.XmlDeclaration + "\n" + SitemapJs.UrlsetOpen + "\n" + JoinTerminated(LocLines(routes), "\n")
      + SitemapJs.UrlsetClose
  }

  /** `buildSitemapXML($baseUrl, $routes)`: the `$urlset` loop and the document around it. */
  method BuildSitemapXml(routes: seq<string>) returns (xml: string)
    ensures xml == SitemapXml(routes)
  {
    var urlset := "";
    var i := 0;
    while i < |routes|
      invariant 0 <= i <= |routes|
      invariant urlset == JoinTerminated(LocLines(routes[..i]), "\n")
    {
      var line := "  <url><loc>" + HtmlSpecialChars(routes[i], BothQuotes) + "</loc></url>";
      assert LocLines(routes[..i + 1]) == LocLines(routes[..i]) + [line] by {
        assert line == LocLine(routes[i]);
      }
      JoinTerminatedSnoc(LocLines(routes[..i]), line, "\n");
      urlset := urlset + line + "\n";
      i := i + 1;
    }
    assert routes[..i] == routes;
    xml := SitemapJs.XmlDeclaration + "\n" + SitemapJs.UrlsetOpen + "\n" + urlset + SitemapJs.UrlsetClose;
  }

  function EscapeAll(routes: seq<string>): (r: seq<string>)
    ensures |r| == |routes|
    ensures forall i :: 0 <= i < |routes| ==> r[i] == HtmlSpecialChars(routes[i], BothQuotes)
  {
    seq(|routes|, i requires 0 <= i < |routes| => HtmlSpecialChars(routes[i], BothQuotes))
  }

  /**
   * For any non-empty route list the PHP document is the JavaScript generator's document of the
   * escaped routes: the same lines, the `loc`s escaped.
   */
  lemma SitemapIsEscapedJavaScript(routes: seq<string>)
    requires |routes| >= 1
    ensures SitemapXml(routes) == SitemapJs.GenerateSitemapXml(EscapeAll(routes))
  {
    assert LocLines(routes) == SitemapJs.UrlEntries(EscapeAll(routes));
    JoinTerminatedIsJoin(LocLines(routes), "\n");
  }

  /**
   * Read line by line, the document is the declaration, the `<urlset>` tag, one `<url>` per
   * route in order with its `loc` escaped, and the closing tag; decoding a `loc` gives back
   * the route.
   */
  lemma SitemapLines(routes: seq<string>)
    requires |routes| >= 1
    requires forall i :: 0 <= i < |routes| ==> '\n' !in routes[i]
    ensures Split(SitemapXml(routes), '\n') ==
      [SitemapJs.XmlDeclaration, SitemapJs.UrlsetOpen] + LocLines(routes) + [SitemapJs.UrlsetClose]
    ensures forall i :: 0 <= i < |routes| ==> SpecialCharsDecode(HtmlSpecialChars(routes[i], BothQuotes)) == routes[i]
  {
    var escaped := EscapeAll(routes);
    forall i | 0 <= i < |escaped| ensures '\n' !in escaped[i] {
      EscapeKeepsOut(routes[i], BothQuotes, '\n');
    }
    SitemapJs.SitemapLines(escaped);
    SitemapIsEscapedJavaScript(routes);
    assert LocLines(routes) == SitemapJs.UrlEntries(escaped);
    forall i | 0 <= i < |routes| ensures SpecialCharsDecode(HtmlSpecialChars(routes[i], BothQuotes)) == routes[i] {
      DecodeEscape(routes[i], BothQuotes);
    }
  }

  // ---------------------------------------------------------------- the script

  /**
   * The whole script over the walked files and the value of `GITHUB_REPOSITORY`: the walk from
   * an empty counter, then the route list from the items, de-duplicated, and its sitemap.
   */
  method BuildIndex(assetsDir: string, files: seq<AssetFile>, env: Option<string>) returns (r: Result<BuildIndexJs.Output, string>)
    ensures var run := WalkSpec(assetsDir, map[], files);
      && (r.Success? <==> run.0.Success?)
      && (r.Failure? ==> r.error == run.0.error)
      && (r.Success? ==>
            && r.value.items == run.0.value
            && r.value.sitemap == SitemapXml(Dedup(RouteList(GetBaseUrl(env), BuildIndexJs.Pages(run.0.value)))))
  {
    var build := new IndexBuild();
    var err := build.Walk(assetsDir, files);
    if err.Some? {
      return Failure(err.value);
    }
    var baseUrl := GetBaseUrl(env);
    var routes := CollectRoutes(baseUrl, BuildIndexJs.Pages(build.items));
    var xml := BuildSitemapXml(Dedup(routes));
    r := Success(BuildIndexJs.Output(build.items, xml));
  }
}
