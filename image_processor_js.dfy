/**
 * scripts/image-processor.mjs: the catalogue item of one image (`processImage`),
 * the `.meta.json` sidecar next to it (`loadMetadata`) and the walk over the
 * assets directory (`processImages`). The title, folder-tag and thumbnail
 * derivations are also those of `handleImage` in scripts/build-index.mjs,
 * which reuses them from here.
 *
 * Files are named by their path relative to the assets directory, with `/`
 * separators, as `path.relative(ASSETS_DIR, fullPath)` gives it. What the
 * image decoder and `fs.stat` report is an input (`ImageFacts`); a file they
 * cannot read makes `processImage` throw.
 *
 * As written the file declares `loadMetadata` twice at its top level, so it is
 * an ES module that never loads (`LoadModule`, `ModuleDoesNotLoad`). The
 * functions below model the file with a single `loadMetadata`, the two copies
 * being identical.
 */
module ImageProcessorJs {
  import opened Wrappers
  import opened Text
  import opened Paths
  import opened Slugs
  import opened SlugAllocation
  import Catalogue

  const ThumbnailWidth: nat := 480
  const DefaultLicense: string := "CC0-1.0"
  /** `VALID_EXTENSIONS` of scripts/config.mjs. */
  const ValidExtensions: seq<string> := [".jpg", ".jpeg", ".png", ".webp"]

  /** The sidecar fields `processImage` reads; `None` is an absent or `null` field. */
  datatype Meta = Meta(title: Option<string>, category: Option<string>, tags: Option<seq<string>>,
                       description: Option<string>, license: Option<string>, author: Option<string>,
                       keywords: Option<seq<string>>)

  /** `{}`: what `loadMetadata` returns when the sidecar is missing or is not valid JSON. */
  const NoMeta: Meta := Meta(None, None, None, None, None, None, None)

  /** What the decoder and `fs.stat` report about an image. */
  datatype ImageFacts = ImageFacts(width: Option<nat>, height: Option<nat>, bytes: nat)

  /** A file found by the walk, with what reading it yields (`None`: the decoder rejects it). */
  datatype ImageFile = ImageFile(rel: string, facts: Option<ImageFacts>)

  /** The catalogue item `processImage` resolves to. */
  datatype Item = Item(id: string, slug: string, title: string, description: string, category: string,
                       tags: seq<string>, width: Option<nat>, height: Option<nat>, bytes: nat,
                       file: string, thumb: string, license: string, author: Option<string>,
                       keywords: seq<string>)

  /** JavaScript `value || fallback` for a string field: the empty string counts as absent. */
  function Or(value: Option<string>, fallback: string): (r: string)
    ensures r == fallback || (value == Some(r) && r != "")
  {
    if value.Some? && value.value != "" then value.value else fallback
  }

  // ---------------------------------------------------------------- loading the module

  /**
   * The names the file binds at its top level, in order: its imports (lines 2-6) and its
   * function declarations (lines 11, 24, 37 and 99).
   */
  const TopLevelNames: seq<string> :=
    ["fs", "path", "sharp", "ASSETS_DIR", "THUMBS_DIR", "THUMBNAIL_WIDTH", "THUMBNAIL_QUALITY",
     "DEFAULT_LICENSE", "toSlug", "ensureDir", "formatSize", "loadMetadata", "loadMetadata",
     "processImage", "processImages"]

  /** The same file with its second `loadMetadata` (lines 21-32) removed. */
  const CorrectedTopLevelNames: seq<string> := TopLevelNames[..12] + TopLevelNames[13..]

  /** The first name of `names` that is bound again later on, if any. */
  function Redeclared(names: seq<string>): (r: Option<string>)
    ensures r.None? <==> forall i, j :: 0 <= i < j < |names| ==> names[i] != names[j]
    ensures r.Some? ==> exists i, j :: 0 <= i < j < |names| && names[i] == r.value && names[j] == r.value
  {
    if |names| == 0 then None
    else if names[0] in names[1..] then
      var j :| 0 <= j < |names[1..]| && names[1..][j] == names[0];
      assert names[j + 1] == names[0];
      Some(names[0])
    else
      var r := Redeclared(names[1..]);
      assert forall j :: 1 <= j < |names| ==> names[j] == names[1..][j - 1];
      r
  }

  /** Node's early error for a name bound twice at the top level of an ES module. */
  function RedeclarationError(name: string): string {
    "SyntaxError: Identifier '" + name + "' has already been declared"
  }

  /**
   * Loading an ES module whose top level binds `names`: a name bound twice is an early
   * SyntaxError, raised before any of the module's code, or that of a module importing it, runs.
   */
  function LoadModule(names: seq<string>): (r: Result<(), string>)
    ensures r.Success? <==> forall i, j :: 0 <= i < j < |names| ==> names[i] != names[j]
    ensures r.Failure? ==> exists n :: n in names && r.error == RedeclarationError(n)
  {
    match Redeclared(names)
    case Some(n) => Failure(RedeclarationError(n))
    case None => Success(())
  }

  /** The first eleven names are bound once each. */
  lemma BoundOnce(k: nat)
    requires k < 11
    ensures TopLevelNames[k] !in TopLevelNames[k + 1..]
  {
  }

  /** As written, the file fails to load, naming `loadMetadata`. */
  lemma ModuleDoesNotLoad()
    ensures LoadModule(TopLevelNames) == Failure(RedeclarationError("loadMetadata"))
  {
    var names := TopLevelNames;
    for k := 0 to 11
      invariant Redeclared(names) == Redeclared(names[k..])
    {
      BoundOnce(k);
      assert names[k..][1..] == names[k + 1..];
    }
    assert names[11] in names[12..];
  }

  /** Each name of the corrected file is bound once. */
  lemma CorrectedBoundOnce(k: nat)
    requires k < |CorrectedTopLevelNames|
    ensures CorrectedTopLevelNames[k] !in CorrectedTopLevelNames[k + 1..]
  {
  }

  /** Without the second `loadMetadata` every top-level name is bound once, and the file loads. */
  lemma CorrectedModuleLoads()
    ensures LoadModule(CorrectedTopLevelNames) == Success(())
  {
    var names := CorrectedTopLevelNames;
    forall i, j | 0 <= i < j < |names|
      ensures names[i] != names[j]
    {
      CorrectedBoundOnce(i);
      assert names[j] == names[i + 1..][j - i - 1];
    }
  }

  // ---------------------------------------------------------------- the sidecar

  /** The extensions `/\.(jpe?g|png|gif|webp)$/i` recognises, lower-cased. */
  const SidecarExtensions: seq<string> := ["jpg", "jpeg", "png", "gif", "webp"]

  /** The image path with a recognised extension (any letter case) replaced by `.meta.json`. */
  function SidecarPath(p: string): (r: string)
    ensures r == p || EndsWith(r, ".meta.json")
  {
    if |p| >= 5 && p[|p| - 5] == '.' && Lower(p[|p| - 4..]) in ["jpeg", "webp"] then p[..|p| - 5] + ".meta.json"
    else if |p| >= 4 && p[|p| - 4] == '.' && Lower(p[|p| - 3..]) in ["jpg", "png", "gif"] then p[..|p| - 4] + ".meta.json"
    else p
  }

  /** `stem.ext` with a recognised extension has its sidecar at `stem.meta.json`. */
  lemma SidecarPathOf(stem: string, ext: string)
    requires Lower(ext) in SidecarExtensions
    ensures SidecarPath(stem + "." + ext) == stem + ".meta.json"
  {
    var p := stem + "." + ext;
    assert p[|p| - |ext|..] == ext;
    assert p[..|p| - |ext| - 1] == stem;
    assert p[|p| - |ext| - 1] == '.';
    if |ext| == 3 {
      assert Lower(ext) != "jpeg" && Lower(ext) != "webp";
      if |p| >= 5 && p[|p| - 5] == '.' {
        assert Lower(p[|p| - 4..])[0] == '.';
      }
    }
  }

  /**
   * `loadMetadata(imagePath)`: the parsed sidecar, or `{}` when it is missing or malformed.
   * `sidecars` maps the paths of the sidecars that exist and parse to their contents.
   */
  function LoadMetadata(sidecars: map<string, Meta>, rel: string): (m: Meta)
    ensures SidecarPath(rel) !in sidecars ==> m == NoMeta
  {
    var p := SidecarPath(rel);
    if p in sidecars then sidecars[p] else NoMeta
  }

  // ---------------------------------------------------------------- derivations

  predicate IsDashOrUnderscore(c: char) { c == '-' || c == '_' }

  predicate IsSpace(c: char) { c == ' ' }

  /** `base.replace(/[-_]+/g, " ").trim()`. */
  function TitleFromBase(base: string): (t: string)
    ensures forall i :: 0 <= i < |t| ==> !IsDashOrUnderscore(t[i])
    ensures t == [] || (!IsJsWhitespace(t[0]) && !IsJsWhitespace(t[|t| - 1]))
  {
    var c := CollapseRuns(base, IsDashOrUnderscore, ' ');
    var t := TrimJs(c);
    TrimSubstring(c, IsJsWhitespace);
    t
  }

  /** The trimmed string is a piece of the original. */
  lemma {:induction false} TrimSubstring(s: string, P: char -> bool)
    ensures forall i :: 0 <= i < |TrimWhere(s, P)| ==> TrimWhere(s, P)[i] in s
    decreases |s|
  {
    if |s| > 0 && P(s[0]) {
      TrimSubstring(s[1..], P);
    } else if |s| > 0 && P(s[|s| - 1]) {
      TrimSubstring(s[..|s| - 1], P);
    }
  }

  /** A base without dashes, underscores or surrounding blanks is its own title. */
  lemma TitleOfPlainBase(base: string)
    requires forall i :: 0 <= i < |base| ==> !IsDashOrUnderscore(base[i])
    requires base == [] || (!IsJsWhitespace(base[0]) && !IsJsWhitespace(base[|base| - 1]))
    ensures TitleFromBase(base) == base
  {
    assert CollapseRuns(base, IsDashOrUnderscore, ' ') == base by {
      CollapseRunsFixpoint(base, IsDashOrUnderscore, ' ');
    }
  }

  /** `relFromAssets.split("/")`. */
  function Parts(rel: string): (parts: seq<string>)
    ensures |parts| >= 1
  {
    Split(rel, '/')
  }

  function NonEmpty(s: string): bool { s != "" }

  /** `Array.from(new Set(parts.slice(0, -1).filter(Boolean)))`: the folders above the file, once each. */
  function FolderTags(rel: string): (tags: seq<string>)
    ensures Distinct(tags)
    ensures forall t :: t in tags <==> t != "" && t in Parts(rel)[..|Parts(rel)| - 1]
  {
    var parts := Parts(rel);
    Dedup(Filter(parts[..|parts| - 1], NonEmpty))
  }

  /** `metadata.category || parts[0] || "misc"`. */
  function Category(meta: Meta, rel: string): (c: string)
    ensures c != ""
    ensures meta.category.Some? && meta.category.value != "" ==> c == meta.category.value
  {
    Or(meta.category, if Parts(rel)[0] != "" then Parts(rel)[0] else "misc")
  }

  /** `toSlug(`${category}-${base}`)`: the base the slug generator is asked for. */
  function SlugBase(meta: Meta, rel: string): (b: string)
    ensures IsSlug(b)
  {
    ToSlugIsSlug(Category(meta, rel) + "-" + NodeName(rel));
    ToSlug(Category(meta, rel) + "-" + NodeName(rel))
  }

  /**
   * `assets/${path.join("_thumbs", path.dirname(rel))}/${base}-480.jpg`, for a normalised
   * relative path (`path.join` drops the `.` of a top-level file).
   */
  function ThumbPath(rel: string): (t: string)
    ensures StartsWith(t, "assets/_thumbs/")
    ensures EndsWith(t, NodeName(rel) + "-480.jpg")
  {
    var dir := Dirname(rel);
    var sub := if dir == "." then "" else dir + "/";
    var t := "assets/_thumbs/" + (sub + (NodeName(rel) + "-480.jpg"));
    AppendAffixes("assets/_thumbs/", sub + (NodeName(rel) + "-480.jpg"));
    AppendAffixes(sub, NodeName(rel) + "-480.jpg");
    EndsWithAppend("assets/_thumbs/", sub + (NodeName(rel) + "-480.jpg"), NodeName(rel) + "-480.jpg");
    t
  }

  lemma EndsWithAppend(a: string, b: string, c: string)
    requires EndsWith(b, c)
    ensures EndsWith(a + b, c)
  {
    assert (a + b)[|a + b| - |c|..] == b[|b| - |c|..];
  }

  /** A file in a folder has its thumbnail under the same folder of `_thumbs`; a top-level file directly in `_thumbs`. */
  lemma ThumbPathLayout(dir: string, name: string)
    requires '/' !in name && dir != "" && dir != "/" && dir != "."
    ensures ThumbPath(dir + "/" + name) == "assets/_thumbs/" + dir + "/" + NodeName(name) + "-480.jpg"
    ensures ThumbPath(name) == "assets/_thumbs/" + NodeName(name) + "-480.jpg"
  {
    ThumbPathInFolder(dir, name);
    ThumbPathTopLevel(name);
  }

  lemma ThumbPathInFolder(dir: string, name: string)
    requires '/' !in name && dir != "" && dir != "."
    ensures ThumbPath(dir + "/" + name) == "assets/_thumbs/" + dir + "/" + NodeName(name) + "-480.jpg"
  {
    DirnameOfSegment(dir, name);
    NodeNameOfSegment(dir, name);
    ThumbPathFromParts(dir + "/" + name, dir, NodeName(name));
  }

  lemma ThumbPathFromParts(p: string, dir: string, n: string)
    requires Dirname(p) == dir && dir != "." && NodeName(p) == n
    ensures ThumbPath(p) == "assets/_thumbs/" + dir + "/" + n + "-480.jpg"
  {
    assert ThumbPath(p) == "assets/_thumbs/" + ((dir + "/") + (n + "-480.jpg"));
    Regroup("assets/_thumbs/", dir, "/", n, "-480.jpg");
  }

  lemma ThumbPathTopLevel(name: string)
    requires '/' !in name
    ensures ThumbPath(name) == "assets/_thumbs/" + NodeName(name) + "-480.jpg"
  {
    assert Dirname(name) == "." by {
      assert LastIndexOfChar(name, '/') == -1;
    }
    var tail := NodeName(name) + "-480.jpg";
    assert ThumbPath(name) == "assets/_thumbs/" + ("" + tail);
    assert "" + tail == tail;
    Regroup2("assets/_thumbs/", NodeName(name), "-480.jpg");
  }

  lemma Regroup(a: string, b: string, c: string, d: string, e: string)
    ensures a + ((b + c) + (d + e)) == a + b + c + d + e
  {
  }

  lemma Regroup2(a: string, b: string, c: string)
    ensures a + (b + c) == a + b + c
  {
  }

  /** `Array.from(new Set([...folderTags, ...metaTags]))`: the folder tags first, then the sidecar's new ones. */
  function Tags(rel: string, meta: Meta): (tags: seq<string>)
    ensures Distinct(tags)
    ensures forall t :: t in tags <==> t in FolderTags(rel) || t in meta.tags.GetOr([])
    ensures |FolderTags(rel)| <= |tags| && tags[..|FolderTags(rel)|] == FolderTags(rel)
  {
    DedupAppendPrefix(FolderTags(rel), meta.tags.GetOr([]));
    AddAllDistinct([], FolderTags(rel));
    Dedup(FolderTags(rel) + meta.tags.GetOr([]))
  }

  /** `metadata.title || <title from the base name>`. */
  function Title(rel: string, meta: Meta): string {
    Or(meta.title, TitleFromBase(NodeName(rel)))
  }

  /** The item for `rel` with its sidecar `meta`, its image facts and the slug it was given. */
  function DeriveItem(rel: string, meta: Meta, facts: ImageFacts, slug: string): Item {
    var title := Title(rel, meta);
    var category := Category(meta, rel);
    Item(NodeName(rel), slug, title, Or(meta.description, title + " - " + category + "素材画像"), category,
         Tags(rel, meta), facts.width, facts.height, facts.bytes,
         "assets/" + rel, ThumbPath(rel), Or(meta.license, DefaultLicense),
         if meta.author.Some? && meta.author.value != "" then meta.author else None, meta.keywords.GetOr([]))
  }

  /**
   * What an item records: the slug it was given, the bare file name as id, `assets/<rel>`
   * as file, a non-empty category, the distinct union of folder and sidecar tags, a title
   * without dashes or underscores unless the sidecar gives one, the generated description
   * and the CC0 licence unless the sidecar gives its own.
   */
  lemma DeriveItemFields(rel: string, meta: Meta, facts: ImageFacts, slug: string)
    ensures var it := DeriveItem(rel, meta, facts, slug);
      && it.slug == slug && it.id == NodeName(rel) && it.file == "assets/" + rel
      && it.category != ""
      && Distinct(it.tags)
      && (forall t :: t in it.tags <==> t in FolderTags(rel) || t in meta.tags.GetOr([]))
      && (Or(meta.title, "") == "" ==> forall i :: 0 <= i < |it.title| ==> !IsDashOrUnderscore(it.title[i]))
      && (Or(meta.description, "") == "" ==> it.description == it.title + " - " + it.category + "素材画像")
      && (Or(meta.license, "") == "" ==> it.license == DefaultLicense)
      && (it.width, it.height, it.bytes) == (facts.width, facts.height, facts.bytes)
  {
  }

  // ---------------------------------------------------------------- one image, and the walk

  /** The item `processImage` resolves to for `file` with the given slug, or the error it rejects with. */
  function MakeItem(sidecars: map<string, Meta>, file: ImageFile, slug: string): (r: Result<Item, string>)
    ensures r.Success? <==> file.facts.Some?
    ensures r.Success? ==> r.value == DeriveItem(file.rel, LoadMetadata(sidecars, file.rel), file.facts.value, slug)
  {
    if file.facts.None? then Failure("Input file contains unsupported image format")
    else Success(DeriveItem(file.rel, LoadMetadata(sidecars, file.rel), file.facts.value, slug))
  }

  /** The walk's filter: the lower-cased `path.extname` of the name is a valid extension. `_thumbs` is not excluded. */
  predicate HasValidExtension(file: ImageFile) {
    Lower(NodeExtname(file.rel)) in ValidExtensions
  }

  function SlugBaseOf(sidecars: map<string, Meta>, file: ImageFile): string {
    SlugBase(LoadMetadata(sidecars, file.rel), file.rel)
  }

  /** The slug base of each file, as a function value for the catalogue loop. */
  function BaseFn(sidecars: map<string, Meta>): ImageFile -> string {
    f => SlugBaseOf(sidecars, f)
  }

  /** The item of each file with its slug, as a function value for the catalogue loop. */
  function MakeFn(sidecars: map<string, Meta>): (ImageFile, string) -> Result<Item, string> {
    (f, s) => MakeItem(sidecars, f, s)
  }

  /** What `processImages` resolves to, and the generator's counter afterwards. */
  function ProcessImagesSpec(counter: Counter, files: seq<ImageFile>, sidecars: map<string, Meta>)
    : (Result<seq<Item>, string>, Counter)
  {
    Catalogue.Run(counter, files, HasValidExtension, BaseFn(sidecars), MakeFn(sidecars))
  }

  /** `processImage(fullPath, slugGenerator)`: reads the sidecar, takes the next slug, builds the item. */
  method ProcessImage(file: ImageFile, sidecars: map<string, Meta>, gen: SlugGenerator) returns (r: Result<Item, string>)
    modifies gen
    ensures (r, gen.counter) ==
      var step := Allocate(old(gen.counter), SlugBaseOf(sidecars, file));
      (MakeItem(sidecars, file, step.0), step.1)
  {
    var metadata := LoadMetadata(sidecars, file.rel);
    var slugBase := SlugBase(metadata, file.rel);
    var slug := gen.Generate(slugBase);
    if file.facts.None? {
      return Failure("Input file contains unsupported image format");
    }
    r := Success(DeriveItem(file.rel, metadata, file.facts.value, slug));
  }

  /** `processImages`: every walked file with a valid extension is processed and pushed, in walk order. */
  method ProcessImages(files: seq<ImageFile>, sidecars: map<string, Meta>, gen: SlugGenerator)
    returns (r: Result<seq<Item>, string>)
    modifies gen
    ensures (r, gen.counter) == ProcessImagesSpec(old(gen.counter), files, sidecars)
  {
    var items: seq<Item> := [];
    var i := 0;
    while i < |files|
      invariant 0 <= i <= |files|
      invariant (Success(items), gen.counter) == ProcessImagesSpec(old(gen.counter), files[..i], sidecars)
    {
      var file := files[i];
      if !HasValidExtension(file) {
        ProcessImagesSkip(old(gen.counter), files, i, sidecars);
      } else {
        ProcessImagesVisit(old(gen.counter), files, i, sidecars);
        var item := ProcessImage(file, sidecars, gen);
        if item.Failure? {
          ProcessImagesStopped(old(gen.counter), files, i + 1, sidecars);
          return Failure(item.error);
        }
        items := items + [item.value];
      }
      i := i + 1;
    }
    assert files[..i] == files;
    r := Success(items);
  }

  /** After a throw, or for a file without a valid extension, one more file changes nothing. */
  lemma ProcessImagesSkip(counter: Counter, files: seq<ImageFile>, i: nat, sidecars: map<string, Meta>)
    requires i < |files|
    requires ProcessImagesSpec(counter, files[..i], sidecars).0.Failure? || !HasValidExtension(files[i])
    ensures ProcessImagesSpec(counter, files[..i + 1], sidecars) == ProcessImagesSpec(counter, files[..i], sidecars)
  {
    Catalogue.RunPrefixSnoc(counter, files, i, HasValidExtension, BaseFn(sidecars), MakeFn(sidecars));
  }

  /**
   * A file with a valid extension, reached without a throw, is handed the next slug for its
   * base, and its item is appended or its error thrown.
   */
  lemma ProcessImagesVisit(counter: Counter, files: seq<ImageFile>, i: nat, sidecars: map<string, Meta>)
    requires i < |files|
    requires ProcessImagesSpec(counter, files[..i], sidecars).0.Success? && HasValidExtension(files[i])
    ensures var prev := ProcessImagesSpec(counter, files[..i], sidecars);
      var step := Allocate(prev.1, SlugBaseOf(sidecars, files[i]));
      ProcessImagesSpec(counter, files[..i + 1], sidecars) ==
        match MakeItem(sidecars, files[i], step.0)
        case Success(item) => (Success(prev.0.value + [item]), step.1)
        case Failure(msg) => (Failure(msg), step.1)
  {
    Catalogue.RunPrefixSnoc(counter, files, i, HasValidExtension, BaseFn(sidecars), MakeFn(sidecars));
    var prev := ProcessImagesSpec(counter, files[..i], sidecars);
    var step := Allocate(prev.1, SlugBaseOf(sidecars, files[i]));
    assert MakeFn(sidecars)(files[i], step.0) == MakeItem(sidecars, files[i], step.0);
  }

  /** Once the walk has thrown on the first `i` files, the rest change nothing. */
  lemma ProcessImagesStopped(counter: Counter, files: seq<ImageFile>, i: nat, sidecars: map<string, Meta>)
    requires i <= |files| && ProcessImagesSpec(counter, files[..i], sidecars).0.Failure?
    ensures ProcessImagesSpec(counter, files, sidecars) == ProcessImagesSpec(counter, files[..i], sidecars)
  {
    Catalogue.RunPrefixFailure(counter, files, i, HasValidExtension, BaseFn(sidecars), MakeFn(sidecars));
  }

  // ---------------------------------------------------------------- properties of the walk

  /**
   * When the walk completes, its items are those of the accepted files in walk order, and
   * each carries the slug the generator hands out for its base in that order.
   */
  lemma ProcessImagesItems(counter: Counter, files: seq<ImageFile>, sidecars: map<string, Meta>)
    requires ProcessImagesSpec(counter, files, sidecars).0.Success?
    ensures var items := ProcessImagesSpec(counter, files, sidecars).0.value;
      var acc := Catalogue.Accepted(files, HasValidExtension);
      var slugs := AllocateAll(counter, Catalogue.Bases(acc, BaseFn(sidecars))).0;
      && |items| == |acc|
      && forall j :: 0 <= j < |acc| ==>
           acc[j].facts.Some? &&
           items[j] == DeriveItem(acc[j].rel, LoadMetadata(sidecars, acc[j].rel), acc[j].facts.value, slugs[j])
  {
    Catalogue.RunItems(counter, files, HasValidExtension, BaseFn(sidecars), MakeFn(sidecars));
    var items := ProcessImagesSpec(counter, files, sidecars).0.value;
    var acc := Catalogue.Accepted(files, HasValidExtension);
    var slugs := AllocateAll(counter, Catalogue.Bases(acc, BaseFn(sidecars))).0;
    forall j | 0 <= j < |acc|
      ensures acc[j].facts.Some? &&
        items[j] == DeriveItem(acc[j].rel, LoadMetadata(sidecars, acc[j].rel), acc[j].facts.value, slugs[j])
    {
      assert MakeFn(sidecars)(acc[j], slugs[j]) == MakeItem(sidecars, acc[j], slugs[j]);
    }
  }

  predicate Decoded(file: ImageFile) { file.facts.Some? }

  /** Whether a file's item can be built depends only on whether it could be decoded. */
  lemma MakeFnSucceeds(sidecars: map<string, Meta>)
    ensures forall f, slug :: MakeFn(sidecars)(f, slug).Success? <==> Decoded(f)
  {
  }

  /** The walk stops with an error exactly when some accepted file cannot be decoded. */
  lemma ProcessImagesFails(counter: Counter, files: seq<ImageFile>, sidecars: map<string, Meta>)
    ensures ProcessImagesSpec(counter, files, sidecars).0.Failure? <==>
      exists j :: 0 <= j < |Catalogue.Accepted(files, HasValidExtension)| &&
        Catalogue.Accepted(files, HasValidExtension)[j].facts.None?
  {
    MakeFnSucceeds(sidecars);
    Catalogue.RunFailsIff(counter, files, HasValidExtension, BaseFn(sidecars), MakeFn(sidecars), Decoded);
  }

  /** Two completed items whose files share a slug base never share a slug. */
  lemma ProcessImagesSlugsDistinct(counter: Counter, files: seq<ImageFile>, sidecars: map<string, Meta>, i: nat, j: nat)
    requires ProcessImagesSpec(counter, files, sidecars).0.Success?
    requires var acc := Catalogue.Accepted(files, HasValidExtension);
      i < j < |acc| && SlugBaseOf(sidecars, acc[i]) == SlugBaseOf(sidecars, acc[j])
    ensures var items := ProcessImagesSpec(counter, files, sidecars).0.value;
      |items| == |Catalogue.Accepted(files, HasValidExtension)| && items[i].slug != items[j].slug
  {
    ProcessImagesItems(counter, files, sidecars);
    var acc := Catalogue.Accepted(files, HasValidExtension);
    var bases := Catalogue.Bases(acc, BaseFn(sidecars));
    SameBaseDistinct(counter, bases, i, j);
  }

  /**
   * Thumbnails are walked like any other image: whatever its folder, a generated
   * `_thumbs/<dir>/<stem>-480.jpg` has a valid extension and is processed.
   */
  lemma ThumbnailsAreProcessed(dir: string, stem: string, facts: Option<ImageFacts>)
    requires '/' !in stem && '.' !in stem && stem != ""
    ensures HasValidExtension(ImageFile("_thumbs/" + dir + "/" + stem + "-480.jpg", facts))
  {
    var name := stem + "-480.jpg";
    var dirPart := "_thumbs/" + dir;
    Regroup2(dirPart + "/", stem, "-480.jpg");
    ThumbNameExtension(stem);
    ExtnameOfSegment(dirPart, name);
  }

  /** A thumbnail's own name `<stem>-480.jpg` has the extension `.jpg`, which is valid. */
  lemma ThumbNameExtension(stem: string)
    requires '/' !in stem && '.' !in stem && stem != ""
    ensures '/' !in stem + "-480.jpg"
    ensures Lower(NodeExtname(stem + "-480.jpg")) == ".jpg"
  {
    ThumbSuffix();
    Regroup2(stem, "-480", ".jpg");
    JpgExtension(stem + "-480");
  }

  lemma ThumbSuffix()
    ensures "-480.jpg" == "-480" + ".jpg" && ".jpg" == "." + "jpg" && '.' !in "-480"
  {
  }

  lemma JpgExtension(base: string)
    requires '/' !in base && '.' !in base && base != ""
    ensures NodeExtname(base + ".jpg") == ".jpg" && Lower(".jpg") == ".jpg"
  {
    ThumbSuffix();
    Regroup2(base, ".", "jpg");
    var name := base + ".jpg";
    LastIndexOfCharAt(base, '.', "jpg");
    NoSlashBasename(name);
    assert name[|base|..] == ".jpg";
    LowerJpg();
  }

  lemma LowerJpg()
    ensures Lower(".jpg") == ".jpg"
  {
    assert Lower(".jpg")[1] == 'j';
  }
}
