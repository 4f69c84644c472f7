/**
 * scripts/build-index.mjs: the naive JavaScript full build. A recursive walk
 * of the assets directory hands every file whose lower-cased extension is
 * valid to `handleImage`, which derives the item from the relative path
 * alone (no sidecar), asks the module-level `slugCounter` for a slug, reads
 * the image and pushes the item onto the module-level `items`. The first
 * image the decoder rejects throws, which ends the script with exit code 1.
 * After the walk the script writes the sitemap of the same routes
 * scripts/sitemap-generator.mjs lists.
 */
module BuildIndexJs {
  import opened Wrappers
  import opened Text
  import opened Paths
  import opened Slugs
  import opened SlugAllocation
  import Catalogue
  import IP = ImageProcessorJs
  import SitemapJs

  type ImageFile = IP.ImageFile

  /** The item `handleImage` pushes. */
  datatype IndexItem = IndexItem(id: string, slug: string, title: string, category: string, tags: seq<string>,
                                 width: Option<nat>, height: Option<nat>, bytes: nat,
                                 file: string, thumb: string, license: string)

  const License: string := "CC0-1.0"

  /** The filter of `walk`: `validExt` is the set `processImages` of scripts/image-processor.mjs uses. */
  predicate Walked(file: ImageFile) {
    IP.HasValidExtension(file)
  }

  /** `toSlug(`${category}-${base}`)` with `category = parts[0] || "misc"`. */
  function IndexSlugBase(file: ImageFile): string {
    IP.SlugBase(IP.NoMeta, file.rel)
  }

  /** What `handleImage` pushes for `file` with the slug it was given, or the decoder's error. */
  function HandleImageItem(file: ImageFile, slug: string): (r: Result<IndexItem, string>)
    ensures r.Success? <==> file.facts.Some?
  {
    if file.facts.None? then Failure("Input file contains unsupported image format")
    else
      var rel := file.rel;
      var base := NodeName(rel);
      Success(IndexItem(base, slug, IP.TitleFromBase(base), IP.Category(IP.NoMeta, rel), IP.FolderTags(rel),
                        file.facts.value.width, file.facts.value.height, file.facts.value.bytes,
                        "assets/" + rel, IP.ThumbPath(rel), License))
  }

  /**
   * How a pushed item is named: the bare name as id, a title without dashes or underscores,
   * `assets/<rel>` as file, the thumbnail under `assets/_thumbs/`
   * named `<name>-480.jpg`, the CC0 licence and the decoder's dimensions.
   */
  lemma HandleImageNaming(file: ImageFile, slug: string)
    requires file.facts.Some?
    ensures var it := HandleImageItem(file, slug).value;
      && it.id == NodeName(file.rel) && it.slug == slug
      && (forall i :: 0 <= i < |it.title| ==> !IP.IsDashOrUnderscore(it.title[i]))
      && it.file == "assets/" + file.rel
      && StartsWith(it.thumb, "assets/_thumbs/") && EndsWith(it.thumb, NodeName(file.rel) + "-480.jpg")
      && it.license == "CC0-1.0"
      && (it.width, it.height, it.bytes) == (file.facts.value.width, file.facts.value.height, file.facts.value.bytes)
  {
    var it := HandleImageItem(file, slug).value;
    assert it.title == IP.TitleFromBase(NodeName(file.rel));
    assert it.thumb == IP.ThumbPath(file.rel);
  }

  /**
   * How a pushed item is filed: the first path segment (or `misc` when it is empty) as category,
   * the distinct non-empty folders above the file as tags.
   */
  lemma HandleImageFiling(file: ImageFile, slug: string)
    requires file.facts.Some?
    ensures var it := HandleImageItem(file, slug).value;
      var parts := IP.Parts(file.rel);
      && it.category == (if parts[0] != "" then parts[0] else "misc")
      && Distinct(it.tags)
      && (forall t :: t in it.tags <==> t != "" && t in parts[..|parts| - 1])
  {
    var it := HandleImageItem(file, slug).value;
    assert it.tags == IP.FolderTags(file.rel);
  }

  /**
   * The full build's item is the incremental build's item for a file without a sidecar, minus
   * the description, author and keywords the full build does not record.
   */
  lemma SameAsProcessImageWithoutSidecar(file: ImageFile, slug: string)
    ensures var a := HandleImageItem(file, slug);
      var b := IP.MakeItem(map[], file, slug);
      && (a.Success? <==> b.Success?)
      && (a.Success? ==>
            && a.value.id == b.value.id && a.value.slug == b.value.slug && a.value.title == b.value.title
            && a.value.category == b.value.category && a.value.tags == b.value.tags
            && a.value.width == b.value.width && a.value.height == b.value.height && a.value.bytes == b.value.bytes
            && a.value.file == b.value.file && a.value.thumb == b.value.thumb && a.value.license == b.value.license)
    ensures IndexSlugBase(file) == IP.SlugBaseOf(map[], file)
  {
    assert IP.LoadMetadata(map[], file.rel) == IP.NoMeta;
    var meta := IP.NoMeta;
    assert IP.Tags(file.rel, meta) == IP.FolderTags(file.rel) by {
      AddAllDistinct([], IP.FolderTags(file.rel));
      assert IP.FolderTags(file.rel) + [] == IP.FolderTags(file.rel);
    }
  }

  /** A file in a folder is filed under that folder, and its slug base joins the folder and the bare name. */
  lemma FolderFileSlugBase(dir: string, name: string, facts: Option<IP.ImageFacts>)
    requires dir != "" && '/' !in dir && '/' !in name
    ensures IP.Category(IP.NoMeta, dir + "/" + name) == dir
    ensures IndexSlugBase(IP.ImageFile(dir + "/" + name, facts)) == ToSlug(dir + "-" + NodeName(name))
  {
    assert IP.Parts(dir + "/" + name)[0] == dir by {
      SplitFirst(dir, '/', name);
    }
    NodeNameOfSegment(dir, name);
  }

  /**
   * A file whose folder and stem are slugs already is asked for the slug `folder-stem`
   * (`landscape/cuteroom1.jpg` asks for `landscape-cuteroom1`).
   */
  lemma SlugNamedFile(dir: string, stem: string, ext: string, facts: Option<IP.ImageFacts>)
    requires IsSlug(dir) && IsSlug(stem) && dir != "" && stem != ""
    requires '.' !in stem && '/' !in ext && '.' !in ext
    ensures IndexSlugBase(IP.ImageFile(dir + "/" + (stem + "." + ext), facts)) == dir + "-" + stem
  {
    SlugHasNoSlash(dir);
    SlugHasNoSlash(stem);
    assert '/' !in stem + "." + ext;
    FolderFileSlugBase(dir, stem + "." + ext, facts);
    NodeNameOfFile(stem, ext);
    JoinedSlugs(dir, stem);
  }

  // ---------------------------------------------------------------- the walk

  function IndexSlugBaseFn(): ImageFile -> string {
    f => IndexSlugBase(f)
  }

  function HandleImageFn(): (ImageFile, string) -> Result<IndexItem, string> {
    (f, s) => HandleImageItem(f, s)
  }

  /** The items the walk pushes from `counter` on, or the first error, and the slug counter afterwards. */
  function WalkSpec(counter: Counter, files: seq<ImageFile>): (Result<seq<IndexItem>, string>, Counter) {
    Catalogue.Run(counter, files, Walked, IndexSlugBaseFn(), HandleImageFn())
  }

  /** The module-level state of the script: the pushed items and the slug counter. */
  class IndexBuild {
    var items: seq<IndexItem>
    var slugCounter: Counter

    /** `const items = []; const slugCounter = new Map();` */
    constructor()
      ensures items == [] && slugCounter == map[]
    {
      items := [];
      slugCounter := map[];
    }

    /** `uniqueSlug(base)`: the bare base on first request, then `base-1`, `base-2`, …. */
    method UniqueSlug(base: string) returns (slug: string)
      modifies this
      ensures (slug, slugCounter) == Allocate(old(slugCounter), base)
      ensures items == old(items)
    {
      if base !in slugCounter {
        slugCounter := slugCounter[base := 0];
        return base;
      }
      var n := slugCounter[base] + 1;
      slugCounter := slugCounter[base := n];
      slug := Suffixed(base, n);
    }

    /** `handleImage(fullPath)`: the slug is taken before the image is read, so a throw still uses it up. */
    method HandleImage(file: ImageFile) returns (r: Result<IndexItem, string>)
      modifies this
      ensures (r, slugCounter, items) == HandleImageSpec(old(slugCounter), old(items), file)
    {
      var base := IndexSlugBase(file);
      var slug := UniqueSlug(base);
      r := HandleImageItem(file, slug);
      if r.Success? {
        items := items + [r.value];
      }
    }

    /** `walk(ASSETS_DIR)` over the files in walk order; `Some(error)` when a `handleImage` threw. */
    method Walk(files: seq<ImageFile>) returns (err: Option<string>)
      modifies this
      ensures var run := WalkSpec(old(slugCounter), files);
        && slugCounter == run.1
        && (err.None? <==> run.0.Success?)
        && (run.0.Success? ==> items == old(items) + run.0.value)
        && (run.0.Failure? ==> err == Some(run.0.error))
    {
      var i := 0;
      while i < |files|
        invariant 0 <= i <= |files|
        invariant WalkedSoFar(old(slugCounter), old(items), files, i, slugCounter, items)
      {
        if Walked(files[i]) {
          WalkVisit(old(slugCounter), old(items), files, i, slugCounter, items);
          var r := HandleImage(files[i]);
          if r.Failure? {
            return Some(r.error);
          }
        } else {
          WalkSkip(old(slugCounter), files, i);
        }
        i := i + 1;
      }
      assert files[..i] == files;
      return None;
    }
  }

  /** One `handleImage`: the item or error, the slug counter and the items afterwards. */
  function HandleImageSpec(counter: Counter, items: seq<IndexItem>, file: ImageFile)
    : (Result<IndexItem, string>, Counter, seq<IndexItem>)
  {
    var step := Allocate(counter, IndexSlugBase(file));
    var r := HandleImageItem(file, step.0);
    (r, step.1, if r.Success? then items + [r.value] else items)
  }

  /** The state after walking the first `i` files without a throw. */
  ghost predicate WalkedSoFar(counter: Counter, items0: seq<IndexItem>, files: seq<ImageFile>, i: nat,
                              slugCounter: Counter, items: seq<IndexItem>)
    requires i <= |files|
  {
    var run := WalkSpec(counter, files[..i]);
    run.0.Success? && slugCounter == run.1 && items == items0 + run.0.value
  }

  /** A file the walk does not hand to `handleImage` changes nothing. */
  lemma WalkSkip(counter: Counter, files: seq<ImageFile>, i: nat)
    requires i < |files| && !Walked(files[i])
    ensures WalkSpec(counter, files[..i + 1]) == WalkSpec(counter, files[..i])
  {
    Catalogue.RunPrefixSnoc(counter, files, i, Walked, IndexSlugBaseFn(), HandleImageFn());
  }

  /**
   * A walked file, reached without a throw, takes the next slug for its base and pushes its
   * item, or throws and ends the walk with its error and the counter as it left it.
   */
  lemma WalkVisit(counter: Counter, items0: seq<IndexItem>, files: seq<ImageFile>, i: nat,
                  slugCounter: Counter, items: seq<IndexItem>)
    requires i < |files| && Walked(files[i]) && WalkedSoFar(counter, items0, files, i, slugCounter, items)
    ensures var h := HandleImageSpec(slugCounter, items, files[i]);
      && (h.0.Success? ==> WalkedSoFar(counter, items0, files, i + 1, h.1, h.2))
      && (h.0.Failure? ==> WalkSpec(counter, files) == (Failure(h.0.error), h.1))
  {
    Catalogue.RunVisitState(counter, files, i, Walked, IndexSlugBaseFn(), HandleImageFn(), items0, slugCounter, items);
    var step := Allocate(slugCounter, IndexSlugBase(files[i]));
    assert HandleImageFn()(files[i], step.0) == HandleImageItem(files[i], step.0);
  }

  /** Once the walk has thrown, the remaining files change nothing. */
  lemma WalkStopped(counter: Counter, files: seq<ImageFile>, i: nat)
    requires i <= |files| && WalkSpec(counter, files[..i]).0.Failure?
    ensures WalkSpec(counter, files) == WalkSpec(counter, files[..i])
  {
    Catalogue.RunPrefixFailure(counter, files, i, Walked, IndexSlugBaseFn(), HandleImageFn());
  }

  /** A completed walk pushed one item per walked file, in walk order, each with the slug handed out for it. */
  lemma WalkItems(counter: Counter, files: seq<ImageFile>)
    requires WalkSpec(counter, files).0.Success?
    ensures var items := WalkSpec(counter, files).0.value;
      var acc := Catalogue.Accepted(files, Walked);
      var slugs := AllocateAll(counter, Catalogue.Bases(acc, IndexSlugBaseFn())).0;
      && |items| == |acc|
      && forall j :: 0 <= j < |acc| ==> HandleImageItem(acc[j], slugs[j]) == Success(items[j])
  {
    Catalogue.RunItems(counter, files, Walked, IndexSlugBaseFn(), HandleImageFn());
  }

  predicate Decoded(file: ImageFile) { file.facts.Some? }

  /** The build throws exactly when some walked file cannot be decoded. */
  lemma WalkFails(counter: Counter, files: seq<ImageFile>)
    ensures WalkSpec(counter, files).0.Failure? <==>
      exists j :: 0 <= j < |Catalogue.Accepted(files, Walked)| && !Decoded(Catalogue.Accepted(files, Walked)[j])
  {
    assert forall f, slug :: HandleImageFn()(f, slug).Success? <==> Decoded(f);
    Catalogue.RunFailsIff(counter, files, Walked, IndexSlugBaseFn(), HandleImageFn(), Decoded);
  }

  /** Two pushed items whose files share a slug base have different slugs. */
  lemma WalkSlugsDistinct(counter: Counter, files: seq<ImageFile>, i: nat, j: nat)
    requires WalkSpec(counter, files).0.Success?
    requires var acc := Catalogue.Accepted(files, Walked);
      i < j < |acc| && IndexSlugBase(acc[i]) == IndexSlugBase(acc[j])
    ensures var items := WalkSpec(counter, files).0.value;
      |items| == |Catalogue.Accepted(files, Walked)| && items[i].slug != items[j].slug
  {
    WalkItems(counter, files);
    var acc := Catalogue.Accepted(files, Walked);
    var slugs := AllocateAll(counter, Catalogue.Bases(acc, IndexSlugBaseFn())).0;
    SameBaseDistinct(counter, Catalogue.Bases(acc, IndexSlugBaseFn()), i, j);
    assert HandleImageItem(acc[i], slugs[i]).value.slug == slugs[i];
    assert HandleImageItem(acc[j], slugs[j]).value.slug == slugs[j];
  }

  // ---------------------------------------------------------------- the sitemap

  /** What the route loop reads of each item. */
  function Pages(items: seq<IndexItem>): (pages: seq<SitemapJs.Page>)
    ensures |pages| == |items|
    ensures forall i :: 0 <= i < |items| ==> pages[i] == SitemapJs.Page(items[i].file, items[i].slug)
  {
    seq(|items|, i requires 0 <= i < |items| => SitemapJs.Page(items[i].file, items[i].slug))
  }

  /** `buildSitemapXML(baseUrl, routes)`: the sitemap-generator document followed by a newline. */
  function BuildSitemapXml(routes: seq<string>): (xml: string)
    ensures xml == SitemapJs.GenerateSitemapXml(routes) + "\n"
  {
    SitemapJs.XmlDeclaration + "\n" + SitemapJs.UrlsetOpen + "\n" + Join(SitemapJs.UrlEntries(routes), "\n") + "\n"
      + SitemapJs.UrlsetClose + "\n"
  }

  /** What the script writes: the items of `assets.json` and `sitemap.xml`. */
  datatype Output = Output(items: seq<IndexItem>, sitemap: string)

  /**
   * The whole script over the walked files and the value of `GITHUB_REPOSITORY`: the walk from an
   * empty slug counter, then the routes from the pushed items and their sitemap.
   */
  method BuildIndex(files: seq<ImageFile>, env: Option<string>) returns (r: Result<Output, string>)
    ensures var run := WalkSpec(map[], files);
      && (r.Success? <==> run.0.Success?)
      && (r.Failure? ==> r.error == run.0.error)
      && (r.Success? ==>
            && r.value.items == run.0.value
            && r.value.sitemap == BuildSitemapXml(SitemapJs.Routes(SitemapJs.GetBaseUrl(env), Pages(run.0.value))))
  {
    var build := new IndexBuild();
    var err := build.Walk(files);
    if err.Some? {
      return Failure(err.value);
    }
    var baseUrl := SitemapJs.GetBaseUrl(env);
    var routes := SitemapJs.GenerateRoutes(baseUrl, Pages(build.items));
    r := Success(Output(build.items, BuildSitemapXml(routes)));
  }

  /** Every pushed item's detail page is in the sitemap's routes. */
  lemma DetailPagesListed(baseUrl: string, items: seq<IndexItem>, i: nat)
    requires i < |items|
    ensures baseUrl + "items/" + items[i].slug + "/" in SitemapJs.Routes(baseUrl, Pages(items))
  {
    SitemapJs.RoutesMembers(baseUrl, Pages(items), baseUrl + "items/" + items[i].slug + "/");
    assert SitemapJs.DetailUrl(baseUrl, Pages(items)[i]) == baseUrl + "items/" + items[i].slug + "/";
  }
}
