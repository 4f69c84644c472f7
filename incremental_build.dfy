/**
 * scripts/incremental-build.mjs: the hash-cached build. It lists the images
 * under the assets directory (skipping `_thumbs` folders) and sorts them
 * against `.build-cache.json` into added, modified and unchanged files, with
 * the cached paths that are gone as deleted. When nothing was added, modified
 * or deleted it stops. Otherwise it seeds a slug generator from the slugs
 * already handed out, processes the added and then the modified files
 * (writing each one's detail page), lists the deleted items' folders for
 * removal, and writes the manifest (unchanged items, then processed ones), the
 * sitemap and a new cache with one entry per current file.
 *
 * Files are named by their path relative to the assets directory, as the walk
 * reaches them; their contents, hashes and modification times are inputs
 * (`Found`). The cache is the value `loadBuildCache` parses, and the outputs
 * are returned rather than written.
 *
 * As written the script never gets that far: the module it imports
 * `processImage` from does not load (`ScriptAsWrittenFails`). `Build` and
 * `IncrementalBuildRun` model the script with that module repaired.
 */
module IncrementalBuild {
  import opened Wrappers
  import opened Text
  import opened OrderedMaps
  import opened SlugAllocation
  import Catalogue
  import IP = ImageProcessorJs
  import HG = HtmlGeneratorJs
  import SitemapJs

  // ---------------------------------------------------------------- the cache

  /** What `calculateFileHash` resolves to: the MD5 digest in hex, or `null` for a file it cannot read. */
  datatype Hash = Digest(hex: string) | Unreadable

  /**
   * One entry of `cache.files`: hash, modification time and item. The item is `None` where
   * `allItems.find` found nothing, so that the saved entry has no `item` field.
   */
  datatype CacheEntry = CacheEntry(hash: Hash, lastModified: int, item: Option<IP.Item>)

  /** `.build-cache.json`: the time of the last build, the entries by file path, and the items. */
  datatype Cache = Cache(lastBuild: Option<string>, files: Entries<CacheEntry>, items: seq<IP.Item>)

  /** What `loadBuildCache` returns when there is no cache file or it is not valid JSON. */
  const EmptyCache: Cache := Cache(None, [], [])

  /** Every entry holds the item whose `file` is `assets/<its path>`, as the cache a build writes. */
  ghost predicate Coherent(cache: Cache) {
    forall p, e :: (p, e) in cache.files ==> e.item.Some? && e.item.value.file == "assets/" + p
  }

  // ---------------------------------------------------------------- getAllImageFiles

  /** A file the walk reaches: the image, its hash and its modification time. */
  datatype Found = Found(file: IP.ImageFile, hash: Hash, lastModified: int)

  function PathOf(f: Found): string {
    f.file.rel
  }

  /** The path of each file, in order. */
  function PathsOf(fs: seq<Found>): (ps: seq<string>)
    ensures |ps| == |fs| && forall i :: 0 <= i < |fs| ==> ps[i] == PathOf(fs[i])
  {
    seq(|fs|, i requires 0 <= i < |fs| => PathOf(fs[i]))
  }

  /** The path lies inside a folder named `_thumbs`, at any depth. */
  predicate InThumbs(rel: string) {
    var segments := Split(rel, '/');
    "_thumbs" in segments[..|segments| - 1]
  }

  /** The filter of `walkDir`: no `_thumbs` folder on the way, and a valid lower-cased extension. */
  predicate Listed(f: Found) {
    !InThumbs(PathOf(f)) && IP.HasValidExtension(f.file)
  }

  /** `getAllImageFiles()` over the files of the walk, in walk order. */
  method GetAllImageFiles(walk: seq<Found>) returns (files: seq<Found>)
    ensures files == Catalogue.Accepted(walk, Listed)
  {
    files := [];
    var i := 0;
    while i < |walk|
      invariant 0 <= i <= |walk|
      invariant files == Catalogue.Accepted(walk[..i], Listed)
    {
      var f := walk[i];
      var keep := Listed(f);
      ListedStep(walk, i, files, keep);
      if keep {
        files := files + [f];
      }
      i := i + 1;
    }
    assert walk[..i] == walk;
  }

  /** One more file of the walk: pushed when it passes the filter. */
  lemma ListedStep(walk: seq<Found>, i: nat, files: seq<Found>, keep: bool)
    requires i < |walk| && files == Catalogue.Accepted(walk[..i], Listed) && keep == Listed(walk[i])
    ensures Catalogue.Accepted(walk[..i + 1], Listed) == if keep then files + [walk[i]] else files
  {
    Catalogue.AcceptedPrefixSnoc(walk, i, Listed);
  }

  /** A file is listed exactly when it was walked, lies outside every `_thumbs` folder and has a valid extension. */
  lemma ListedFiles(walk: seq<Found>, f: Found)
    ensures f in Catalogue.Accepted(walk, Listed) <==> f in walk && !InThumbs(PathOf(f)) && IP.HasValidExtension(f.file)
  {
    Catalogue.AcceptedMembers(walk, Listed, f);
  }

  /** The thumbnails the build generates under the top-level `_thumbs` folder are never listed. */
  lemma ThumbsFolderNotListed(rest: string, f: Found)
    requires PathOf(f) == "_thumbs/" + rest
    ensures !Listed(f)
  {
    var p := "_thumbs/" + rest;
    assert p == "_thumbs" + ['/'] + rest;
    SplitFirst("_thumbs", '/', rest);
    assert IndexOfChar(p, '/') == 7 by {
      IndexOfCharAt("_thumbs", '/', rest);
    }
    assert |Split(p, '/')| >= 2;
  }

  // ---------------------------------------------------------------- detectChangedFiles

  /** The list `detectChangedFiles` pushes a current file to. */
  datatype Class = Added | Modified | Unchanged

  /** Decided by `cache.files[filePath]` and the hashes alone; `lastModified` is not read. */
  function ClassOf(files: Entries<CacheEntry>, f: Found): Class {
    match Find(files, PathOf(f))
    case None => Added
    case Some(e) => if e.hash != f.hash then Modified else Unchanged
  }

  /** The cached item of a current file (`oldItem` / `item`), `None` for a new file. */
  function CachedItem(files: Entries<CacheEntry>, f: Found): Option<IP.Item> {
    match Find(files, PathOf(f))
    case None => None
    case Some(e) => e.item
  }

  /** A current file with the cached item it carries. */
  datatype Change = Change(found: Found, cached: Option<IP.Item>)

  /** A cached path that is no longer walked, with its cached item. */
  datatype Gone = Gone(path: string, item: Option<IP.Item>)

  /** The object `detectChangedFiles` returns (`untouched` is its `unchanged` list). */
  datatype Changes = Changes(added: seq<Found>, modified: seq<Change>, deleted: seq<Gone>, untouched: seq<Change>)

  /** The first loop of `detectChangedFiles`: each current file pushed to its list, in order. */
  function Classified(files: Entries<CacheEntry>, current: seq<Found>): Changes
    decreases |current|
  {
    if current == [] then Changes([], [], [], [])
    else
      var c := Classified(files, current[..|current| - 1]);
      var f := current[|current| - 1];
      match ClassOf(files, f)
      case Added => c.(added := c.added + [f])
      case Modified => c.(modified := c.modified + [Change(f, CachedItem(files, f))])
      case Unchanged => c.(untouched := c.untouched + [Change(f, CachedItem(files, f))])
  }

  /** The second loop: the cached entries, in key order, whose path is not current. */
  function Deleted(files: Entries<CacheEntry>, paths: seq<string>): seq<Gone>
    decreases |files|
  {
    if files == [] then []
    else
      var rest := Deleted(files[..|files| - 1], paths);
      var e := files[|files| - 1];
      if e.0 in paths then rest else rest + [Gone(e.0, e.1.item)]
  }

  /** What `detectChangedFiles(cache, currentFiles)` returns. */
  function Detect(files: Entries<CacheEntry>, current: seq<Found>): Changes {
    Classified(files, current).(deleted := Deleted(files, PathsOf(current)))
  }

  /** `detectChangedFiles(cache, currentFiles)`. */
  method DetectChangedFiles(cache: Cache, current: seq<Found>) returns (changes: Changes)
    ensures changes == Detect(cache.files, current)
  {
    changes := Changes([], [], [], []);
    var i := 0;
    while i < |current|
      invariant 0 <= i <= |current|
      invariant changes == Classified(cache.files, current[..i])
    {
      var f := current[i];
      assert current[..i + 1][..i] == current[..i];
      var cached := Find(cache.files, PathOf(f));
      if cached.None? {
        changes := changes.(added := changes.added + [f]);
      } else if cached.value.hash != f.hash {
        changes := changes.(modified := changes.modified + [Change(f, cached.value.item)]);
      } else {
        changes := changes.(untouched := changes.untouched + [Change(f, cached.value.item)]);
      }
      i := i + 1;
    }
    assert current[..i] == current;
    var paths := PathsOf(current);
    var deleted: seq<Gone> := [];
    var j := 0;
    while j < |cache.files|
      invariant 0 <= j <= |cache.files|
      invariant deleted == Deleted(cache.files[..j], paths)
    {
      var e := cache.files[j];
      assert cache.files[..j + 1][..j] == cache.files[..j];
      if e.0 !in paths {
        deleted := deleted + [Gone(e.0, e.1.item)];
      }
      j := j + 1;
    }
    assert cache.files[..j] == cache.files;
    changes := changes.(deleted := deleted);
  }

  /** Every current file lands in exactly one of the three lists: one entry per file in all. */
  lemma {:induction false} ClassifiedCount(files: Entries<CacheEntry>, current: seq<Found>)
    ensures var c := Classified(files, current);
            |c.added| + |c.modified| + |c.untouched| == |current| && c.deleted == []
    decreases |current|
  {
    if current != [] {
      ClassifiedCount(files, current[..|current| - 1]);
    }
  }

  /**
   * A file is added when the cache has no entry for its path, modified when the entry's hash
   * differs and unchanged when it is equal; modified and unchanged files carry the cached item.
   */
  lemma {:induction false} ClassifiedMembers(files: Entries<CacheEntry>, current: seq<Found>, f: Found, ch: Change)
    ensures var c := Classified(files, current);
      && (f in c.added <==> f in current && ClassOf(files, f) == Added)
      && (ch in c.modified <==> ch.found in current && ClassOf(files, ch.found) == Modified
                                && ch.cached == CachedItem(files, ch.found))
      && (ch in c.untouched <==> ch.found in current && ClassOf(files, ch.found) == Unchanged
                                 && ch.cached == CachedItem(files, ch.found))
    decreases |current|
  {
    if current != [] {
      var init := current[..|current| - 1];
      assert current == init + [current[|current| - 1]];
      ClassifiedMembers(files, init, f, ch);
    }
  }

  /** The class is the cache's verdict on the hash: a file touched but not changed stays unchanged. */
  lemma ClassIgnoresTime(files: Entries<CacheEntry>, f: Found, t: int)
    ensures ClassOf(files, f.(lastModified := t)) == ClassOf(files, f)
    ensures f.hash.Digest? && Find(files, PathOf(f)) == Some(CacheEntry(f.hash, t, None)) ==> ClassOf(files, f) == Unchanged
  {
  }

  /** Exactly the cached entries whose path is not current are deleted, each with its cached item. */
  lemma {:induction false} DeletedMembers(files: Entries<CacheEntry>, paths: seq<string>, g: Gone)
    ensures g in Deleted(files, paths) <==> g.path !in paths && exists e :: (g.path, e) in files && g.item == e.item
    decreases |files|
  {
    if files != [] {
      var init := files[..|files| - 1];
      var last := files[|files| - 1];
      assert files == init + [last];
      DeletedMembers(init, paths, g);
      if g.path !in paths && (exists e :: (g.path, e) in files && g.item == e.item) {
        var e :| (g.path, e) in files && g.item == e.item;
        if (g.path, e) != last {
          assert (g.path, e) in init;
        }
      }
    }
  }

  // ---------------------------------------------------------------- seeding the slug generator

  predicate AllDigits(s: string) {
    forall i :: 0 <= i < |s| ==> IsDigit(s[i])
  }

  /**
   * `slug.replace(/-\d+$/, '')`: a final `-` followed by one or more digits, and nothing
   * else, is removed; any other slug is kept.
   */
  function StripNumericSuffix(slug: string): (r: string)
    ensures r == slug || (|r| + 1 < |slug| && slug[..|r|] == r && slug[|r|] == '-' && AllDigits(slug[|r| + 1..]))
  {
    var k := LastIndexOfChar(slug, '-');
    if 0 <= k && k + 1 < |slug| && AllDigits(slug[k + 1..]) then slug[..k] else slug
  }

  /** A suffixed slug loses its suffix: `b-<n>` is stripped back to `b`. */
  lemma StripSuffixed(b: string, n: nat)
    ensures StripNumericSuffix(Suffixed(b, n)) == b
  {
    var d := NatToString(n);
    assert '-' !in d by {
      assert forall i :: 0 <= i < |d| ==> IsDigit(d[i]);
    }
    var s := Suffixed(b, n);
    assert s == b + ['-'] + d;
    LastIndexOfCharAt(b, '-', d);
    assert s[|b| + 1..] == d;
    assert s[..|b|] == b;
  }

  /** A slug whose end is not `-` and digits is kept whole. */
  lemma StripKeepsPlain(slug: string)
    requires slug == "" || !IsDigit(slug[|slug| - 1])
    ensures StripNumericSuffix(slug) == slug
  {
  }

  /**
   * The unchanged files' items followed by `items`: `existingItems` when `items` is the cache's
   * `items` (which still hold the items of modified and deleted files), and `allItems` when it
   * is the processed items.
   */
  function UntouchedThen(untouched: seq<Change>, items: seq<IP.Item>): (r: seq<Option<IP.Item>>)
    ensures |r| == |untouched| + |items|
    ensures forall i :: 0 <= i < |untouched| ==> r[i] == untouched[i].cached
    ensures forall i :: 0 <= i < |items| ==> r[|untouched| + i] == Some(items[i])
  {
    seq(|untouched|, i requires 0 <= i < |untouched| => untouched[i].cached)
    + seq(|items|, i requires 0 <= i < |items| => Some(items[i]))
  }

  /** The slug an existing item seeds, if it has one. */
  function SeedOf(it: Option<IP.Item>): Option<string> {
    if it.Some? && it.value.slug != "" then Some(StripNumericSuffix(it.value.slug)) else None
  }

  /** The generator's counter after the seeding loop over `items`. */
  function Seeded(counter: Counter, items: seq<Option<IP.Item>>): Counter
    decreases |items|
  {
    if items == [] then counter
    else
      var c := Seeded(counter, items[..|items| - 1]);
      match SeedOf(items[|items| - 1])
      case None => c
      case Some(b) => c[b := 0]
  }

  /** The seeding loop: for each existing item with a slug, `counter.set(base, 0)`. */
  method SeedSlugs(gen: SlugGenerator, items: seq<Option<IP.Item>>)
    modifies gen
    ensures gen.counter == Seeded(old(gen.counter), items)
  {
    var i := 0;
    while i < |items|
      invariant 0 <= i <= |items|
      invariant gen.counter == Seeded(old(gen.counter), items[..i])
    {
      assert items[..i + 1][..i] == items[..i];
      var item := items[i];
      ghost var before := gen.counter;
      if item.Some? && item.value.slug != "" {
        var baseSlug := StripNumericSuffix(item.value.slug);
        gen.counter := gen.counter[baseSlug := 0];
      }
      assert gen.counter == if SeedOf(item).Some? then before[SeedOf(item).value := 0] else before;
      i := i + 1;
    }
    assert items[..i] == items;
  }

  /** The bases the existing items seed, in order. */
  function Seeds(items: seq<Option<IP.Item>>): seq<string>
    decreases |items|
  {
    if items == [] then []
    else
      Seeds(items[..|items| - 1]) + match SeedOf(items[|items| - 1]) case None => [] case Some(b) => [b]
  }

  /** A base is seeded exactly when some existing item with a slug strips to it. */
  lemma {:induction false} SeedsMembers(items: seq<Option<IP.Item>>, b: string)
    ensures b in Seeds(items) <==> exists it :: it in items && SeedOf(it) == Some(b)
    decreases |items|
  {
    if items != [] {
      var init := items[..|items| - 1];
      assert items == init + [items[|items| - 1]];
      SeedsMembers(init, b);
    }
  }

  /** The counter with each of `bases` set to 0, in order. */
  function ZeroAll(counter: Counter, bases: seq<string>): Counter
    decreases |bases|
  {
    if bases == [] then counter else ZeroAll(counter, bases[..|bases| - 1])[bases[|bases| - 1] := 0]
  }

  /** Seeding is setting the seeded bases to 0. */
  lemma {:induction false} SeededZeroAll(counter: Counter, items: seq<Option<IP.Item>>)
    ensures Seeded(counter, items) == ZeroAll(counter, Seeds(items))
    decreases |items|
  {
    if items != [] {
      var init := items[..|items| - 1];
      SeededZeroAll(counter, init);
      match SeedOf(items[|items| - 1])
      case None =>
        assert Seeds(items) == Seeds(init);
      case Some(s) =>
        assert Seeds(items) == Seeds(init) + [s];
        ZeroAllSnoc(counter, Seeds(init), s);
    }
  }

  lemma ZeroAllSnoc(counter: Counter, bases: seq<string>, b: string)
    ensures ZeroAll(counter, bases + [b]) == ZeroAll(counter, bases)[b := 0]
  {
    assert (bases + [b])[..|bases|] == bases;
  }

  /** Setting bases to 0 enters them at 0 and keeps every other entry. */
  lemma {:induction false} ZeroAllEntry(counter: Counter, bases: seq<string>, b: string)
    ensures b in ZeroAll(counter, bases) <==> b in counter || b in bases
    ensures b in bases ==> ZeroAll(counter, bases)[b] == 0
    ensures b !in bases && b in counter ==> ZeroAll(counter, bases)[b] == counter[b]
    decreases |bases|
  {
    if bases != [] {
      var init := bases[..|bases| - 1];
      ZeroAllEntry(counter, init, b);
      assert bases == init + [bases[|bases| - 1]];
    }
  }

  /**
   * Seeding enters the seeded bases at 0 and keeps every other entry of the counter: a base
   * has an entry afterwards exactly when it had one or is seeded.
   */
  lemma SeededCounter(counter: Counter, items: seq<Option<IP.Item>>, b: string)
    ensures b in Seeded(counter, items) <==> b in counter || b in Seeds(items)
    ensures b in Seeds(items) ==> Seeded(counter, items)[b] == 0
    ensures b !in Seeds(items) && b in counter ==> Seeded(counter, items)[b] == counter[b]
  {
    SeededZeroAll(counter, items);
    ZeroAllEntry(counter, Seeds(items), b);
  }

  /** Once a base is seeded, the next file with that base receives `base-1`, never the bare base. */
  lemma SeededBaseGetsFirstSuffix(items: seq<Option<IP.Item>>, b: string)
    requires exists it :: it in items && SeedOf(it) == Some(b)
    ensures Allocate(Seeded(map[], items), b).0 == Suffixed(b, 1) != b
  {
    SeedsMembers(items, b);
    SeededCounter(map[], items, b);
    var c := Seeded(map[], items);
    assert c[b] == 0;
    assert Allocate(c, b).1[b] == 1;
  }

  /** An existing item holding `b-1` makes the next file with base `b` receive exactly its slug. */
  lemma SeededCollision(items: seq<Option<IP.Item>>, it: IP.Item, b: string)
    requires Some(it) in items && it.slug == Suffixed(b, 1)
    ensures Allocate(Seeded(map[], items), b).0 == it.slug
  {
    assert SeedOf(Some(it)) == Some(b) by {
      StripSuffixed(b, 1);
    }
    SeededBaseGetsFirstSuffix(items, b);
  }

  // ---------------------------------------------------------------- processing the added and modified files

  /** `filesToProcess = [...changes.added, ...changes.modified]`, as the images `processImage` reads. */
  function ToProcess(c: Changes): (r: seq<IP.ImageFile>)
    ensures |r| == |c.added| + |c.modified|
    ensures forall i :: 0 <= i < |c.added| ==> r[i] == c.added[i].file
    ensures forall i :: 0 <= i < |c.modified| ==> r[|c.added| + i] == c.modified[i].found.file
  {
    seq(|c.added|, i requires 0 <= i < |c.added| => c.added[i].file)
    + seq(|c.modified|, i requires 0 <= i < |c.modified| => c.modified[i].found.file)
  }

  /** The processing loop takes every file it is given. */
  predicate Always(f: IP.ImageFile) {
    true
  }

  /** The items of the processing loop, or the first error thrown, and the slug counter afterwards. */
  function ProcessSpec(counter: Counter, files: seq<IP.ImageFile>, sidecars: map<string, IP.Meta>)
    : (Result<seq<IP.Item>, string>, Counter)
  {
    Catalogue.Run(counter, files, Always, IP.BaseFn(sidecars), IP.MakeFn(sidecars))
  }

  /** The loop filters nothing out. */
  lemma {:induction false} AcceptedAlways(files: seq<IP.ImageFile>)
    ensures Catalogue.Accepted(files, Always) == files
    decreases |files|
  {
    if files != [] {
      var init := files[..|files| - 1];
      AcceptedAlways(init);
      assert files == init + [files[|files| - 1]];
    }
  }

  /**
   * The item `writeDetailPage` is evidently meant to render: the processed item, whose image
   * path is in `file`, with that path as `originalPath`.
   */
  function DetailOf(it: IP.Item): (d: HG.DetailItem)
    ensures d.originalPath == Some(it.file)
  {
    HG.FromProcessed(it).(originalPath := Some(it.file))
  }

  /** The detail page of an item: its folder (the slug) and the page the generator returns. */
  function DetailPage(template: string, it: IP.Item): (string, string) {
    var html := HG.DetailHtml(template, DetailOf(it));
    (it.slug, html.value)
  }

  /** The pages written for `items`, one each, in order. */
  function DetailPages(template: string, items: seq<IP.Item>): (r: seq<(string, string)>)
    ensures |r| == |items|
    decreases |items|
  {
    if items == [] then []
    else DetailPages(template, items[..|items| - 1]) + [DetailPage(template, items[|items| - 1])]
  }

  /** The page of each item is at the item's position. */
  lemma {:induction false} DetailPagesAt(template: string, items: seq<IP.Item>, i: nat)
    requires i < |items|
    ensures DetailPages(template, items)[i] == DetailPage(template, items[i])
    decreases |items|
  {
    if i < |items| - 1 {
      DetailPagesAt(template, items[..|items| - 1], i);
    }
  }

  /** With the path passed as `originalPath`, every processed item's page is rendered. */
  lemma DetailPageRendered(template: string, it: IP.Item)
    ensures HG.DetailHtml(template, DetailOf(it)) == Success(DetailPage(template, it).1)
    ensures DetailPage(template, it).0 == it.slug
  {
  }

  /**
   * The processing loop: `processImage` with the shared generator, then `writeDetailPage`, then
   * the push; the first throw ends it.
   */
  method ProcessChanged(files: seq<IP.ImageFile>, sidecars: map<string, IP.Meta>, template: string, gen: SlugGenerator)
    returns (r: Result<seq<IP.Item>, string>, pages: seq<(string, string)>)
    modifies gen
    ensures (r, gen.counter) == ProcessSpec(old(gen.counter), files, sidecars)
    ensures r.Success? ==> pages == DetailPages(template, r.value)
  {
    var items: seq<IP.Item> := [];
    pages := [];
    var i := 0;
    while i < |files|
      invariant 0 <= i <= |files|
      invariant ProcessSpec(old(gen.counter), files[..i], sidecars) == (Success(items), gen.counter)
      invariant pages == DetailPages(template, items)
    {
      var thrown;
      thrown, items, pages := ProcessNext(files, i, sidecars, template, gen, old(gen.counter), items, pages);
      if thrown.Some? {
        return Failure(thrown.value), pages;
      }
      i := i + 1;
    }
    assert files[..i] == files;
    r := Success(items);
  }

  /** One iteration of the processing loop: the file's item and page, or the error that ends the loop. */
  method ProcessNext(files: seq<IP.ImageFile>, i: nat, sidecars: map<string, IP.Meta>, template: string,
                     gen: SlugGenerator, ghost counter0: Counter, items: seq<IP.Item>, pages: seq<(string, string)>)
    returns (thrown: Option<string>, items': seq<IP.Item>, pages': seq<(string, string)>)
    requires i < |files|
    requires ProcessSpec(counter0, files[..i], sidecars) == (Success(items), gen.counter)
    requires pages == DetailPages(template, items)
    modifies gen
    ensures thrown.None? ==> ProcessSpec(counter0, files[..i + 1], sidecars) == (Success(items'), gen.counter)
                             && pages' == DetailPages(template, items')
    ensures thrown.Some? ==> ProcessSpec(counter0, files, sidecars) == (Failure(thrown.value), gen.counter)
  {
    ProcessVisit(counter0, files, i, sidecars);
    var item := IP.ProcessImage(files[i], sidecars, gen);
    if item.Failure? {
      ProcessStopped(counter0, files, i + 1, sidecars);
      return Some(item.error), items, pages;
    }
    var page := WriteDetailPage(template, item.value);
    DetailPagesSnoc(template, items, item.value);
    thrown, items', pages' := None, items + [item.value], pages + [page];
  }

  /** `writeDetailPage(item)`, with the item's path passed as `originalPath`: the folder and the rendered page. */
  method WriteDetailPage(template: string, it: IP.Item) returns (page: (string, string))
    ensures page == DetailPage(template, it)
  {
    var html := HG.ReplaceTemplateVariables(template, DetailOf(it));
    page := (it.slug, html.value);
  }

  /** One more file, reached without a throw: it is handed the next slug for its base, and its item pushed or its error thrown. */
  lemma ProcessVisit(counter: Counter, files: seq<IP.ImageFile>, i: nat, sidecars: map<string, IP.Meta>)
    requires i < |files| && ProcessSpec(counter, files[..i], sidecars).0.Success?
    ensures var prev := ProcessSpec(counter, files[..i], sidecars);
      var step := Allocate(prev.1, IP.SlugBaseOf(sidecars, files[i]));
      ProcessSpec(counter, files[..i + 1], sidecars) ==
        match IP.MakeItem(sidecars, files[i], step.0)
        case Success(item) => (Success(prev.0.value + [item]), step.1)
        case Failure(msg) => (Failure(msg), step.1)
  {
    Catalogue.RunPrefixSnoc(counter, files, i, Always, IP.BaseFn(sidecars), IP.MakeFn(sidecars));
    var prev := ProcessSpec(counter, files[..i], sidecars);
    var step := Allocate(prev.1, IP.SlugBaseOf(sidecars, files[i]));
    assert IP.MakeFn(sidecars)(files[i], step.0) == IP.MakeItem(sidecars, files[i], step.0);
  }

  /** Once the loop has thrown on the first `i` files, the rest change nothing. */
  lemma ProcessStopped(counter: Counter, files: seq<IP.ImageFile>, i: nat, sidecars: map<string, IP.Meta>)
    requires i <= |files| && ProcessSpec(counter, files[..i], sidecars).0.Failure?
    ensures ProcessSpec(counter, files, sidecars) == ProcessSpec(counter, files[..i], sidecars)
  {
    Catalogue.RunPrefixFailure(counter, files, i, Always, IP.BaseFn(sidecars), IP.MakeFn(sidecars));
  }

  lemma DetailPagesSnoc(template: string, items: seq<IP.Item>, it: IP.Item)
    ensures DetailPages(template, items + [it]) == DetailPages(template, items) + [DetailPage(template, it)]
  {
    assert (items + [it])[..|items|] == items;
  }

  /**
   * The script's own call, `writeDetailPage(item)` on the processed item: the generator reads
   * `originalPath`, which processed items do not have.
   */
  function DetailPageAsWritten(template: string, it: IP.Item): Result<string, string> {
    HG.DetailHtml(template, HG.FromProcessed(it))
  }

  /** The processing loop as written: each processed item's page must render too. */
  function WrittenFn(sidecars: map<string, IP.Meta>, template: string): (IP.ImageFile, string) -> Result<IP.Item, string> {
    (f, slug) =>
      match IP.MakeItem(sidecars, f, slug)
      case Failure(e) => Failure(e)
      case Success(it) =>
        match DetailPageAsWritten(template, it)
        case Failure(e) => Failure(e)
        case Success(_) => Success(it)
  }

  /** As written, the processing loop throws on the first file it is given, whatever that file is. */
  lemma ProcessAsWrittenFails(counter: Counter, files: seq<IP.ImageFile>, sidecars: map<string, IP.Meta>,
                              template: string)
    requires files != []
    ensures Catalogue.Run(counter, files, Always, IP.BaseFn(sidecars), WrittenFn(sidecars, template)).0.Failure?
  {
    WrittenFnFails(sidecars, template);
    Catalogue.RunFailsIff(counter, files, Always, IP.BaseFn(sidecars), WrittenFn(sidecars, template), Never);
    AcceptedAlways(files);
    assert !Never(files[0]);
  }

  /** As written, no file's item survives its page being written. */
  lemma WrittenFnFails(sidecars: map<string, IP.Meta>, template: string)
    ensures forall f, slug :: WrittenFn(sidecars, template)(f, slug).Failure?
  {
    forall f, slug ensures WrittenFn(sidecars, template)(f, slug).Failure? {
      var made := IP.MakeItem(sidecars, f, slug);
      if made.Success? {
        HG.ProcessedItemsFail(template, made.value);
      }
    }
  }

  predicate Never(f: IP.ImageFile) {
    false
  }

  // ---------------------------------------------------------------- cleanupDeletedItems

  /** The folders `cleanupDeletedItems` removes: those of the deleted items that have a slug, in order. */
  function CleanupTargets(deleted: seq<Gone>): seq<string>
    decreases |deleted|
  {
    if deleted == [] then []
    else
      var g := deleted[|deleted| - 1];
      CleanupTargets(deleted[..|deleted| - 1]) + if g.item.Some? && g.item.value.slug != "" then [g.item.value.slug] else []
  }

  /** `cleanupDeletedItems(deleted)`: the item folders it removes (a failed removal only warns). */
  method CleanupDeletedItems(deleted: seq<Gone>) returns (removed: seq<string>)
    ensures removed == CleanupTargets(deleted)
  {
    removed := [];
    var i := 0;
    while i < |deleted|
      invariant 0 <= i <= |deleted|
      invariant removed == CleanupTargets(deleted[..i])
    {
      assert deleted[..i + 1][..i] == deleted[..i];
      var g := deleted[i];
      if g.item.Some? && g.item.value.slug != "" {
        removed := removed + [g.item.value.slug];
      }
      i := i + 1;
    }
    assert deleted[..i] == deleted;
  }

  /** A folder is removed exactly when it is the slug of a deleted entry's item; an entry without item or slug is left alone. */
  lemma {:induction false} CleanupMembers(deleted: seq<Gone>, s: string)
    ensures s in CleanupTargets(deleted) <==> s != "" && exists g :: g in deleted && g.item.Some? && g.item.value.slug == s
    decreases |deleted|
  {
    if deleted != [] {
      var init := deleted[..|deleted| - 1];
      assert deleted == init + [deleted[|deleted| - 1]];
      CleanupMembers(init, s);
    }
  }

  // ---------------------------------------------------------------- the new cache

  /** `allItems.find(item => item.file === file)`: the first item with that `file`. */
  function FindByFile(items: seq<IP.Item>, file: string): (r: Option<IP.Item>)
    ensures r.Some? ==> r.value in items && r.value.file == file
    ensures r.None? ==> forall it :: it in items ==> it.file != file
  {
    if items == [] then None
    else if items[0].file == file then Some(items[0])
    else FindByFile(items[1..], file)
  }

  /** The entry the rebuild loop sets for a current file. */
  function EntryOf(f: Found, manifest: seq<IP.Item>): (string, CacheEntry) {
    (PathOf(f), CacheEntry(f.hash, f.lastModified, FindByFile(manifest, "assets/" + PathOf(f))))
  }

  /** The entries set, one per current file, in order. */
  function EntryPairs(current: seq<Found>, manifest: seq<IP.Item>): (r: seq<(string, CacheEntry)>)
    ensures |r| == |current|
    decreases |current|
  {
    if current == [] then []
    else EntryPairs(current[..|current| - 1], manifest) + [EntryOf(current[|current| - 1], manifest)]
  }

  /** `newCache.files` after the rebuild loop. */
  function NewFiles(current: seq<Found>, manifest: seq<IP.Item>): Entries<CacheEntry> {
    PutAll([], EntryPairs(current, manifest))
  }

  /** The rebuild loop: `newCache.files[filePath] = { hash, lastModified, item }` for every current file. */
  method RebuildCacheFiles(current: seq<Found>, manifest: seq<IP.Item>) returns (files: Entries<CacheEntry>)
    ensures files == NewFiles(current, manifest)
  {
    files := [];
    var i := 0;
    while i < |current|
      invariant 0 <= i <= |current|
      invariant files == PutAll([], EntryPairs(current[..i], manifest))
    {
      assert current[..i + 1][..i] == current[..i];
      var f := current[i];
      var item := FindByFile(manifest, "assets/" + PathOf(f));
      files := Put(files, PathOf(f), CacheEntry(f.hash, f.lastModified, item));
      i := i + 1;
    }
    assert current[..i] == current;
  }

  /** The keys of the pairs are the current paths. */
  lemma {:induction false} EntryPairsKeys(current: seq<Found>, manifest: seq<IP.Item>)
    ensures Keys(EntryPairs(current, manifest)) == PathsOf(current)
    decreases |current|
  {
    if current != [] {
      EntryPairsKeys(current[..|current| - 1], manifest);
    }
  }

  /** The new cache has an entry for exactly the current paths, in walk order; deleted paths are gone. */
  lemma NewFilesKeys(current: seq<Found>, manifest: seq<IP.Item>)
    ensures Keys(NewFiles(current, manifest)) == Dedup(PathsOf(current))
  {
    PutAllKeys([], EntryPairs(current, manifest));
    EntryPairsKeys(current, manifest);
    assert Keys<CacheEntry>([]) == [];
  }

  /** With distinct paths, the last pair for a current file's path is that file's own entry. */
  lemma {:induction false} LastWithEntry(current: seq<Found>, manifest: seq<IP.Item>, i: nat)
    requires i < |current| && Distinct(PathsOf(current))
    ensures LastWith(EntryPairs(current, manifest), PathOf(current[i])) == Some(EntryOf(current[i], manifest).1)
    decreases |current|
  {
    var init := current[..|current| - 1];
    if i < |current| - 1 {
      assert PathOf(current[|current| - 1]) != PathOf(current[i]) by {
        assert PathsOf(current)[i] != PathsOf(current)[|current| - 1];
      }
      assert Distinct(PathsOf(init)) by {
        assert forall k :: 0 <= k < |init| ==> PathsOf(init)[k] == PathsOf(current)[k];
      }
      LastWithEntry(init, manifest, i);
      assert init[i] == current[i];
    }
  }

  /** Each current file's entry records its hash, its modification time and its item from the manifest. */
  lemma NewFilesFind(current: seq<Found>, manifest: seq<IP.Item>, i: nat)
    requires i < |current| && Distinct(PathsOf(current))
    ensures Find(NewFiles(current, manifest), PathOf(current[i]))
         == Some(CacheEntry(current[i].hash, current[i].lastModified, FindByFile(manifest, "assets/" + PathOf(current[i]))))
  {
    PutAllFind([], EntryPairs(current, manifest), PathOf(current[i]));
    LastWithEntry(current, manifest, i);
  }

  // ---------------------------------------------------------------- incrementalBuild

  /** What the build reads besides the cache and the walk: the sidecars, the detail template, `GITHUB_REPOSITORY` and the clock. */
  datatype Inputs = Inputs(sidecars: map<string, IP.Meta>, template: string, env: Option<string>, now: string)

  /**
   * What a build that runs to the end writes: the detail pages (folder and page), the item
   * folders it removes, the manifest's items, the sitemap and the new cache.
   */
  datatype Output = Output(pages: seq<(string, string)>, removed: seq<string>, manifest: seq<IP.Item>,
                           sitemap: string, cache: Cache)

  /** What `generateRoutes` throws on an unchanged file whose cache entry has no item. */
  const UndefinedItem: string := "TypeError: Cannot read properties of undefined (reading 'file')"

  /** Nothing was added, modified or deleted: the build stops there. */
  predicate Quiet(c: Changes) {
    |c.added| == 0 && |c.modified| == 0 && |c.deleted| == 0
  }

  predicate AllPresent(items: seq<Option<IP.Item>>) {
    forall i :: 0 <= i < |items| ==> items[i].Some?
  }

  function Unwrap(items: seq<Option<IP.Item>>): (r: seq<IP.Item>)
    requires AllPresent(items)
    ensures |r| == |items| && forall i :: 0 <= i < |items| ==> items[i] == Some(r[i])
  {
    seq(|items|, i requires 0 <= i < |items| => items[i].value)
  }

  /** What the sitemap's routes need of each manifest item. */
  function PagesOf(manifest: seq<IP.Item>): (r: seq<SitemapJs.Page>)
    ensures |r| == |manifest| && forall i :: 0 <= i < |manifest| ==> r[i] == SitemapJs.Page(manifest[i].file, manifest[i].slug)
  {
    seq(|manifest|, i requires 0 <= i < |manifest| => SitemapJs.Page(manifest[i].file, manifest[i].slug))
  }

  /** The slug counter the processing loop starts from: a new generator seeded from `existingItems`. */
  function StartCounter(cache: Cache, c: Changes): Counter {
    Seeded(map[], UntouchedThen(c.untouched, cache.items))
  }

  /** The steps after the processing loop: cleanup, manifest, sitemap and cache. */
  function Finish(current: seq<Found>, c: Changes, processed: seq<IP.Item>, inp: Inputs): Result<Option<Output>, string> {
    var all := UntouchedThen(c.untouched, processed);
    if !AllPresent(all) then Failure(UndefinedItem)
    else
      var manifest := Unwrap(all);
      var routes := SitemapJs.Routes(SitemapJs.GetBaseUrl(inp.env), PagesOf(manifest));
      Success(Some(Output(DetailPages(inp.template, processed), CleanupTargets(c.deleted), manifest,
                          SitemapJs.GenerateSitemapXml(routes), Cache(Some(inp.now), NewFiles(current, manifest), manifest))))
  }

  /**
   * What the corrected `incrementalBuild()` does: `Success(None)` when it stops for want of changes,
   * `Success(Some(out))` when it runs to the end, `Failure` when it throws (and exits with 1).
   * It assumes scripts/image-processor.mjs declares `loadMetadata` once, so that the script loads
   * (`ScriptRun`).
   */
  function Build(cache: Cache, walk: seq<Found>, inp: Inputs): Result<Option<Output>, string> {
    var current := Catalogue.Accepted(walk, Listed);
    var c := Detect(cache.files, current);
    if Quiet(c) then Success(None)
    else
      match ProcessSpec(StartCounter(cache, c), ToProcess(c), inp.sidecars).0
      case Failure(e) => Failure(e)
      case Success(processed) => Finish(current, c, processed, inp)
  }

  /** The steps of `incrementalBuild()` after the processing loop. */
  method FinishBuild(current: seq<Found>, changes: Changes, processed: seq<IP.Item>,
                     pages: seq<(string, string)>, inp: Inputs) returns (r: Result<Option<Output>, string>)
    requires pages == DetailPages(inp.template, processed)
    ensures r == Finish(current, changes, processed, inp)
  {
    var removed: seq<string> := [];
    if |changes.deleted| > 0 {
      removed := CleanupDeletedItems(changes.deleted);
    }
    var all := UntouchedThen(changes.untouched, processed);
    if !AllPresent(all) {
      return Failure(UndefinedItem);
    }
    var manifest := Unwrap(all);
    var routes := SitemapJs.GenerateRoutes(SitemapJs.GetBaseUrl(inp.env), PagesOf(manifest));
    var sitemap := SitemapJs.GenerateSitemapXml(routes);
    var files := RebuildCacheFiles(current, manifest);
    r := Success(Some(Output(pages, removed, manifest, sitemap, Cache(Some(inp.now), files, manifest))));
  }

  /**
   * `incrementalBuild()`, with the detail pages rendered from the item's own path. Like `Build`,
   * it assumes a single `loadMetadata` in scripts/image-processor.mjs.
   */
  method IncrementalBuildRun(cache: Cache, walk: seq<Found>, inp: Inputs) returns (r: Result<Option<Output>, string>)
    ensures r == Build(cache, walk, inp)
  {
    var current := GetAllImageFiles(walk);
    var changes := DetectChangedFiles(cache, current);
    if |changes.added| == 0 && |changes.modified| == 0 && |changes.deleted| == 0 {
      return Success(None);
    }
    var slugGenerator := new SlugGenerator();
    SeedSlugs(slugGenerator, UntouchedThen(changes.untouched, cache.items));
    var processed, pages := ProcessChanged(ToProcess(changes), inp.sidecars, inp.template, slugGenerator);
    if processed.Failure? {
      return Failure(processed.error);
    }
    r := FinishBuild(current, changes, processed.value, pages, inp);
  }

  /**
   * Running the script: it imports `processImage` (line 14), so the module whose top level binds
   * `processorNames` must load first; when it does not, the script throws before
   * `incrementalBuild()` is called.
   */
  function ScriptRun(processorNames: seq<string>, cache: Cache, walk: seq<Found>, inp: Inputs): Result<Option<Output>, string> {
    match IP.LoadModule(processorNames)
    case Failure(e) => Failure(e)
    case Success(_) => Build(cache, walk, inp)
  }

  /** As written, every run fails with the redeclaration of `loadMetadata`, whatever the cache and the files. */
  lemma ScriptAsWrittenFails(cache: Cache, walk: seq<Found>, inp: Inputs)
    ensures ScriptRun(IP.TopLevelNames, cache, walk, inp) == Failure(IP.RedeclarationError("loadMetadata"))
  {
    IP.ModuleDoesNotLoad();
  }

  /** With the duplicate removed, a run is the build `Build` describes. */
  lemma CorrectedScriptBuilds(cache: Cache, walk: seq<Found>, inp: Inputs)
    ensures ScriptRun(IP.CorrectedTopLevelNames, cache, walk, inp) == Build(cache, walk, inp)
  {
    IP.CorrectedModuleLoads();
  }

  // ---------------------------------------------------------------- what a build promises

  /** The items of a completed processing loop: one per changed file, in order, each at `assets/<rel>`. */
  lemma ProcessedItems(counter: Counter, files: seq<IP.ImageFile>, sidecars: map<string, IP.Meta>)
    requires ProcessSpec(counter, files, sidecars).0.Success?
    ensures var items := ProcessSpec(counter, files, sidecars).0.value;
      var slugs := AllocateAll(counter, Catalogue.Bases(files, IP.BaseFn(sidecars))).0;
      && |items| == |files|
      && forall j :: 0 <= j < |files| ==>
           files[j].facts.Some? && items[j].file == "assets/" + files[j].rel && items[j].slug == slugs[j]
  {
    Catalogue.RunItems(counter, files, Always, IP.BaseFn(sidecars), IP.MakeFn(sidecars));
    AcceptedAlways(files);
    var items := ProcessSpec(counter, files, sidecars).0.value;
    var slugs := AllocateAll(counter, Catalogue.Bases(files, IP.BaseFn(sidecars))).0;
    forall j | 0 <= j < |files|
      ensures files[j].facts.Some? && items[j].file == "assets/" + files[j].rel && items[j].slug == slugs[j]
    {
      assert IP.MakeFn(sidecars)(files[j], slugs[j]) == IP.MakeItem(sidecars, files[j], slugs[j]);
      IP.DeriveItemFields(files[j].rel, IP.LoadMetadata(sidecars, files[j].rel), files[j].facts.value, slugs[j]);
    }
  }

  /** Some file cannot be decoded. */
  predicate Undecodable(files: seq<IP.ImageFile>) {
    exists j :: 0 <= j < |files| && files[j].facts.None?
  }

  /** The processing loop throws exactly when some changed file cannot be decoded. */
  lemma ProcessFails(counter: Counter, files: seq<IP.ImageFile>, sidecars: map<string, IP.Meta>)
    ensures ProcessSpec(counter, files, sidecars).0.Failure? <==> Undecodable(files)
  {
    IP.MakeFnSucceeds(sidecars);
    AcceptedAlways(files);
    Catalogue.RunFailsIff(counter, files, Always, IP.BaseFn(sidecars), IP.MakeFn(sidecars), IP.Decoded);
  }

  /** The build stops without writing anything exactly when nothing was added, modified or deleted. */
  lemma BuildSkips(cache: Cache, walk: seq<Found>, inp: Inputs)
    ensures Build(cache, walk, inp) == Success(None) <==> Quiet(Detect(cache.files, Catalogue.Accepted(walk, Listed)))
  {
    var current := Catalogue.Accepted(walk, Listed);
    var c := Detect(cache.files, current);
    if !Quiet(c) {
      match ProcessSpec(StartCounter(cache, c), ToProcess(c), inp.sidecars).0
      case Failure(e) =>
      case Success(processed) =>
        assert Finish(current, c, processed, inp) != Success(None);
    }
  }

  /** A cached unchanged file carries the item a coherent cache holds for its path. */
  lemma UntouchedCached(cache: Cache, current: seq<Found>, i: nat)
    requires Coherent(cache)
    requires i < |Detect(cache.files, current).untouched|
    ensures var ch := Detect(cache.files, current).untouched[i];
      ch.found in current && ch.cached.Some? && ch.cached.value.file == "assets/" + PathOf(ch.found)
  {
    var ch := Detect(cache.files, current).untouched[i];
    ClassifiedMembers(cache.files, current, ch.found, ch);
    var e := Find(cache.files, PathOf(ch.found)).value;
    assert (PathOf(ch.found), e) in cache.files;
  }

  /** Some item of `all` is the one at `file`. */
  predicate Covers(all: seq<Option<IP.Item>>, file: string) {
    exists k :: 0 <= k < |all| && all[k].Some? && all[k].value.file == file
  }

  /** The processed items are those of the changed files, at `assets/<rel>`. */
  predicate ProcessedAt(c: Changes, processed: seq<IP.Item>) {
    var files := ToProcess(c);
    |processed| == |files| && forall j :: 0 <= j < |files| ==> processed[j].file == "assets/" + files[j].rel
  }

  /** The manifest lists the processed items after the untouched ones, so a processed file's item is in it. */
  lemma ProcessedListed(c: Changes, processed: seq<IP.Item>, j: nat)
    requires ProcessedAt(c, processed) && j < |processed|
    ensures Covers(UntouchedThen(c.untouched, processed), "assets/" + ToProcess(c)[j].rel)
  {
    var all := UntouchedThen(c.untouched, processed);
    var k := |c.untouched| + j;
    assert all[k] == Some(processed[j]);
    assert processed[j].file == "assets/" + ToProcess(c)[j].rel;
    assert 0 <= k < |all| && all[k].Some? && all[k].value.file == "assets/" + ToProcess(c)[j].rel;
  }

  /** An added file's item is in the manifest. */
  lemma AddedCovered(c: Changes, processed: seq<IP.Item>, i: nat)
    requires ProcessedAt(c, processed) && i < |c.added|
    ensures Covers(UntouchedThen(c.untouched, processed), "assets/" + PathOf(c.added[i]))
  {
    ProcessedListed(c, processed, i);
  }

  /** A modified file's item is in the manifest: the processed one, after the added ones. */
  lemma ModifiedCovered(c: Changes, processed: seq<IP.Item>, i: nat)
    requires ProcessedAt(c, processed) && i < |c.modified|
    ensures Covers(UntouchedThen(c.untouched, processed), "assets/" + PathOf(c.modified[i].found))
  {
    assert ToProcess(c)[|c.added| + i] == c.modified[i].found.file;
    ProcessedListed(c, processed, |c.added| + i);
  }

  /** An unchanged file's item is in the manifest: the one a coherent cache holds for it. */
  lemma UntouchedCovered(cache: Cache, current: seq<Found>, processed: seq<IP.Item>, i: nat)
    requires Coherent(cache)
    requires i < |Detect(cache.files, current).untouched|
    ensures var c := Detect(cache.files, current);
      Covers(UntouchedThen(c.untouched, processed), "assets/" + PathOf(c.untouched[i].found))
  {
    var c := Detect(cache.files, current);
    UntouchedCached(cache, current, i);
    assert UntouchedThen(c.untouched, processed)[i] == c.untouched[i].cached;
  }

  /** The items of a completed processing loop are those of the changed files. */
  lemma ProcessedItemsAt(counter: Counter, c: Changes, sidecars: map<string, IP.Meta>)
    requires ProcessSpec(counter, ToProcess(c), sidecars).0.Success?
    ensures ProcessedAt(c, ProcessSpec(counter, ToProcess(c), sidecars).0.value)
  {
    ProcessedItems(counter, ToProcess(c), sidecars);
  }

  /** Every current file has its item in the manifest a build writes from a coherent cache. */
  lemma FileCovered(cache: Cache, current: seq<Found>, processed: seq<IP.Item>, f: Found)
    requires Coherent(cache)
    requires ProcessedAt(Detect(cache.files, current), processed)
    requires f in current
    ensures Covers(UntouchedThen(Detect(cache.files, current).untouched, processed), "assets/" + PathOf(f))
  {
    var c := Detect(cache.files, current);
    var ch := Change(f, CachedItem(cache.files, f));
    ClassifiedMembers(cache.files, current, f, ch);
    match ClassOf(cache.files, f)
    case Added =>
      var i :| 0 <= i < |c.added| && c.added[i] == f;
      AddedCovered(c, processed, i);
    case Modified =>
      var i :| 0 <= i < |c.modified| && c.modified[i] == ch;
      ModifiedCovered(c, processed, i);
    case Unchanged =>
      var i :| 0 <= i < |c.untouched| && c.untouched[i] == ch;
      UntouchedCovered(cache, current, processed, i);
  }

  /** Each pair the rebuild loop sets is the entry of some current file. */
  lemma {:induction false} EntryPairsFrom(current: seq<Found>, manifest: seq<IP.Item>, p: (string, CacheEntry))
    requires p in EntryPairs(current, manifest)
    ensures exists f :: f in current && p == EntryOf(f, manifest)
    decreases |current|
  {
    var init := current[..|current| - 1];
    var last := current[|current| - 1];
    if p != EntryOf(last, manifest) {
      EntryPairsFrom(init, manifest, p);
      var f :| f in init && p == EntryOf(f, manifest);
      assert f in current;
    }
  }

  /** An item of `all` at `file` is found by `file` in the unwrapped manifest. */
  lemma CoversFound(all: seq<Option<IP.Item>>, file: string)
    requires AllPresent(all) && Covers(all, file)
    ensures FindByFile(Unwrap(all), file).Some?
  {
    var k :| 0 <= k < |all| && all[k].Some? && all[k].value.file == file;
    assert Unwrap(all)[k] in Unwrap(all);
  }

  /** When every current file's item is in the manifest, the rebuilt cache is coherent. */
  lemma NewFilesCoherent(current: seq<Found>, manifest: seq<IP.Item>, lastBuild: Option<string>)
    requires forall f :: f in current ==> FindByFile(manifest, "assets/" + PathOf(f)).Some?
    ensures Coherent(Cache(lastBuild, NewFiles(current, manifest), manifest))
  {
    forall p, e | (p, e) in NewFiles(current, manifest)
      ensures e.item.Some? && e.item.value.file == "assets/" + p
    {
      PutAllFrom([], EntryPairs(current, manifest), (p, e));
      EntryPairsFrom(current, manifest, (p, e));
    }
  }

  /** From a coherent cache every untouched file carries its item, so none is undefined. */
  lemma CoherentAllPresent(cache: Cache, current: seq<Found>, processed: seq<IP.Item>)
    requires Coherent(cache)
    ensures AllPresent(UntouchedThen(Detect(cache.files, current).untouched, processed))
  {
    var c := Detect(cache.files, current);
    var all := UntouchedThen(c.untouched, processed);
    forall k | 0 <= k < |all| ensures all[k].Some? {
      if k < |c.untouched| {
        UntouchedCached(cache, current, k);
      }
    }
  }

  /** After a completed processing loop, a build from a coherent cache runs to the end and writes a coherent cache. */
  lemma FinishCoherent(cache: Cache, current: seq<Found>, processed: seq<IP.Item>, inp: Inputs)
    requires Coherent(cache)
    requires ProcessedAt(Detect(cache.files, current), processed)
    ensures var r := Finish(current, Detect(cache.files, current), processed, inp);
      r.Success? && r.value.Some? && Coherent(r.value.value.cache)
  {
    var c := Detect(cache.files, current);
    var all := UntouchedThen(c.untouched, processed);
    CoherentAllPresent(cache, current, processed);
    var manifest := Unwrap(all);
    forall f | f in current ensures FindByFile(manifest, "assets/" + PathOf(f)).Some? {
      FileCovered(cache, current, processed, f);
      CoversFound(all, "assets/" + PathOf(f));
    }
    NewFilesCoherent(current, manifest, Some(inp.now));
  }

  /**
   * A build from a coherent cache (an empty one, or one a build wrote) throws only when a
   * changed file cannot be decoded — never the `TypeError` of an undefined item — and when it
   * runs to the end, the cache it writes is coherent again.
   */
  lemma BuildCoherent(cache: Cache, walk: seq<Found>, inp: Inputs)
    requires Coherent(cache)
    ensures var c := Detect(cache.files, Catalogue.Accepted(walk, Listed));
      Build(cache, walk, inp).Failure? ==> Undecodable(ToProcess(c))
    ensures Build(cache, walk, inp).Success? && Build(cache, walk, inp).value.Some? ==>
      Coherent(Build(cache, walk, inp).value.value.cache)
  {
    var current := Catalogue.Accepted(walk, Listed);
    var c := Detect(cache.files, current);
    if !Quiet(c) {
      var counter := StartCounter(cache, c);
      var run := ProcessSpec(counter, ToProcess(c), inp.sidecars).0;
      if run.Success? {
        ProcessedItemsAt(counter, c, inp.sidecars);
        FinishCoherent(cache, current, run.value, inp);
        assert Build(cache, walk, inp) == Finish(current, c, run.value, inp);
      } else {
        ProcessFails(counter, ToProcess(c), inp.sidecars);
        assert Build(cache, walk, inp).Failure?;
      }
    }
  }

  /**
   * When an unchanged file's cache entry holds no item, a build that gets past the processing
   * loop throws the `TypeError` of the undefined item.
   */
  lemma BuildUndefinedItem(cache: Cache, walk: seq<Found>, inp: Inputs, i: nat)
    requires var c := Detect(cache.files, Catalogue.Accepted(walk, Listed));
      && !Quiet(c) && !Undecodable(ToProcess(c))
      && i < |c.untouched| && c.untouched[i].cached.None?
    ensures Build(cache, walk, inp) == Failure(UndefinedItem)
  {
    var current := Catalogue.Accepted(walk, Listed);
    var c := Detect(cache.files, current);
    var counter := StartCounter(cache, c);
    ProcessFails(counter, ToProcess(c), inp.sidecars);
    var processed := ProcessSpec(counter, ToProcess(c), inp.sidecars).0.value;
    assert UntouchedThen(c.untouched, processed)[i].None?;
    assert Build(cache, walk, inp) == Finish(current, c, processed, inp);
  }

  /**
   * What a completed build writes: the untouched files' cached items in walk order, then one
   * item per added and per modified file at `assets/<rel>`, a detail page under each processed
   * item's slug, and a cache with one entry per current path.
   */
  predicate Writes(current: seq<Found>, c: Changes, o: Output) {
    var files := ToProcess(c);
    && |o.manifest| == |c.untouched| + |files|
    && (forall i :: 0 <= i < |c.untouched| ==> c.untouched[i].cached == Some(o.manifest[i]))
    && (forall j :: 0 <= j < |files| ==> o.manifest[|c.untouched| + j].file == "assets/" + files[j].rel)
    && |o.pages| == |files|
    && (forall j :: 0 <= j < |files| ==> o.pages[j].0 == o.manifest[|c.untouched| + j].slug)
    && Keys(o.cache.files) == Dedup(PathsOf(current))
  }

  /** The steps after the loop write the manifest, the pages and the cache `Writes` describes. */
  lemma FinishManifest(current: seq<Found>, c: Changes, processed: seq<IP.Item>, inp: Inputs)
    requires ProcessedAt(c, processed)
    requires Finish(current, c, processed, inp).Success? && Finish(current, c, processed, inp).value.Some?
    ensures Writes(current, c, Finish(current, c, processed, inp).value.value)
  {
    var o := Finish(current, c, processed, inp).value.value;
    var all := UntouchedThen(c.untouched, processed);
    forall j | 0 <= j < |processed| ensures o.manifest[|c.untouched| + j] == processed[j] {
      assert all[|c.untouched| + j] == Some(processed[j]);
    }
    forall j | 0 <= j < |processed| ensures o.pages[j].0 == processed[j].slug {
      DetailPagesAt(inp.template, processed, j);
    }
    NewFilesKeys(current, o.manifest);
  }

  /** A completed build writes what `Writes` describes of the detected changes. */
  lemma BuildManifest(cache: Cache, walk: seq<Found>, inp: Inputs)
    requires Build(cache, walk, inp).Success? && Build(cache, walk, inp).value.Some?
    ensures var current := Catalogue.Accepted(walk, Listed);
      Writes(current, Detect(cache.files, current), Build(cache, walk, inp).value.value)
  {
    var current := Catalogue.Accepted(walk, Listed);
    var c := Detect(cache.files, current);
    var counter := StartCounter(cache, c);
    var processed := ProcessSpec(counter, ToProcess(c), inp.sidecars).0.value;
    ProcessedItemsAt(counter, c, inp.sidecars);
    assert Build(cache, walk, inp) == Finish(current, c, processed, inp);
    FinishManifest(current, c, processed, inp);
  }

  /** With no cache (or an unreadable one) every listed file is added, and that empty cache is coherent. */
  lemma {:induction false} FirstBuild(current: seq<Found>)
    ensures Detect(EmptyCache.files, current) == Changes(current, [], [], [])
    ensures Coherent(EmptyCache)
    decreases |current|
  {
    if current != [] {
      var init := current[..|current| - 1];
      FirstBuild(init);
      assert current == init + [current[|current| - 1]];
    }
  }
}
