/**
 * `TagSystem` of scripts/tag-system.mjs: a many-to-many index between images
 * and tag ids. The object holds the tag definitions and the auto-tag rules
 * (insertion-ordered `Map`s, so `forEach` visits them in the order they were
 * first set) and two relations kept as inverses of each other: image id to
 * the set of its tag ids and tag id to the set of its image ids (insertion-
 * ordered `Set`s, held as duplicate-free sequences). The files the loaders
 * read and parse are parameters: a file that cannot be read or parsed is
 * `None`. The read-only queries (`getTagStats`, `getRelatedTags`,
 * `searchTags`) are functions of the field values, which the class's own
 * query functions apply to its fields.
 */
module TagSystems {
  import opened Wrappers
  import opened Text
  import opened Paths
  import opened OrderedMaps
  import opened Ranking

  /** A loaded tag definition. */
  datatype TagInfo = TagInfo(id: string, name: string, description: string, category: string, color: string,
                             aliases: seq<string>, parent: Option<string>, children: seq<string>)

  /**
   * One entry of `tags.json` as parsed. A string field holds "" where it is missing or empty
   * (falsy); a list field is `None` where it is missing (an empty list is truthy).
   */
  datatype TagDef = TagDef(id: string, name: string, description: string, category: string, color: string,
                           aliases: Option<seq<string>>, parent: string, children: Option<seq<string>>)

  const GeneralCategory: string := "general"
  const DefaultColor: string := "#6c757d"

  /** The defaults `loadTagDefinitions` fills in with `||`. */
  function Normalize(d: TagDef): (t: TagInfo)
    ensures t.id == d.id && t.name == d.name && t.description == d.description
    ensures t.category != "" && t.color != ""
    ensures d.category != "" ==> t.category == d.category
    ensures d.color != "" ==> t.color == d.color
    ensures t.parent.Some? <==> d.parent != ""
    ensures d.aliases.Some? ==> t.aliases == d.aliases.value
    ensures d.children.Some? ==> t.children == d.children.value
  {
    assert GeneralCategory[0] == 'g' && DefaultColor[0] == '#';
    TagInfo(d.id, d.name, d.description,
            if d.category == "" then GeneralCategory else d.category,
            if d.color == "" then DefaultColor else d.color,
            d.aliases.GetOr([]),
            if d.parent == "" then None else Some(d.parent),
            d.children.GetOr([]))
  }

  /** A loaded tag written back as a definition, every field present. */
  function DefinitionOf(t: TagInfo): TagDef {
    TagDef(t.id, t.name, t.description, t.category, t.color, Some(t.aliases), t.parent.GetOr(""), Some(t.children))
  }

  /** The defaults are settled: a loaded tag, written back and loaded again, is the same tag. */
  lemma NormalizeSettled(d: TagDef)
    ensures Normalize(DefinitionOf(Normalize(d))) == Normalize(d)
  {
  }

  /** The `tags.set(tag.id, …)` calls of `loadTagDefinitions`, in order. */
  function DefPairs(defs: seq<TagDef>): (r: seq<(string, TagInfo)>)
    ensures |r| == |defs|
    ensures forall i :: 0 <= i < |defs| ==> r[i] == (defs[i].id, Normalize(defs[i]))
  {
    if defs == [] then [] else DefPairs(defs[..|defs| - 1]) + [(defs[|defs| - 1].id, Normalize(defs[|defs| - 1]))]
  }

  /** Every tag is stored under its own id. */
  predicate KeyedById(tags: Entries<TagInfo>) {
    forall i :: 0 <= i < |tags| ==> tags[i].1.id == tags[i].0
  }

  /** Storing a tag under its id keeps every tag under its own id. */
  lemma {:induction false} PutKeyedById(tags: Entries<TagInfo>, t: TagInfo)
    requires KeyedById(tags)
    ensures KeyedById(Put(tags, t.id, t))
    decreases |tags|
  {
    if tags != [] && tags[0].0 != t.id {
      PutKeyedById(tags[1..], t);
    }
  }

  /** A tag found under an id has that id. */
  lemma FindKeyedById(tags: Entries<TagInfo>, k: string)
    requires KeyedById(tags)
    ensures Find(tags, k).Some? ==> Find(tags, k).value.id == k
  {
  }

  // ---------------------------------------------------------------- the auto-tag rules

  const FilenamePrefix: string := "filename:"
  const DirectoryPrefix: string := "directory:"

  /** `loadTagMappings`' file contents: the two objects of patterns, each `{}` where missing. */
  datatype MappingData = MappingData(fileNamePatterns: seq<(string, seq<string>)>,
                                     directoryPatterns: seq<(string, seq<string>)>)

  /** The `tagMappings.set(prefix + pattern, tagIds)` calls for one object of patterns. */
  function RulePairs(prefix: string, patterns: seq<(string, seq<string>)>): (r: seq<(string, seq<string>)>)
    ensures |r| == |patterns|
    ensures forall i :: 0 <= i < |r| ==> r[i] == (prefix + patterns[i].0, patterns[i].1)
  {
    if patterns == [] then []
    else RulePairs(prefix, patterns[..|patterns| - 1])
         + [(prefix + patterns[|patterns| - 1].0, patterns[|patterns| - 1].1)]
  }

  // ---------------------------------------------------------------- the two relations

  datatype Relations = Relations(imageTags: map<string, seq<string>>, tagImages: map<string, seq<string>>)

  /** `m.get(k) || []`. */
  function Get(m: map<string, seq<string>>, k: string): seq<string> {
    if k in m then m[k] else []
  }

  /** t ∈ imageTagRelations[i] exactly when i ∈ tagImageRelations[t]. */
  ghost predicate Inverse(r: Relations) {
    forall i, t :: t in Get(r.imageTags, i) <==> i in Get(r.tagImages, t)
  }

  /** Every value is a set: no element twice. */
  predicate SetValued(m: map<string, seq<string>>) {
    forall k :: k in m ==> Distinct(m[k])
  }

  /** One pass of the `forEach`: `imageTags.add(t)` and `tagImageRelations.get(t).add(img)`. */
  function AssociateStep(r: Relations, img: string, t: string): Relations {
    Relations(r.imageTags[img := Add(Get(r.imageTags, img), t)],
              r.tagImages[t := Add(Get(r.tagImages, t), img)])
  }

  /** `associateImageWithTags(img, ts)` on the relations: the image's entry, then one step per tag. */
  function Associate(r: Relations, img: string, ts: seq<string>): Relations
    decreases |ts|
  {
    if ts == [] then Relations(r.imageTags[img := Get(r.imageTags, img)], r.tagImages)
    else AssociateStep(Associate(r, img, ts[..|ts| - 1]), img, ts[|ts| - 1])
  }

  /**
   * After `associateImageWithTags(img, ts)` an image and a tag are related, in either
   * relation, exactly when they were before or the image is `img` and the tag is in `ts`.
   * The image has an entry even when `ts` is empty.
   */
  lemma {:induction false} AssociateLinks(r: Relations, img: string, ts: seq<string>, i: string, t: string)
    ensures var a := Associate(r, img, ts);
            && (t in Get(a.imageTags, i) <==> t in Get(r.imageTags, i) || (i == img && t in ts))
            && (i in Get(a.tagImages, t) <==> i in Get(r.tagImages, t) || (i == img && t in ts))
            && img in a.imageTags
    decreases |ts|
  {
    if ts != [] {
      var init := ts[..|ts| - 1];
      AssociateLinks(r, img, init, i, t);
      assert t in ts <==> t in init || t == ts[|ts| - 1];
    }
  }

  /** `associateImageWithTags` keeps the two relations inverse to each other. */
  lemma AssociateInverse(r: Relations, img: string, ts: seq<string>)
    requires Inverse(r)
    ensures Inverse(Associate(r, img, ts))
  {
    var a := Associate(r, img, ts);
    forall i, t ensures t in Get(a.imageTags, i) <==> i in Get(a.tagImages, t) {
      AssociateLinks(r, img, ts, i, t);
    }
  }

  /** `Add` keeps a sequence free of duplicates. */
  lemma AddDistinct(s: seq<string>, x: string)
    requires Distinct(s)
    ensures Distinct(Add(s, x))
  {
    assert AddAll(s, [x]) == Add(AddAll(s, []), x);
  }

  /** The relations stay set-valued. */
  lemma {:induction false} AssociateSetValued(r: Relations, img: string, ts: seq<string>)
    requires SetValued(r.imageTags) && SetValued(r.tagImages)
    ensures var a := Associate(r, img, ts);
            SetValued(a.imageTags) && SetValued(a.tagImages)
    decreases |ts|
  {
    if ts != [] {
      var p := Associate(r, img, ts[..|ts| - 1]);
      AssociateSetValued(r, img, ts[..|ts| - 1]);
      AddDistinct(Get(p.imageTags, img), ts[|ts| - 1]);
      AddDistinct(Get(p.tagImages, ts[|ts| - 1]), img);
    }
  }

  // ---------------------------------------------------------------- generateAutoTags and processImage

  /**
   * Whether the rule stored under `key` fires: `filename:` rules test the lower-cased file name,
   * `directory:` rules the lower-cased directory, each for the text after the prefix.
   */
  predicate RuleMatches(key: string, fileName: string, dirPath: string) {
    if StartsWith(key, FilenamePrefix) then Contains(fileName, key[|FilenamePrefix|..])
    else StartsWith(key, DirectoryPrefix) && Contains(dirPath, key[|DirectoryPrefix|..])
  }

  /** The tag ids of the rules that fire, in rule order. */
  function RuleTags(rules: Entries<seq<string>>, fileName: string, dirPath: string): (r: seq<string>)
    ensures forall t :: t in r <==> exists e :: e in rules && RuleMatches(e.0, fileName, dirPath) && t in e.1
  {
    if rules == [] then []
    else
      var rest := RuleTags(rules[1..], fileName, dirPath);
      assert forall e :: e in rules <==> e == rules[0] || e in rules[1..];
      (if RuleMatches(rules[0].0, fileName, dirPath) then rules[0].1 else []) + rest
  }

  /** `generateAutoTags(imagePath)`: the tag ids of the firing rules, each once. */
  function AutoTags(rules: Entries<seq<string>>, imagePath: string): (r: seq<string>)
    ensures Distinct(r)
    ensures forall t :: t in r <==>
              exists e :: e in rules && RuleMatches(e.0, Lower(Basename(imagePath)), Lower(Dirname(imagePath)))
                          && t in e.1
  {
    Dedup(RuleTags(rules, Lower(Basename(imagePath)), Lower(Dirname(imagePath))))
  }

  /** What `processImage` returns. */
  datatype Processed = Processed(imageId: string, tags: seq<string>, manualTags: seq<string>, autoTags: seq<string>)

  /** `list.filter(tagId => this.tags.has(tagId))`. */
  function Defined(tags: Entries<TagInfo>, ids: seq<string>): seq<string> {
    Filter(ids, (t: string) => Find(tags, t).Some?)
  }

  /**
   * `processImage(imagePath, imageId)` apart from the relation update, `manual` being
   * `metadata?.tags || []`: the sidecar's tags and the auto tags, each once, the defined ones kept.
   */
  function ProcessResult(tags: Entries<TagInfo>, rules: Entries<seq<string>>, imagePath: string, imageId: string,
                         manual: seq<string>): Processed
  {
    var auto := AutoTags(rules, imagePath);
    Processed(imageId, Defined(tags, Dedup(manual + auto)), manual, Defined(tags, auto))
  }

  /**
   * The tags `processImage` records are the sidecar's and the auto tags, each once and sidecar
   * tags first, restricted to the defined ids.
   */
  lemma ProcessedTags(tags: Entries<TagInfo>, rules: Entries<seq<string>>, imagePath: string, imageId: string,
                      manual: seq<string>)
    ensures var p := ProcessResult(tags, rules, imagePath, imageId, manual);
            && Distinct(p.tags)
            && (forall t :: t in p.tags <==> (t in manual || t in AutoTags(rules, imagePath)) && t in Keys(tags))
            && (forall t :: t in p.autoTags <==> t in AutoTags(rules, imagePath) && t in Keys(tags))
  {
    var all := Dedup(manual + AutoTags(rules, imagePath));
    FilterDistinct(all, (t: string) => Find(tags, t).Some?);
  }

  // ---------------------------------------------------------------- getTagStats

  /** One entry of `getTagStats()`: the tag's fields and `imageCount`. */
  datatype TagStat = TagStat(info: TagInfo, imageCount: nat)

  function CountKey(s: TagStat): (int, int) {
    (s.imageCount, 0)
  }

  /** The stats in the order `tags.forEach` visits the tags, before sorting. */
  function StatsInOrder(tags: Entries<TagInfo>, tagImages: map<string, seq<string>>): (r: seq<TagStat>)
    ensures |r| == |tags|
    ensures forall i :: 0 <= i < |tags| ==> r[i] == TagStat(tags[i].1, |Get(tagImages, tags[i].0)|)
  {
    seq(|tags|, i requires 0 <= i < |tags| => TagStat(tags[i].1, |Get(tagImages, tags[i].0)|))
  }

  /** `getTagStats()`: the stats sorted by `imageCount`, highest first. */
  function TagStats(tags: Entries<TagInfo>, tagImages: map<string, seq<string>>): seq<TagStat> {
    SortDesc(StatsInOrder(tags, tagImages), CountKey)
  }

  /** `getTagStats()` has one entry per defined tag, whose `imageCount` is the size of the tag's image set. */
  lemma TagStatsEntries(tags: Entries<TagInfo>, tagImages: map<string, seq<string>>)
    ensures var r := TagStats(tags, tagImages);
            && |r| == |tags|
            && (forall i :: 0 <= i < |tags| ==> TagStat(tags[i].1, |Get(tagImages, tags[i].0)|) in r)
            && (forall s :: s in r ==> s in StatsInOrder(tags, tagImages))
  {
    var unsorted := StatsInOrder(tags, tagImages);
    var r := TagStats(tags, tagImages);
    assert |multiset(r)| == |multiset(unsorted)|;
    forall i | 0 <= i < |tags| ensures unsorted[i] in r {
      assert unsorted[i] in multiset(unsorted);
    }
    forall x | x in r ensures x in unsorted {
      assert x in multiset(r);
    }
  }

  /** `getTagStats()` lists the tags in non-increasing order of `imageCount`. */
  lemma TagStatsOrdered(tags: Entries<TagInfo>, tagImages: map<string, seq<string>>)
    ensures var r := TagStats(tags, tagImages);
            forall i, j :: 0 <= i < j < |r| ==> r[i].imageCount >= r[j].imageCount
  {
    var r := TagStats(tags, tagImages);
    forall i, j | 0 <= i < j < |r| ensures r[i].imageCount >= r[j].imageCount {
      assert !Above(CountKey(r[j]), CountKey(r[i]));
    }
  }

  // ---------------------------------------------------------------- getRelatedTags

  /** `counts.get(t) || 0`. */
  function CountOf(counts: Entries<nat>, t: string): nat {
    Find(counts, t).GetOr(0)
  }

  /** `counts.set(t, (counts.get(t) || 0) + 1)`. */
  function Bump(counts: Entries<nat>, t: string): Entries<nat> {
    Put<nat>(counts, t, CountOf(counts, t) + 1)
  }

  /** The inner `forEach`: one image's tags counted, the query tag skipped. */
  function CountTags(counts: Entries<nat>, others: seq<string>, q: string): Entries<nat>
    decreases |others|
  {
    if others == [] then counts
    else
      var c := CountTags(counts, others[..|others| - 1], q);
      var t := others[|others| - 1];
      if t == q then c else Bump(c, t)
  }

  /** The outer `forEach`: the tags of each image in turn. */
  function CountImages(counts: Entries<nat>, images: seq<string>, imageTags: map<string, seq<string>>, q: string)
    : Entries<nat>
    decreases |images|
  {
    if images == [] then counts
    else CountTags(CountImages(counts, images[..|images| - 1], imageTags, q), Get(imageTags, images[|images| - 1]), q)
  }

  /** How many of `images` carry tag `t`. */
  function Cooccurrences(images: seq<string>, imageTags: map<string, seq<string>>, t: string): nat
    decreases |images|
  {
    if images == [] then 0
    else Cooccurrences(images[..|images| - 1], imageTags, t) + (if t in Get(imageTags, images[|images| - 1]) then 1 else 0)
  }

  /** The last of a duplicate-free sequence is not among the others, which stay duplicate-free. */
  lemma LastNotInit(s: seq<string>)
    requires Distinct(s) && s != []
    ensures s[|s| - 1] !in s[..|s| - 1] && Distinct(s[..|s| - 1])
  {
    var init := s[..|s| - 1];
    assert forall j :: 0 <= j < |init| ==> init[j] == s[j];
  }

  /** One step of the inner `forEach`. */
  lemma CountTagsStep(counts: Entries<nat>, others: seq<string>, q: string)
    requires others != []
    ensures var c := CountTags(counts, others[..|others| - 1], q);
            var last := others[|others| - 1];
            CountTags(counts, others, q) == if last == q then c else Bump(c, last)
  {
  }

  /** A bump adds one to its tag's count and leaves the other counts alone. */
  lemma BumpCount(counts: Entries<nat>, k: string, t: string)
    ensures CountOf(Bump(counts, k), t) == CountOf(counts, t) + (if t == k then 1 else 0)
  {
    PutFind<nat>(counts, k, CountOf(counts, k) + 1, t);
  }

  /** A bump enters its tag, keeping keys unique. */
  lemma BumpKeys(counts: Entries<nat>, k: string)
    requires UniqueKeys(counts)
    ensures Keys(Bump(counts, k)) == Add(Keys(counts), k) && UniqueKeys(Bump(counts, k))
  {
    PutKeys<nat>(counts, k, CountOf(counts, k) + 1);
    PutUnique<nat>(counts, k, CountOf(counts, k) + 1);
  }

  /** Counting one image's tags adds one for each tag other than the query tag. */
  lemma {:induction false} CountTagsCount(counts: Entries<nat>, others: seq<string>, q: string, t: string)
    requires Distinct(others)
    ensures CountOf(CountTags(counts, others, q), t) == CountOf(counts, t) + (if t != q && t in others then 1 else 0)
    decreases |others|
  {
    if others != [] {
      var init := others[..|others| - 1];
      var last := others[|others| - 1];
      assert others == init + [last];
      LastNotInit(others);
      CountTagsCount(counts, init, q, t);
      CountTagsStep(counts, others, q);
      if last != q {
        BumpCount(CountTags(counts, init, q), last, t);
      }
    }
  }

  /** Counting one image's tags enters exactly its tags other than the query tag, keeping keys unique. */
  lemma {:induction false} CountTagsKeys(counts: Entries<nat>, others: seq<string>, q: string, t: string)
    requires UniqueKeys(counts)
    ensures UniqueKeys(CountTags(counts, others, q))
    ensures t in Keys(CountTags(counts, others, q)) <==> t in Keys(counts) || (t != q && t in others)
    decreases |others|
  {
    if others != [] {
      var init := others[..|others| - 1];
      var last := others[|others| - 1];
      assert others == init + [last];
      CountTagsKeys(counts, init, q, t);
      CountTagsStep(counts, others, q);
      if last != q {
        BumpKeys(CountTags(counts, init, q), last);
      }
    }
  }

  /** Over all images, each tag's count grows by the number of images carrying it, the query tag excepted. */
  lemma {:induction false} CountImagesCount(counts: Entries<nat>, images: seq<string>,
                                            imageTags: map<string, seq<string>>, q: string, t: string)
    requires SetValued(imageTags)
    ensures CountOf(CountImages(counts, images, imageTags, q), t)
         == CountOf(counts, t) + (if t != q then Cooccurrences(images, imageTags, t) else 0)
    decreases |images|
  {
    if images != [] {
      var init := images[..|images| - 1];
      CountImagesCount(counts, init, imageTags, q, t);
      CountTagsCount(CountImages(counts, init, imageTags, q), Get(imageTags, images[|images| - 1]), q, t);
    }
  }

  /** Over all images, the entered tags are those of some image, the query tag excepted. */
  lemma {:induction false} CountImagesKeys(counts: Entries<nat>, images: seq<string>,
                                           imageTags: map<string, seq<string>>, q: string, t: string)
    requires UniqueKeys(counts)
    ensures UniqueKeys(CountImages(counts, images, imageTags, q))
    ensures t in Keys(CountImages(counts, images, imageTags, q))
        <==> t in Keys(counts) || (t != q && Cooccurrences(images, imageTags, t) > 0)
    decreases |images|
  {
    if images != [] {
      var init := images[..|images| - 1];
      CountImagesKeys(counts, init, imageTags, q, t);
      CountTagsKeys(CountImages(counts, init, imageTags, q), Get(imageTags, images[|images| - 1]), q, t);
    }
  }

  /** `relatedTagCounts` for tag `q`: co-occurring tags with their counts, in first-seen order. */
  function RelatedCounts(r: Relations, q: string): Entries<nat> {
    CountImages([], Get(r.tagImages, q), r.imageTags, q)
  }

  /**
   * Each entry of `relatedTagCounts` is a tag other than `q` with the number of `q`'s images that
   * carry it, which is at least one.
   */
  lemma RelatedCountsMeaning(r: Relations, q: string, k: string, n: nat)
    requires SetValued(r.imageTags) && (k, n) in RelatedCounts(r, q)
    ensures k != q && n == Cooccurrences(Get(r.tagImages, q), r.imageTags, k) > 0
  {
    var counts := RelatedCounts(r, q);
    CountImagesKeys([], Get(r.tagImages, q), r.imageTags, q, k);
    CountImagesCount([], Get(r.tagImages, q), r.imageTags, q, k);
    FindUnique(counts, k, n);
  }

  /** One entry of `getRelatedTags`: `tags.get(id)` (absent for an undefined id) and the count. */
  datatype Related = Related(tag: Option<TagInfo>, count: nat)

  function PairKey(p: (string, nat)): (int, int) {
    (p.1, 0)
  }

  /** The `relatedTagCounts` entries `getRelatedTags` keeps: sorted by count, highest first, cut at `limit`. */
  function TopRelated(r: Relations, q: string, limit: int): seq<(string, nat)> {
    Slice(SortDesc(RelatedCounts(r, q), PairKey), limit)
  }

  /** `getRelatedTags(q, limit)`: the kept entries with their tags looked up. */
  function RelatedTags(tags: Entries<TagInfo>, r: Relations, q: string, limit: int): (res: seq<Related>)
    ensures |res| == |TopRelated(r, q, limit)|
    ensures forall i :: 0 <= i < |res| ==> res[i] == Related(Find(tags, TopRelated(r, q, limit)[i].0),
                                                           TopRelated(r, q, limit)[i].1)
  {
    var top := TopRelated(r, q, limit);
    seq(|top|, i requires 0 <= i < |top| => Related(Find(tags, top[i].0), top[i].1))
  }

  /** `getRelatedTags` returns at most `limit` entries (for a non-negative limit), counts non-increasing. */
  lemma RelatedTagsOrdered(tags: Entries<TagInfo>, r: Relations, q: string, limit: int)
    ensures var res := RelatedTags(tags, r, q, limit);
            && (limit >= 0 ==> |res| <= limit)
            && (forall i, j :: 0 <= i < j < |res| ==> res[i].count >= res[j].count)
  {
    var ranked := SortDesc(RelatedCounts(r, q), PairKey);
    var top := TopRelated(r, q, limit);
    forall i, j | 0 <= i < j < |top| ensures top[i].1 >= top[j].1 {
      assert top[i] == ranked[i] && top[j] == ranked[j];
      assert !Above(PairKey(ranked[j]), PairKey(ranked[i]));
    }
  }

  /**
   * `getRelatedTags` never returns the query tag, and each entry's count is the number of the
   * query tag's images that also carry the entry's tag, at least one.
   */
  lemma RelatedTagsCounts(tags: Entries<TagInfo>, r: Relations, q: string, limit: int, i: nat)
    requires KeyedById(tags) && SetValued(r.imageTags)
    requires i < |RelatedTags(tags, r, q, limit)|
    ensures var x := RelatedTags(tags, r, q, limit)[i];
            && (x.tag.Some? ==> x.tag.value.id != q)
            && exists k :: k != q && x.tag == Find(tags, k)
                           && x.count == Cooccurrences(Get(r.tagImages, q), r.imageTags, k) > 0
  {
    var counts := RelatedCounts(r, q);
    var ranked := SortDesc(counts, PairKey);
    var top := TopRelated(r, q, limit);
    assert top[i] == ranked[i];
    assert top[i] in multiset(counts) by {
      assert top[i] in multiset(ranked);
    }
    RelatedCountsMeaning(r, q, top[i].0, top[i].1);
    FindKeyedById(tags, top[i].0);
  }

  // ---------------------------------------------------------------- searchTags

  /**
   * The score of a tag for the lower-cased query `q`: the first rule that holds among an exact
   * name (100), a name prefix (80), a name substring (60), an alias substring (40) and a
   * description substring (20); 0 when none does. Each rule's test implies the next one's
   * on the name, so the score climbs as the match tightens.
   */
  function Score(info: TagInfo, q: string): (s: nat)
    ensures s == 100 <==> Lower(info.name) == q
    ensures s >= 80 <==> StartsWith(Lower(info.name), q)
    ensures s >= 60 <==> Contains(Lower(info.name), q)
    ensures s >= 40 <==> Contains(Lower(info.name), q) || exists a :: a in info.aliases && Contains(Lower(a), q)
    ensures s > 0 <==> Contains(Lower(info.name), q) || (exists a :: a in info.aliases && Contains(Lower(a), q))
                       || Contains(Lower(info.description), q)
  {
    var name := Lower(info.name);
    assert Lower(info.name) == q ==> StartsWith(name, q) by {
      assert name[..|name|] == name;
    }
    assert StartsWith(name, q) ==> Contains(name, q) by {
      assert name[0..] == name;
    }
    if name == q then 100
    else if StartsWith(name, q) then 80
    else if Contains(name, q) then 60
    else if exists a :: a in info.aliases && Contains(Lower(a), q) then 40
    else if Contains(Lower(info.description), q) then 20
    else 0
  }

  /** One entry of `searchTags`: the tag's fields, its score and `imageCount`. */
  datatype SearchHit = SearchHit(info: TagInfo, score: nat, imageCount: nat)

  function HitKey(h: SearchHit): (int, int) {
    (h.score, h.imageCount)
  }

  /** The hit for one tag entry. */
  function HitOf(e: (string, TagInfo), tagImages: map<string, seq<string>>, q: string): SearchHit {
    SearchHit(e.1, Score(e.1, q), |Get(tagImages, e.0)|)
  }

  /** `matches`: the tags with a positive score, in `tags.forEach` order. */
  function Hits(tags: Entries<TagInfo>, tagImages: map<string, seq<string>>, q: string): (r: seq<SearchHit>)
    ensures forall h :: h in r <==> exists e :: e in tags && Score(e.1, q) > 0 && h == HitOf(e, tagImages, q)
  {
    if tags == [] then []
    else
      var rest := Hits(tags[1..], tagImages, q);
      assert forall x :: x in tags <==> x == tags[0] || x in tags[1..];
      (if Score(tags[0].1, q) > 0 then [HitOf(tags[0], tagImages, q)] else []) + rest
  }

  /** `searchTags(query, limit)`: the hits sorted by score, then `imageCount`, highest first, cut at `limit`. */
  function SearchTags(tags: Entries<TagInfo>, tagImages: map<string, seq<string>>, query: string, limit: int)
    : seq<SearchHit>
  {
    Slice(SortDesc(Hits(tags, tagImages, Lower(query)), HitKey), limit)
  }

  /**
   * `searchTags` returns at most `limit` entries (for a non-negative limit), none outranking an
   * earlier one by score and then `imageCount`.
   */
  lemma SearchTagsOrdered(tags: Entries<TagInfo>, tagImages: map<string, seq<string>>, query: string, limit: int)
    ensures var res := SearchTags(tags, tagImages, query, limit);
            && (limit >= 0 ==> |res| <= limit)
            && (forall i, j :: 0 <= i < j < |res| ==>
                  res[i].score > res[j].score || (res[i].score == res[j].score && res[i].imageCount >= res[j].imageCount))
  {
    var ranked := SortDesc(Hits(tags, tagImages, Lower(query)), HitKey);
    var res := SearchTags(tags, tagImages, query, limit);
    forall i, j | 0 <= i < j < |res|
      ensures res[i].score > res[j].score || (res[i].score == res[j].score && res[i].imageCount >= res[j].imageCount)
    {
      assert res[i] == ranked[i] && res[j] == ranked[j];
      assert !Above(HitKey(ranked[j]), HitKey(ranked[i]));
    }
  }

  /** Every result of `searchTags` is a defined tag with its positive score and its image count. */
  lemma SearchTagsSound(tags: Entries<TagInfo>, tagImages: map<string, seq<string>>, query: string, limit: int,
                        h: SearchHit)
    requires h in SearchTags(tags, tagImages, query, limit)
    ensures h.score > 0 && exists e :: e in tags && h == HitOf(e, tagImages, Lower(query))
  {
    var hits := Hits(tags, tagImages, Lower(query));
    var ranked := SortDesc(hits, HitKey);
    var res := SearchTags(tags, tagImages, query, limit);
    var i :| 0 <= i < |res| && res[i] == h;
    assert ranked[i] == h;
    assert h in multiset(hits) by {
      assert h in multiset(ranked);
    }
    assert h in hits;
  }

  /** With a limit of at least the number of tags, every tag with a positive score is found. */
  lemma SearchTagsComplete(tags: Entries<TagInfo>, tagImages: map<string, seq<string>>, query: string, limit: int,
                           e: (string, TagInfo))
    requires limit >= |tags| && e in tags && Score(e.1, Lower(query)) > 0
    ensures HitOf(e, tagImages, Lower(query)) in SearchTags(tags, tagImages, query, limit)
  {
    var hits := Hits(tags, tagImages, Lower(query));
    var ranked := SortDesc(hits, HitKey);
    var h := HitOf(e, tagImages, Lower(query));
    assert h in hits;
    assert |multiset(ranked)| == |multiset(hits)|;
    HitsBound(tags, tagImages, Lower(query));
    assert SearchTags(tags, tagImages, query, limit) == ranked;
    assert h in multiset(ranked) by {
      assert h in multiset(hits);
    }
  }

  /** There are no more hits than tags. */
  lemma {:induction false} HitsBound(tags: Entries<TagInfo>, tagImages: map<string, seq<string>>, q: string)
    ensures |Hits(tags, tagImages, q)| <= |tags|
    decreases |tags|
  {
    if tags != [] {
      HitsBound(tags[1..], tagImages, q);
    }
  }

  // ---------------------------------------------------------------- the object

  class TagSystem {
    var tags: Entries<TagInfo>
    var tagMappings: Entries<seq<string>>
    var imageTagRelations: map<string, seq<string>>
    var tagImageRelations: map<string, seq<string>>

    /** The maps have unique keys, tags sit under their ids, and the relations are mutually inverse sets. */
    ghost predicate Valid()
      reads this
    {
      && UniqueKeys(tags) && KeyedById(tags) && UniqueKeys(tagMappings)
      && Inverse(Relations(imageTagRelations, tagImageRelations))
      && SetValued(imageTagRelations) && SetValued(tagImageRelations)
    }

    constructor()
      ensures Valid()
      ensures tags == [] && tagMappings == [] && imageTagRelations == map[] && tagImageRelations == map[]
    {
      tags := [];
      tagMappings := [];
      imageTagRelations := map[];
      tagImageRelations := map[];
    }

    /** `loadTagDefinitions`: each definition stored under its id with its defaults; nothing when the file fails. */
    method LoadTagDefinitions(defs: Option<seq<TagDef>>)
      requires Valid()
      modifies this
      ensures Valid()
      ensures defs.None? ==> tags == old(tags)
      ensures defs.Some? ==> tags == PutAll(old(tags), DefPairs(defs.value))
      ensures tagMappings == old(tagMappings)
      ensures imageTagRelations == old(imageTagRelations) && tagImageRelations == old(tagImageRelations)
    {
      if defs.None? {
        return;
      }
      SetTags(DefPairs(defs.value));
    }

    /** `tags.set(id, info)` for each pair, in order. */
    method SetTags(pairs: seq<(string, TagInfo)>)
      requires Valid() && KeyedById(pairs)
      modifies this
      ensures Valid()
      ensures tags == PutAll(old(tags), pairs)
      ensures tagMappings == old(tagMappings)
      ensures imageTagRelations == old(imageTagRelations) && tagImageRelations == old(tagImageRelations)
    {
      for i := 0 to |pairs|
        invariant tags == PutAll(old(tags), pairs[..i])
        invariant UniqueKeys(tags) && KeyedById(tags)
        invariant tagMappings == old(tagMappings)
        invariant imageTagRelations == old(imageTagRelations) && tagImageRelations == old(tagImageRelations)
      {
        assert pairs[..i + 1][..i] == pairs[..i];
        PutUnique(tags, pairs[i].0, pairs[i].1);
        PutKeyedById(tags, pairs[i].1);
        tags := Put(tags, pairs[i].0, pairs[i].1);
      }
      assert pairs[..|pairs|] == pairs;
    }

    /** `loadTagMappings`: the `filename:` rules, then the `directory:` rules; nothing when the file fails. */
    method LoadTagMappings(data: Option<MappingData>)
      requires Valid()
      modifies this
      ensures Valid()
      ensures data.None? ==> tagMappings == old(tagMappings)
      ensures data.Some? ==> tagMappings == PutAll(PutAll(old(tagMappings), RulePairs(FilenamePrefix, data.value.fileNamePatterns)),
                                                   RulePairs(DirectoryPrefix, data.value.directoryPatterns))
      ensures tags == old(tags)
      ensures imageTagRelations == old(imageTagRelations) && tagImageRelations == old(tagImageRelations)
    {
      if data.None? {
        return;
      }
      var files := RulePairs(FilenamePrefix, data.value.fileNamePatterns);
      var dirs := RulePairs(DirectoryPrefix, data.value.directoryPatterns);
      SetRules(files);
      SetRules(dirs);
    }

    /** `tagMappings.set(key, tagIds)` for each pair, in order. */
    method SetRules(pairs: seq<(string, seq<string>)>)
      requires Valid()
      modifies this
      ensures Valid()
      ensures tagMappings == PutAll(old(tagMappings), pairs)
      ensures tags == old(tags)
      ensures imageTagRelations == old(imageTagRelations) && tagImageRelations == old(tagImageRelations)
    {
      for i := 0 to |pairs|
        invariant tagMappings == PutAll(old(tagMappings), pairs[..i])
        invariant UniqueKeys(tagMappings)
        invariant tags == old(tags)
        invariant imageTagRelations == old(imageTagRelations) && tagImageRelations == old(tagImageRelations)
      {
        assert pairs[..i + 1][..i] == pairs[..i];
        PutUnique(tagMappings, pairs[i].0, pairs[i].1);
        tagMappings := Put(tagMappings, pairs[i].0, pairs[i].1);
      }
      assert pairs[..|pairs|] == pairs;
    }

    /** `associateImageWithTags(imageId, tagIds)`: both relations grow by the pairs (imageId, t), t in tagIds. */
    method AssociateImageWithTags(imageId: string, tagIds: seq<string>)
      requires Valid()
      modifies this
      ensures Valid()
      ensures Relations(imageTagRelations, tagImageRelations)
           == Associate(Relations(old(imageTagRelations), old(tagImageRelations)), imageId, tagIds)
      ensures tags == old(tags) && tagMappings == old(tagMappings)
    {
      ghost var r0 := Relations(imageTagRelations, tagImageRelations);
      imageTagRelations := imageTagRelations[imageId := Get(imageTagRelations, imageId)];
      for i := 0 to |tagIds|
        invariant Relations(imageTagRelations, tagImageRelations) == Associate(r0, imageId, tagIds[..i])
        invariant tags == old(tags) && tagMappings == old(tagMappings)
      {
        assert tagIds[..i + 1][..i] == tagIds[..i];
        var t := tagIds[i];
        imageTagRelations := imageTagRelations[imageId := Add(imageTagRelations[imageId], t)];
        tagImageRelations := tagImageRelations[t := Add(Get(tagImageRelations, t), imageId)];
      }
      assert tagIds[..|tagIds|] == tagIds;
      AssociateInverse(r0, imageId, tagIds);
      AssociateSetValued(r0, imageId, tagIds);
    }

    /** `processImage(imagePath, imageId)`, `manual` being what the sidecar's `tags` gives. */
    method ProcessImage(imagePath: string, imageId: string, manual: seq<string>) returns (result: Processed)
      requires Valid()
      modifies this
      ensures Valid()
      ensures result == ProcessResult(tags, tagMappings, imagePath, imageId, manual)
      ensures Relations(imageTagRelations, tagImageRelations)
           == Associate(Relations(old(imageTagRelations), old(tagImageRelations)), imageId, result.tags)
      ensures tags == old(tags) && tagMappings == old(tagMappings)
    {
      var autoTags := AutoTags(tagMappings, imagePath);
      var allTags := Dedup(manual + autoTags);
      var validTags := Defined(tags, allTags);
      AssociateImageWithTags(imageId, validTags);
      result := Processed(imageId, validTags, manual, Defined(tags, autoTags));
    }

    /** `generateAutoTags(imagePath)`: the ids of the rules that fire, each once. */
    function GenerateAutoTags(imagePath: string): (r: seq<string>)
      reads this
      ensures Distinct(r)
      ensures forall t :: t in r <==>
                exists e :: e in tagMappings && RuleMatches(e.0, Lower(Basename(imagePath)), Lower(Dirname(imagePath)))
                            && t in e.1
    {
      AutoTags(tagMappings, imagePath)
    }

    /** `getImagesForTag(tagId)`: the images whose own tag set holds the tag, each once. */
    function GetImagesForTag(tagId: string): (r: seq<string>)
      requires Valid()
      reads this
      ensures Distinct(r)
      ensures forall i :: i in r <==> tagId in Get(imageTagRelations, i)
    {
      Get(tagImageRelations, tagId)
    }

    /** `getTagsForImage(imageId)`: the tags whose own image set holds the image, each once. */
    function GetTagsForImage(imageId: string): (r: seq<string>)
      requires Valid()
      reads this
      ensures Distinct(r)
      ensures forall t :: t in r <==> imageId in Get(tagImageRelations, t)
    {
      Get(imageTagRelations, imageId)
    }

    /** `getTagStats()`: one entry per defined tag, by `imageCount`, highest first. */
    function GetTagStats(): (r: seq<TagStat>)
      reads this
      ensures |r| == |tags|
      ensures forall i, j :: 0 <= i < j < |r| ==> r[i].imageCount >= r[j].imageCount
      ensures forall i :: 0 <= i < |tags| ==> TagStat(tags[i].1, |Get(tagImageRelations, tags[i].0)|) in r
    {
      TagStatsEntries(tags, tagImageRelations);
      TagStatsOrdered(tags, tagImageRelations);
      TagStats(tags, tagImageRelations)
    }

    /** `getRelatedTags(tagId, limit)`; the script's default limit is 10. */
    function GetRelatedTags(tagId: string, limit: int): (r: seq<Related>)
      requires Valid()
      reads this
      ensures limit >= 0 ==> |r| <= limit
      ensures forall i, j :: 0 <= i < j < |r| ==> r[i].count >= r[j].count
      ensures forall i :: 0 <= i < |r| && r[i].tag.Some? ==> r[i].tag.value.id != tagId
    {
      var rel := Relations(imageTagRelations, tagImageRelations);
      RelatedTagsOrdered(tags, rel, tagId, limit);
      forall i | 0 <= i < |RelatedTags(tags, rel, tagId, limit)|
        ensures var x := RelatedTags(tags, rel, tagId, limit)[i]; x.tag.Some? ==> x.tag.value.id != tagId
      {
        RelatedTagsCounts(tags, rel, tagId, limit, i);
      }
      RelatedTags(tags, rel, tagId, limit)
    }

    /** `searchTags(query, limit)`; the script's default limit is 20. */
    function SearchTagsOf(query: string, limit: int): (r: seq<SearchHit>)
      reads this
      ensures limit >= 0 ==> |r| <= limit
      ensures forall h :: h in r ==> h.score > 0 && exists e :: e in tags && h == HitOf(e, tagImageRelations, Lower(query))
    {
      SearchTagsOrdered(tags, tagImageRelations, query, limit);
      forall h | h in SearchTags(tags, tagImageRelations, query, limit)
        ensures h.score > 0 && exists e :: e in tags && h == HitOf(e, tagImageRelations, Lower(query))
      {
        SearchTagsSound(tags, tagImageRelations, query, limit, h);
      }
      SearchTags(tags, tagImageRelations, query, limit)
    }
  }
}
