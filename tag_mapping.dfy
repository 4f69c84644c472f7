/**
 * `generateTags` of scripts/tag-mapping.mjs: the tags of one image, from four
 * rule tables (`TAG_MAPPING`) and the sidecar's `tags`. Tags are added to one
 * insertion-ordered `Set`, in this order:
 *  1. for every non-empty path segment (the file name included) that is a key
 *     of `directoryTags`, that key's tags — the match is exact and case-sensitive;
 *  2. for every key of `fileNamePatterns` that occurs in the lower-cased file
 *     name, that key's tags;
 *  3. the same for `colorTags`;
 *  4. the `categoryTags` of the first path segment;
 *  5. the sidecar's tags.
 * The tables are a parameter here; `TagMappingTables` holds the ones the
 * script ships.
 */
module TagMapping {
  import opened Wrappers
  import opened Text

  /** One table of `TAG_MAPPING`: keys with their tag lists, in insertion order. */
  type Table = seq<(string, seq<string>)>

  datatype Mapping = Mapping(fileNamePatterns: Table, directoryTags: Table, categoryTags: Table, colorTags: Table)

  /** `TAG_MAPPING` as scripts/tag-mapping.mjs defines it. */
  const TagMappingTables: Mapping := Mapping(
    [("button", ["ui", "interactive", "clickable"]),
     ("menu", ["ui", "navigation", "interface"]),
     ("sky", ["nature", "background", "outdoor"]),
     ("grass", ["nature", "ground", "green"]),
     ("room", ["interior", "indoor", "architecture"]),
     ("castle", ["building", "medieval", "architecture"]),
     ("cute", ["kawaii", "adorable", "lovely"])],
    [("ui", ["interface"]),
     ("landscape", ["background", "scenery"]),
     ("character", ["sprite"]),
     ("effects", ["vfx", "animation"])],
    [("ui", ["user-interface", "gui"]),
     ("landscape", ["environment", "world"]),
     ("character", ["avatar"]),
     ("item", ["object", "prop"])],
    [("red", ["red", "warm-color"]),
     ("blue", ["blue", "cool-color"]),
     ("green", ["green", "nature-color"]),
     ("yellow", ["yellow", "bright-color"]),
     ("purple", ["purple", "mystical"]),
     ("black", ["black", "dark"]),
     ("white", ["white", "light"])])

  /** `table[key]`: the tags of the entry with that key, if there is one. */
  function Lookup(table: Table, key: string): (r: Option<seq<string>>)
    ensures r.Some? ==> (key, r.value) in table
    ensures r.None? ==> forall e :: e in table ==> e.0 != key
  {
    if table == [] then None
    else if table[0].0 == key then Some(table[0].1)
    else Lookup(table[1..], key)
  }

  /** The tags `table[key]?.forEach(...)` adds: the entry's tags, or none. */
  function TagsOf(table: Table, key: string): seq<string> {
    match Lookup(table, key)
    case None => []
    case Some(ts) => ts
  }

  /** `filePath.split('/').filter(Boolean)`: the non-empty segments. */
  function Parts(path: string): (r: seq<string>)
    ensures forall p :: p in r <==> p in Split(path, '/') && p != ""
  {
    Filter(Split(path, '/'), (p: string) => p != "")
  }

  /** `pathParts[pathParts.length - 1]?.toLowerCase() || ''`. */
  function FileName(parts: seq<string>): (r: string)
    ensures parts == [] ==> r == ""
    ensures parts != [] ==> r == Lower(parts[|parts| - 1])
  {
    if parts == [] then "" else Lower(Last(parts))
  }

  /** Step 1: the `directoryTags` of every segment, in segment order. */
  function DirectoryTags(table: Table, parts: seq<string>): (r: seq<string>)
    ensures forall t :: t in r <==> exists p :: p in parts && t in TagsOf(table, p)
  {
    if parts == [] then []
    else
      var rest := DirectoryTags(table, parts[1..]);
      assert forall p :: p in parts <==> p == parts[0] || p in parts[1..];
      TagsOf(table, parts[0]) + rest
  }

  /** Steps 2 and 3: the tags of every key that occurs in `name`, in table order. */
  function PatternTags(table: Table, name: string): (r: seq<string>)
    ensures forall t :: t in r <==> exists e :: e in table && Contains(name, e.0) && t in e.1
  {
    if table == [] then []
    else
      var rest := PatternTags(table[1..], name);
      assert forall e :: e in table <==> e == table[0] || e in table[1..];
      (if Contains(name, table[0].0) then table[0].1 else []) + rest
  }

  /** Step 4: the `categoryTags` of the first segment (never empty, so always truthy). */
  function CategoryTags(table: Table, parts: seq<string>): (r: seq<string>)
    ensures parts == [] ==> r == []
    ensures parts != [] ==> r == TagsOf(table, parts[0])
  {
    if parts == [] then [] else TagsOf(table, parts[0])
  }

  /** `generateTags(filePath, metadata)`, `meta` being `metadata.tags` (no field reads as no tags). */
  function GenerateTags(m: Mapping, path: string, meta: seq<string>): (r: seq<string>)
    ensures Distinct(r)
    ensures forall t :: t in meta ==> t in r
    ensures forall p, t :: p in Parts(path) && t in TagsOf(m.directoryTags, p) ==> t in r
  {
    var parts := Parts(path);
    var name := FileName(parts);
    var s := AddAll([], DirectoryTags(m.directoryTags, parts));
    var s := AddAll(s, PatternTags(m.fileNamePatterns, name));
    var s := AddAll(s, PatternTags(m.colorTags, name));
    var s := AddAll(s, CategoryTags(m.categoryTags, parts));
    AddAll(s, meta)
  }

  /** Every tag `generateTags` adds, in the order it adds them. */
  function Insertions(m: Mapping, path: string, meta: seq<string>): seq<string> {
    var parts := Parts(path);
    var name := FileName(parts);
    DirectoryTags(m.directoryTags, parts) + PatternTags(m.fileNamePatterns, name)
    + PatternTags(m.colorTags, name) + CategoryTags(m.categoryTags, parts) + meta
  }

  /**
   * The result is `Array.from(new Set(insertions))`: each tag once, where it was first added —
   * directory tags first, then file-name, colour, category and sidecar tags.
   */
  lemma GenerateTagsOrder(m: Mapping, path: string, meta: seq<string>)
    ensures GenerateTags(m, path, meta) == Dedup(Insertions(m, path, meta))
  {
    var parts := Parts(path);
    var name := FileName(parts);
    var a, b, c, d := DirectoryTags(m.directoryTags, parts), PatternTags(m.fileNamePatterns, name),
                      PatternTags(m.colorTags, name), CategoryTags(m.categoryTags, parts);
    AddAllAppend([], a + b + c + d, meta);
    AddAllAppend([], a + b + c, d);
    AddAllAppend([], a + b, c);
    AddAllAppend([], a, b);
  }

  /** The directory tags come first, in the order of their segments. */
  lemma DirectoryTagsFirst(m: Mapping, path: string, meta: seq<string>)
    ensures var dir := Dedup(DirectoryTags(m.directoryTags, Parts(path)));
            |dir| <= |GenerateTags(m, path, meta)| && GenerateTags(m, path, meta)[..|dir|] == dir
  {
    var parts := Parts(path);
    var name := FileName(parts);
    var a, b, c, d := DirectoryTags(m.directoryTags, parts), PatternTags(m.fileNamePatterns, name),
                      PatternTags(m.colorTags, name), CategoryTags(m.categoryTags, parts);
    var rest := b + c + d + meta;
    assert Insertions(m, path, meta) == a + rest by {
      assert a + b + c + d + meta == a + (b + c + d + meta);
    }
    GenerateTagsOrder(m, path, meta);
    DedupAppendPrefix(a, rest);
  }

  /**
   * A tag is in the result exactly when a rule adds it: a sidecar tag, the directory tag of a
   * segment, the tag of a file-name or colour key occurring in the lower-cased file name, or a
   * category tag of the first segment. Nothing else — no raw segment — gets in.
   */
  lemma GenerateTagsMembers(m: Mapping, path: string, meta: seq<string>, t: string)
    ensures var parts := Parts(path);
            var name := FileName(parts);
            t in GenerateTags(m, path, meta) <==>
              t in meta
              || (exists p :: p in parts && t in TagsOf(m.directoryTags, p))
              || (exists e :: e in m.fileNamePatterns && Contains(name, e.0) && t in e.1)
              || (exists e :: e in m.colorTags && Contains(name, e.0) && t in e.1)
              || (parts != [] && t in TagsOf(m.categoryTags, parts[0]))
  {
    GenerateTagsOrder(m, path, meta);
  }
}
