/**
 * `HtmlGenerator` of scripts/HtmlGenerator.php: the detail page of one item.
 * `loadTemplate` fails when `detail.html` is missing. `replaceTemplateVariables`
 * makes one `str_replace` call with fifteen placeholder/value pairs, which
 * PHP applies one pair after the other to the text the earlier pairs left;
 * text values go through `htmlspecialchars(ENT_QUOTES)`, while width, height,
 * the size text and the format do not. `replaceTagsList` then expands each
 * `{{#each tags}}…{{/each}}` block once per tag, with `{{this}}` the escaped
 * tag and `{{@last}}` `true` for the last tag only.
 */
module HtmlGeneratorPhp {
  import opened Wrappers
  import opened Text
  import opened Paths
  import opened Escape
  import opened Utils
  import opened Templates
  import IPP = ImageProcessorPhp

  type Item = IPP.Item

  /** One pair of the `$replacements` array: the placeholder `{{name}}` and its value. */
  datatype Replacement = Replacement(name: string, replace: string)

  /** `loadTemplate()`: the template, or the exception thrown when the file does not exist. */
  function LoadTemplate(file: Option<string>): (r: Result<string, string>)
    ensures r.Success? <==> file.Some?
    ensures r.Success? ==> r.value == file.value
  {
    match file
    case None => Failure("Template file not found")
    case Some(t) => Success(t)
  }

  /** `htmlspecialchars($s, ENT_QUOTES, 'UTF-8')`. */
  function Esc(s: string): string {
    HtmlSpecialChars(s, BothQuotes)
  }

  /** Text that can stand inside an HTML attribute or element without ending it. */
  predicate Inert(s: string) {
    '<' !in s && '>' !in s && '"' !in s && '\'' !in s
  }

  /** `strtoupper(pathinfo($p, PATHINFO_EXTENSION))`. */
  function Format(p: string): (r: string)
    ensures |r| == |PhpExtension(p)|
    ensures forall i :: 0 <= i < |r| ==> !IsLower(r[i])
  {
    Upper(PhpExtension(p))
  }

  /** `pathinfo($p, PATHINFO_FILENAME) . '.' . pathinfo($p, PATHINFO_EXTENSION)`. */
  function DownloadName(p: string): string {
    PhpFilename(p) + "." + PhpExtension(p)
  }

  /** The download name is the file's own name, except that a name without a `.` gains a trailing `.`. */
  lemma DownloadNameOfFile(p: string)
    ensures '.' in Basename(p) ==> DownloadName(p) == Basename(p)
    ensures '.' !in Basename(p) ==> DownloadName(p) == Basename(p) + "."
  {
    PhpPathinfoRecombines(p);
  }

  /** `implode(',', array_map(htmlspecialchars, $item['tags']))`. */
  function TagsValue(tags: seq<string>): (r: string)
    ensures Inert(r)
  {
    var escaped := seq(|tags|, i requires 0 <= i < |tags| => Esc(tags[i]));
    JoinInert(escaped, ",");
    Join(escaped, ",")
  }

  lemma {:induction false} JoinInert(parts: seq<string>, sep: string)
    requires Inert(sep) && forall i :: 0 <= i < |parts| ==> Inert(parts[i])
    ensures Inert(Join(parts, sep))
    decreases |parts|
  {
    if |parts| > 1 {
      JoinInert(parts[1..], sep);
    }
  }

  /** A pair whose value is escaped text. */
  function TextPair(name: string, value: string): (r: Replacement)
    ensures r.name == name && Inert(r.replace)
  {
    Replacement(name, Esc(value))
  }

  /** A pair whose value is written as it is. */
  function RawPair(name: string, value: string): (r: Replacement)
    ensures r.name == name && r.replace == value
  {
    Replacement(name, value)
  }

  /** The placeholder names, in the order of the `$replacements` array. */
  const TitleName: string := "title"
  const CategoryName: string := "category"
  const DescriptionName: string := "description"
  const LicenseName: string := "license"
  const OriginalPathName: string := "originalPath"
  const ThumbnailPathName: string := "thumbnailPath"
  const WidthName: string := "width"
  const HeightName: string := "height"
  const FileSizeName: string := "fileSize"
  const SlugName: string := "slug"
  const CreatedAtName: string := "createdAt"
  const UpdatedAtName: string := "updatedAt"
  const FormatName: string := "format"
  const FilenameName: string := "filename"
  const TagsName: string := "tags"

  /** Every value of `reps` is escaped text. */
  predicate Escaped(reps: seq<Replacement>) {
    forall r :: r in reps ==> Inert(r.replace)
  }

  /** Title, category and description, escaped. */
  function Describing(item: Item): (r: seq<Replacement>)
    ensures |r| == 3 && Escaped(r)
  {
    [TextPair(TitleName, item.title), TextPair(CategoryName, item.category),
     TextPair(DescriptionName, item.description)]
  }

  /** License, original path and thumbnail path, escaped. */
  function Locating(item: Item): (r: seq<Replacement>)
    ensures |r| == 3 && Escaped(r)
  {
    [TextPair(LicenseName, item.license), TextPair(OriginalPathName, item.originalPath),
     TextPair(ThumbnailPathName, item.thumbnailPath)]
  }

  /** Width, height and size text, written as they are. */
  function Sizes(item: Item, sizeText: string): (r: seq<Replacement>)
    ensures |r| == 3
    ensures r[0].replace == NatToString(item.width) && r[1].replace == NatToString(item.height)
    ensures r[2].replace == sizeText
  {
    [RawPair(WidthName, NatToString(item.width)), RawPair(HeightName, NatToString(item.height)),
     RawPair(FileSizeName, sizeText)]
  }

  /** Slug and the two timestamps, escaped. */
  function Stamps(item: Item): (r: seq<Replacement>)
    ensures |r| == 3 && Escaped(r)
  {
    [TextPair(SlugName, item.slug), TextPair(CreatedAtName, item.createdAt),
     TextPair(UpdatedAtName, item.updatedAt)]
  }

  /** The format as it is, then the download name and the tags, escaped. */
  function FileFields(item: Item): (r: seq<Replacement>)
    ensures |r| == 3 && r[0].replace == Format(item.originalPath) && Escaped(r[1..])
  {
    var r := [RawPair(FormatName, Format(item.originalPath)),
              TextPair(FilenameName, DownloadName(item.originalPath)),
              Replacement(TagsName, TagsValue(item.tags))];
    assert r[1..] == [r[1], r[2]];
    r
  }

  /** The `$replacements` array, in its order; `sizeText` is what `Utils::formatSize` writes. */
  function Replacements(item: Item, sizeText: string): (r: seq<Replacement>)
    ensures |r| == 15
  {
    Describing(item) + Locating(item) + Sizes(item, sizeText) + Stamps(item) + FileFields(item)
  }

  /** Every value is escaped text except width, height, size text and format. */
  lemma ReplacementsEscaped(item: Item, sizeText: string)
    ensures var r := Replacements(item, sizeText);
            Escaped(r[..6]) && Escaped(r[9..12]) && Escaped(r[13..])
  {
    var d, l, t, f := Describing(item), Locating(item), Stamps(item), FileFields(item);
    var r := Replacements(item, sizeText);
    var z := Sizes(item, sizeText);
    assert r == (d + l) + z + t + f;
    assert Escaped(r[..6]) by {
      assert r[..6] == d + l;
    }
    assert Escaped(r[9..12]) by {
      assert r[9..12] == t;
    }
    assert r[13..] == f[1..];
  }

  /** Width and height are their decimal numerals, and the size text and format are put in as they are. */
  lemma ReplacementsRaw(item: Item, sizeText: string)
    ensures var r := Replacements(item, sizeText);
            r[6].replace == NatToString(item.width) && r[7].replace == NatToString(item.height)
            && r[8].replace == sizeText && r[12].replace == Format(item.originalPath)
  {
    var z, f := Sizes(item, sizeText), FileFields(item);
    var r := Replacements(item, sizeText);
    assert r[6] == z[0] && r[7] == z[1] && r[8] == z[2] && r[12] == f[0];
  }

  /** `str_replace(array_keys($r), array_values($r), $s)`: the pairs applied in order. */
  function StrReplace(s: string, reps: seq<Replacement>): string
    decreases |reps|
  {
    if reps == [] then s
    else
      var last := reps[|reps| - 1];
      ReplaceAll(StrReplace(s, reps[..|reps| - 1]), Placeholder(last.name), last.replace)
  }

  /**
   * A later pair rewrites what an earlier pair wrote: a value that is itself the placeholder of
   * a later pair (`{{title}}` set to `{{slug}}`, say) ends up as that later pair's value.
   */
  lemma StrReplaceChains(a: string, b: string, v: string)
    ensures StrReplace(Placeholder(a), [Replacement(a, Placeholder(b)), Replacement(b, v)]) == v
  {
    var reps := [Replacement(a, Placeholder(b)), Replacement(b, v)];
    assert reps[..1] == [Replacement(a, Placeholder(b))] && reps[..1][..0] == [];
    assert StrReplace(Placeholder(a), reps[..1]) == ReplaceAll(Placeholder(a), Placeholder(a), Placeholder(b));
    ReplaceAllWhole(Placeholder(a), Placeholder(b));
    assert StrReplace(Placeholder(a), reps) == ReplaceAll(Placeholder(b), Placeholder(b), v);
    ReplaceAllWhole(Placeholder(b), v);
  }

  /** A string that is exactly the pattern becomes exactly the replacement. */
  lemma ReplaceAllWhole(p: string, v: string)
    requires |p| > 0
    ensures ReplaceAll(p, p, v) == v
  {
    assert p[..|p|] == p && p[|p|..] == [];
  }

  /** A template without `{` is left alone by every pair. */
  lemma {:induction false} StrReplaceBraceFree(s: string, reps: seq<Replacement>)
    requires '{' !in s
    ensures StrReplace(s, reps) == s
    decreases |reps|
  {
    if reps != [] {
      StrReplaceBraceFree(s, reps[..|reps| - 1]);
      var last := reps[|reps| - 1];
      var p := Placeholder(last.name);
      ReplaceAllIdentities(s, p, last.replace);
      assert !Contains(s, p) by {
        forall i | 0 <= i <= |s| - |p| ensures !StartsWith(s[i..], p) {
          assert s[i..][0] == s[i];
        }
      }
    }
  }

  // ---------------------------------------------------------------- replaceTagsList

  const EachOpen: string := Placeholder("#each tags")
  const EachClose: string := Placeholder("/each")
  const This: string := Placeholder("this")
  const LastFlag: string := Placeholder("@last")

  /** One pass of the `foreach`: the block's content with `{{this}}` and then `{{@last}}` filled in. */
  function TagCopy(content: string, tag: string, last: bool): string {
    ReplaceAll(ReplaceAll(content, This, Esc(tag)), LastFlag, if last then "true" else "false")
  }

  /** The copies for `tags`, none of them marked last. */
  function Copies(content: string, tags: seq<string>): string {
    Concat(seq(|tags|, i requires 0 <= i < |tags| => TagCopy(content, tags[i], false)))
  }

  /** What the callback returns for one block: one copy per tag, the copy of index `count - 1` marked last. */
  function TagsList(content: string, tags: seq<string>): (r: string)
    ensures tags == [] ==> r == ""
  {
    Concat(seq(|tags|, i requires 0 <= i < |tags| => TagCopy(content, tags[i], i == |tags| - 1)))
  }

  /** The callback's `foreach`: `$result` grows by one copy per tag. */
  method ExpandTags(content: string, tags: seq<string>) returns (result: string)
    ensures result == TagsList(content, tags)
  {
    result := "";
    ghost var copies: seq<string> := [];
    for i := 0 to |tags|
      invariant |copies| == i
      invariant copies == seq(i, j requires 0 <= j < i => TagCopy(content, tags[j], j == |tags| - 1))
      invariant result == Concat(copies)
    {
      var tagHtml := ReplaceAll(content, This, Esc(tags[i]));
      tagHtml := ReplaceAll(tagHtml, LastFlag, if i == |tags| - 1 then "true" else "false");
      ConcatAppend(copies, [tagHtml]);
      assert Concat([tagHtml]) == tagHtml + Concat([]);
      copies := copies + [tagHtml];
      result := result + tagHtml;
    }
  }

  /** `{{@last}}` reads `true` in the last copy only: all copies but the last are those of `Copies`. */
  lemma TagsListLast(content: string, tags: seq<string>)
    requires |tags| > 0
    ensures TagsList(content, tags)
         == Copies(content, tags[..|tags| - 1]) + TagCopy(content, tags[|tags| - 1], true)
  {
    var n := |tags|;
    var all := seq(n, i requires 0 <= i < n => TagCopy(content, tags[i], i == n - 1));
    var init := seq(n - 1, i requires 0 <= i < n - 1 => TagCopy(content, tags[..n - 1][i], false));
    assert all == init + [TagCopy(content, tags[n - 1], true)];
    ConcatAppend(init, [TagCopy(content, tags[n - 1], true)]);
    assert Concat([TagCopy(content, tags[n - 1], true)]) == TagCopy(content, tags[n - 1], true) + Concat([]);
  }

  /** `replaceTagsList($html, $tags)`. */
  function ReplaceTagsList(html: string, tags: seq<string>): string {
    ReplaceBlocks(html, EachOpen, EachClose, c => TagsList(c, tags))
  }

  /** A block whose surroundings and content have no `{` is replaced by its copies, and by nothing when there are no tags. */
  lemma TagsBlock(a: string, content: string, b: string, tags: seq<string>)
    requires '{' !in a && '{' !in content
    ensures ReplaceTagsList(a + EachOpen + content + EachClose + b, tags)
         == a + TagsList(content, tags) + ReplaceTagsList(b, tags)
    ensures tags == [] ==>
              ReplaceTagsList(a + EachOpen + content + EachClose + b, tags) == a + ReplaceTagsList(b, tags)
  {
    ReplaceBlocksFirst(a, EachOpen, content, EachClose, b, c => TagsList(c, tags));
  }

  // ---------------------------------------------------------------- the page

  /** `replaceTemplateVariables($template, $item)`. */
  function DetailHtml(template: string, item: Item, sizeText: string): string {
    ReplaceTagsList(StrReplace(template, Replacements(item, sizeText)), item.tags)
  }

  /** `loadTemplate` followed by `replaceTemplateVariables`: the page, or the missing-template exception. */
  function DetailPage(file: Option<string>, item: Item, sizeText: string): (r: Result<string, string>)
    ensures r.Failure? <==> file.None?
    ensures file.Some? ==> r.value == DetailHtml(file.value, item, sizeText)
  {
    match LoadTemplate(file)
    case Failure(e) => Failure(e)
    case Success(t) => Success(DetailHtml(t, item, sizeText))
  }

  /** A template without `{` comes back unchanged for every item. */
  lemma BraceFreeTemplate(template: string, item: Item, sizeText: string)
    requires '{' !in template
    ensures DetailHtml(template, item, sizeText) == template
  {
    var reps := Replacements(item, sizeText);
    StrReplaceBraceFree(template, reps);
    ReplaceBlocksAbsent(template, EachOpen, EachClose, c => TagsList(c, item.tags));
  }
}
