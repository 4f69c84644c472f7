/**
 * `replaceTemplateVariables` of scripts/html-generator.mjs: the detail page of
 * one item, made from the `detail.html` template in three passes.
 *  1. Twelve variables, each with its `||` default, are substituted in turn
 *     with `html.replace(/{{key}}/g, value)`. A string given as replacement to
 *     `String.prototype.replace` is itself a pattern: `$$`, `$&`, `` $` `` and
 *     `$'` stand for a dollar, the match, the text before it and the text after it.
 *  2. Each `{{#each tags}}…{{/each}}` block becomes its content once per tag,
 *     `{{this}}` replaced by the tag (with the same `$` patterns).
 *  3. Each `{{#if description}}…{{/if}}` block keeps its content exactly when
 *     the description is not empty.
 * No value is HTML-escaped. `path.extname` throws on an item without a string
 * `originalPath`, which is the error path here.
 */
module HtmlGeneratorJs {
  import opened Wrappers
  import opened Text
  import opened Paths
  import opened Utils
  import opened Templates
  import IP = ImageProcessorJs

  /**
   * The fields the generator reads. A string field holds "" where the item's field is
   * missing, `null` or empty (all falsy); `originalPath` is `None` where it is not a string.
   */
  datatype DetailItem = DetailItem(title: string, category: string, slug: string,
                                   width: Option<nat>, height: Option<nat>, originalPath: Option<string>,
                                   license: string, thumb: string, tags: seq<string>, description: string)

  /** One entry of the `variables` object, in insertion order. */
  datatype Binding = Binding(key: string, value: string)

  /** The items `processImage` of scripts/image-processor.mjs returns: the path is in `file`, there is no `originalPath`. */
  function FromProcessed(it: IP.Item): (d: DetailItem)
    ensures d.originalPath == None && d.tags == it.tags && d.title == it.title
  {
    DetailItem(it.title, it.category, it.slug, it.width, it.height, None, it.license, it.thumb, it.tags,
               it.description)
  }

  /** `value || fallback` for a string: a present value is used exactly as it is, unescaped. */
  function OrElse(value: string, fallback: string): (r: string)
    ensures value != "" ==> r == value
    ensures value == "" ==> r == fallback
  {
    if value == "" then fallback else value
  }

  /** `item.width || "?"`: a missing, `null` or zero dimension reads as `?`, any other as its decimal numeral. */
  function Dimension(n: Option<nat>): (r: string)
    ensures r != ""
    ensures r == "?" <==> n.None? || n.value == 0
    ensures forall i :: 0 <= i < |r| ==> IsDigit(r[i]) || r == "?"
  {
    if n.Some? && n.value != 0 then NatToString(n.value) else "?"
  }

  /** `path.extname(p).slice(1).toUpperCase() || "?"`. */
  function Format(p: string): (r: string)
    ensures r != ""
    ensures |NodeExtname(p)| <= 1 ==> r == "?"
    ensures |NodeExtname(p)| > 1 ==> |r| == |NodeExtname(p)| - 1 && forall i :: 0 <= i < |r| ==> !IsLower(r[i])
  {
    var e := NodeExtname(p);
    if |e| <= 1 then "?" else Upper(e[1..])
  }

  /** `path.basename(p) || "download"`. */
  function Filename(p: string): (r: string)
    ensures r != "" && '/' !in r
  {
    OrElse(Basename(p), "download")
  }

  /** The fallbacks of the `||` defaults. */
  const Untitled: string := "Untitled"
  const Unknown: string := "Unknown"
  const UnknownSlug: string := "unknown"
  const DefaultLicense: string := "CC0"

  lemma FallbacksNonEmpty()
    ensures Untitled != "" && Unknown != "" && UnknownSlug != "" && DefaultLicense != ""
  {
    assert Untitled[0] == 'U' && Unknown[0] == 'U' && UnknownSlug[0] == 'u' && DefaultLicense[0] == 'C';
  }

  /** No variable of `r` has an empty value. */
  predicate Filled(r: seq<Binding>) {
    forall b :: b in r ==> b.value != ""
  }

  /** `item.title || "Untitled"`, `item.category || "Unknown"`, `item.slug || "unknown"`. */
  function Labels(item: DetailItem): (r: seq<Binding>)
    ensures |r| == 3 && Filled(r)
  {
    FallbacksNonEmpty();
    [Binding(TitleKey, OrElse(item.title, Untitled)), Binding(CategoryKey, OrElse(item.category, Unknown)),
     Binding(SlugKey, OrElse(item.slug, UnknownSlug))]
  }

  /** `item.width || "?"`, `item.height || "?"` and the format. */
  function Measures(item: DetailItem, p: string): (r: seq<Binding>)
    ensures |r| == 3 && Filled(r)
  {
    [Binding(WidthKey, Dimension(item.width)), Binding(HeightKey, Dimension(item.height)),
     Binding(FormatKey, Format(p))]
  }

  /** `item.license || "CC0"` and the download file name. */
  function Download(item: DetailItem, p: string): (r: seq<Binding>)
    ensures |r| == 2 && Filled(r)
  {
    FallbacksNonEmpty();
    [Binding(LicenseKey, OrElse(item.license, DefaultLicense)), Binding(FilenameKey, Filename(p))]
  }

  /** The variables with an `||` default, in order: title, category, slug, width, height, format, license, filename. None is ever empty. */
  function Defaulted(item: DetailItem, p: string): (r: seq<Binding>)
    ensures |r| == 8 && Filled(r)
  {
    var a, b, c := Labels(item), Measures(item, p), Download(item, p);
    assert forall x :: x in a + b + c ==> x in a || x in b || x in c;
    a + b + c
  }

  const TitleKey: string := "title"
  const CategoryKey: string := "category"
  const SlugKey: string := "slug"
  const WidthKey: string := "width"
  const HeightKey: string := "height"
  const FormatKey: string := "format"
  const LicenseKey: string := "license"
  const FilenameKey: string := "filename"
  const OriginalPathKey: string := "originalPath"
  const ThumbKey: string := "thumb"
  const TagsKey: string := "tags"
  const DescriptionKey: string := "description"

  /** The variables without a default: originalPath, thumb, the tags joined by `,`, and description. */
  function Undefaulted(item: DetailItem, p: string): (r: seq<Binding>)
    ensures |r| == 4
  {
    [Binding(OriginalPathKey, p), Binding(ThumbKey, item.thumb), Binding(TagsKey, Join(item.tags, ",")),
     Binding(DescriptionKey, item.description)]
  }

  /** The `variables` object; building it fails (`TypeError`) when `originalPath` is not a string. */
  function Variables(item: DetailItem): (r: Result<seq<Binding>, string>)
    ensures r.Success? <==> item.originalPath.Some?
    ensures r.Success? ==> |r.value| == 12
  {
    match item.originalPath
    case None => Failure("TypeError")
    case Some(p) => Success(Defaulted(item, p) + Undefaulted(item, p))
  }

  // ---------------------------------------------------------------- String.prototype.replace

  /** The replacement string with its `$` patterns expanded for one match. */
  function Expand(v: string, before: string, matched: string, after: string): (r: string)
    ensures '$' !in v ==> r == v
    decreases |v|
  {
    if v == [] then []
    else if v[0] == '$' && |v| >= 2 && (v[1] == '$' || v[1] == '&' || v[1] == '`' || v[1] == '\'') then
      var piece := if v[1] == '$' then "$" else if v[1] == '&' then matched else if v[1] == '`' then before else after;
      piece + Expand(v[2..], before, matched, after)
    else [v[0]] + Expand(v[1..], before, matched, after)
  }

  /** `s.replace(/pat/g, v)` from position `i` on: each occurrence found left to right is replaced. */
  function ReplaceFrom(s: string, pat: string, v: string, i: nat): string
    requires |pat| > 0 && i <= |s|
    decreases |s| - i
  {
    if i + |pat| > |s| then s[i..]
    else if s[i..i + |pat|] == pat then Expand(v, s[..i], pat, s[i + |pat|..]) + ReplaceFrom(s, pat, v, i + |pat|)
    else [s[i]] + ReplaceFrom(s, pat, v, i + 1)
  }

  function JsReplace(s: string, pat: string, v: string): string
    requires |pat| > 0
  {
    ReplaceFrom(s, pat, v, 0)
  }

  /** At an occurrence, a `$`-free value is written and the scan goes on after it, in both definitions. */
  lemma PlainMatchStep(s: string, pat: string, v: string, i: nat)
    requires |pat| > 0 && i + |pat| <= |s| && '$' !in v && s[i..i + |pat|] == pat
    ensures ReplaceFrom(s, pat, v, i) == v + ReplaceFrom(s, pat, v, i + |pat|)
    ensures ReplaceAll(s[i..], pat, v) == v + ReplaceAll(s[i + |pat|..], pat, v)
  {
    var t := s[i..];
    assert t[..|pat|] == s[i..i + |pat|];
    assert t[|pat|..] == s[i + |pat|..];
  }

  /** Elsewhere one character is copied and the scan moves on by one, in both definitions. */
  lemma PlainSkipStep(s: string, pat: string, v: string, i: nat)
    requires |pat| > 0 && i + |pat| <= |s| && s[i..i + |pat|] != pat
    ensures ReplaceFrom(s, pat, v, i) == [s[i]] + ReplaceFrom(s, pat, v, i + 1)
    ensures ReplaceAll(s[i..], pat, v) == [s[i]] + ReplaceAll(s[i + 1..], pat, v)
  {
    var t := s[i..];
    assert t[..|pat|] == s[i..i + |pat|];
    assert t[0] == s[i] && t[1..] == s[i + 1..];
  }

  /** Without a `$`, the replacement is put in literally: the plain left-to-right replacement. */
  lemma {:induction false} ReplaceFromPlain(s: string, pat: string, v: string, i: nat)
    requires |pat| > 0 && i <= |s| && '$' !in v
    ensures ReplaceFrom(s, pat, v, i) == ReplaceAll(s[i..], pat, v)
    decreases |s| - i
  {
    if i + |pat| <= |s| {
      if s[i..i + |pat|] == pat {
        PlainMatchStep(s, pat, v, i);
        ReplaceFromPlain(s, pat, v, i + |pat|);
      } else {
        PlainSkipStep(s, pat, v, i);
        ReplaceFromPlain(s, pat, v, i + 1);
      }
    }
  }

  /**
   * Every occurrence is replaced: with a `$`-free value the result is the text between the
   * occurrences joined with the value, where the same pieces joined with the pattern give the
   * input back and no piece contains the pattern.
   */
  lemma JsReplaceFills(s: string, pat: string, v: string)
    requires |pat| > 0 && '$' !in v
    ensures JsReplace(s, pat, v) == Join(SplitOn(s, pat), v)
    ensures Join(SplitOn(s, pat), pat) == s
    ensures forall i :: 0 <= i < |SplitOn(s, pat)| ==> !Contains(SplitOn(s, pat)[i], pat)
  {
    ReplaceFromPlain(s, pat, v, 0);
    assert s[0..] == s;
    ReplaceAllJoinsPieces(s, pat, v);
    SplitOnJoin(s, pat);
    SplitOnPiecesFree(s, pat);
  }

  /** A value of `$&` puts the matched placeholder back, so such a title leaves `{{title}}` in the page. */
  lemma DollarAmpersandKeepsMatch(pat: string)
    requires |pat| > 0
    ensures JsReplace(pat, pat, "$&") == pat
  {
    var v := "$&";
    assert pat[0..|pat|] == pat && pat[..0] == [] && pat[|pat|..] == [];
    assert v[0] == '$' && v[1] == '&' && v[2..] == [];
    assert Expand(v, [], pat, []) == pat + Expand([], [], pat, []);
    assert ReplaceFrom(pat, pat, v, |pat|) == [];
  }

  /** Text in which the pattern cannot start is left as it is. */
  lemma {:induction false} ReplaceFromAbsent(s: string, pat: string, v: string, i: nat)
    requires |pat| > 0 && i <= |s| && pat[0] !in s
    ensures ReplaceFrom(s, pat, v, i) == s[i..]
    decreases |s| - i
  {
    if i + |pat| <= |s| {
      assert s[i..i + |pat|][0] == s[i];
      ReplaceFromAbsent(s, pat, v, i + 1);
      assert s[i..] == [s[i]] + s[i + 1..];
    }
  }

  // ---------------------------------------------------------------- the three passes

  /** The variables substituted one after the other, each on the text the previous ones left. */
  function Substitute(html: string, vars: seq<Binding>): string
    decreases |vars|
  {
    if vars == [] then html
    else
      var last := vars[|vars| - 1];
      JsReplace(Substitute(html, vars[..|vars| - 1]), Placeholder(last.key), last.value)
  }

  /** The `for (const [key, value] of Object.entries(variables))` loop. */
  method SubstituteVariables(template: string, vars: seq<Binding>) returns (html: string)
    ensures html == Substitute(template, vars)
  {
    html := template;
    for i := 0 to |vars|
      invariant html == Substitute(template, vars[..i])
    {
      assert vars[..i + 1][..i] == vars[..i];
      html := JsReplace(html, Placeholder(vars[i].key), vars[i].value);
    }
    assert vars[..|vars|] == vars;
  }

  /** A template without any `{` has no placeholder to fill. */
  lemma {:induction false} SubstituteBraceFree(html: string, vars: seq<Binding>)
    requires '{' !in html
    ensures Substitute(html, vars) == html
    decreases |vars|
  {
    if vars != [] {
      SubstituteBraceFree(html, vars[..|vars| - 1]);
      ReplaceFromAbsent(html, Placeholder(vars[|vars| - 1].key), vars[|vars| - 1].value, 0);
      assert html[0..] == html;
    }
  }

  const EachOpen: string := Placeholder("#each tags")
  const EachClose: string := Placeholder("/each")
  const IfOpen: string := Placeholder("#if description")
  const IfClose: string := Placeholder("/if")
  const This: string := Placeholder("this")

  /** One copy of an each-block's content for one tag. */
  function TagCopy(content: string, tag: string): string {
    JsReplace(content, This, tag)
  }

  /** `tags.map(tag => content.replace(/{{this}}/g, tag))`. */
  function TagCopies(content: string, tags: seq<string>): (r: seq<string>)
    ensures |r| == |tags|
    ensures forall i :: 0 <= i < |tags| ==> r[i] == TagCopy(content, tags[i])
  {
    seq(|tags|, i requires 0 <= i < |tags| => TagCopy(content, tags[i]))
  }

  /** The each-block callback: "" without tags, otherwise the copies joined with "". */
  function EachBody(content: string, tags: seq<string>): string {
    if tags == [] then "" else Concat(TagCopies(content, tags))
  }

  /** One more tag adds one more copy at the end: the copies follow the tags' order. */
  lemma EachBodySnoc(content: string, tags: seq<string>, tag: string)
    ensures EachBody(content, tags + [tag]) == EachBody(content, tags) + TagCopy(content, tag)
  {
    var copy := TagCopy(content, tag);
    assert TagCopies(content, tags + [tag]) == TagCopies(content, tags) + [copy] by {
      forall i | 0 <= i < |tags| ensures (tags + [tag])[i] == tags[i] { }
    }
    ConcatAppend(TagCopies(content, tags), [copy]);
    assert Concat([copy]) == copy + Concat([]);
  }

  /** The if-block callback: the content when the description is truthy, "" otherwise. */
  function IfBody(content: string, description: string): (r: string)
    ensures r == content <==> description != "" || content == ""
    ensures r == "" || r == content
  {
    if description != "" then content else ""
  }

  /** The page `replaceTemplateVariables(template, item)` returns, or the error it throws. */
  function DetailHtml(template: string, item: DetailItem): (r: Result<string, string>)
    ensures r.Success? <==> item.originalPath.Some?
  {
    match Variables(item)
    case Failure(e) => Failure(e)
    case Success(vars) =>
      var html := Substitute(template, vars);
      var html := ReplaceBlocks(html, EachOpen, EachClose, c => EachBody(c, item.tags));
      Success(ReplaceBlocks(html, IfOpen, IfClose, c => IfBody(c, item.description)))
  }

  /** `replaceTemplateVariables(template, item)`. */
  method ReplaceTemplateVariables(template: string, item: DetailItem) returns (r: Result<string, string>)
    ensures r == DetailHtml(template, item)
  {
    var vars := Variables(item);
    if vars.Failure? {
      return Failure(vars.error);
    }
    var html := SubstituteVariables(template, vars.value);
    html := ReplaceBlocks(html, EachOpen, EachClose, c => EachBody(c, item.tags));
    html := ReplaceBlocks(html, IfOpen, IfClose, c => IfBody(c, item.description));
    return Success(html);
  }

  /** Every item from `processImage` makes the generator throw: none carries `originalPath`. */
  lemma ProcessedItemsFail(template: string, it: IP.Item)
    ensures DetailHtml(template, FromProcessed(it)).Failure?
  {
  }

  /** A template without `{` comes back unchanged for any item with a path. */
  lemma BraceFreeTemplate(template: string, item: DetailItem)
    requires '{' !in template && item.originalPath.Some?
    ensures DetailHtml(template, item) == Success(template)
  {
    SubstituteBraceFree(template, Variables(item).value);
    ReplaceBlocksAbsent(template, EachOpen, EachClose, c => EachBody(c, item.tags));
    ReplaceBlocksAbsent(template, IfOpen, IfClose, c => IfBody(c, item.description));
  }

  /** The each pass on a template whose text and block content have no `{`: one copy per tag in place of the block, nothing for no tags. */
  lemma EachPass(a: string, content: string, b: string, tags: seq<string>)
    requires '{' !in a && '{' !in content
    ensures ReplaceBlocks(a + EachOpen + content + EachClose + b, EachOpen, EachClose, c => EachBody(c, tags))
         == a + EachBody(content, tags) + ReplaceBlocks(b, EachOpen, EachClose, c => EachBody(c, tags))
    ensures tags == [] ==> EachBody(content, tags) == ""
  {
    ReplaceBlocksFirst(a, EachOpen, content, EachClose, b, c => EachBody(c, tags));
  }

  /** The if pass on a template whose text and block content have no `{`: the content stays exactly when there is a description. */
  lemma IfPass(a: string, content: string, b: string, description: string)
    requires '{' !in a && '{' !in content
    ensures ReplaceBlocks(a + IfOpen + content + IfClose + b, IfOpen, IfClose, c => IfBody(c, description))
         == a + (if description != "" then content else "")
            + ReplaceBlocks(b, IfOpen, IfClose, c => IfBody(c, description))
  {
    ReplaceBlocksFirst(a, IfOpen, content, IfClose, b, c => IfBody(c, description));
  }
}
