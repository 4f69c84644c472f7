/**
 * scripts/SitemapGenerator.php: the sitemap of the class-based PHP build. The
 * route list is the home page, the tag index `tags.html`, one page per
 * distinct category, one per distinct tag across all items, and one detail
 * page per item, in that order; category and tag are `urlencode`d into a
 * query string, and detail pages are not de-duplicated. Each route becomes a
 * five-line `<url>` block of the Sitemaps XML format 0.9 with `<loc>`,
 * `<lastmod>` and `<priority>`, the `<loc>` escaped with
 * `htmlspecialchars(..., ENT_XML1)`. The clock `date('c')` is an input.
 */
module SitemapPhp {
  import opened Text
  import opened Escape
  import opened UrlEncoding
  import IPP = ImageProcessorPhp
  import SitemapJs

  type Item = IPP.Item

  /** The GitHub account the site is published under. */
  const Owner: string := "yohyama0216"

  /**
   * `getBaseUrl()`: fixed, and without a trailing slash: the owner's GitHub Pages host and the
   * repository `yohyama0216.github.io-free-image-material-`.
   */
  const BaseUrl: string := "https://" + Owner + ".github.io" + "/" + Owner + ".github.io" + "-free-image" + "-material-"

  /** One entry of `$routes`. */
  datatype Route = Route(url: string, lastmod: string, priority: string)

  // ---------------------------------------------------------------- generateRoutes

  /** `array_column($items, 'category')`. */
  function CategoryColumn(items: seq<Item>): (cs: seq<string>)
    ensures |cs| == |items|
    ensures forall i :: 0 <= i < |items| ==> cs[i] == items[i].category
  {
    seq(|items|, i requires 0 <= i < |items| => items[i].category)
  }

  /** `array_unique(array_column($items, 'category'))`: each category once, at its first occurrence. */
  function Categories(items: seq<Item>): seq<string> {
    Dedup(CategoryColumn(items))
  }

  /** `$allTags` after the `array_merge` loop: every item's tags, in item order. */
  function AllTags(items: seq<Item>): seq<string> {
    if items == [] then [] else AllTags(items[..|items| - 1]) + items[|items| - 1].tags
  }

  /** `array_unique($allTags)`. */
  function UniqueTags(items: seq<Item>): seq<string> {
    Dedup(AllTags(items))
  }

  function HomeRoute(now: string): Route {
    Route(BaseUrl, now, "1.0")
  }

  function TagIndexRoute(now: string): Route {
    Route(BaseUrl + "/tags.html", now, "0.8")
  }

  const CategoryQuery: string := "/?category="
  const TagQuery: string := "/?tag="

  /** The URLs `$baseUrl . $query . urlencode($name)` for each name, in order. */
  function QueryUrls(query: string, names: seq<string>): (urls: seq<string>)
    ensures |urls| == |names|
    ensures forall i :: 0 <= i < |names| ==> urls[i] == BaseUrl + query + UrlEncode(names[i])
  {
    seq(|names|, i requires 0 <= i < |names| => BaseUrl + query + UrlEncode(names[i]))
  }

  /** Routes with the given URLs, all with the same `lastmod` and `priority`. */
  function RoutesOf(urls: seq<string>, now: string, priority: string): (rs: seq<Route>)
    ensures |rs| == |urls|
    ensures forall i :: 0 <= i < |urls| ==> rs[i] == Route(urls[i], now, priority)
  {
    seq(|urls|, i requires 0 <= i < |urls| => Route(urls[i], now, priority))
  }

  /** An item's detail page, dated by the item's `updatedAt`. */
  function DetailRoute(item: Item): Route {
    Route(BaseUrl + "/items/" + item.slug + "/", item.updatedAt, "0.9")
  }

  function DetailRoutes(items: seq<Item>): (rs: seq<Route>)
    ensures |rs| == |items|
    ensures forall i :: 0 <= i < |items| ==> rs[i] == DetailRoute(items[i])
  {
    seq(|items|, i requires 0 <= i < |items| => DetailRoute(items[i]))
  }

  /** The list `generateRoutes($items)` returns, with `date('c')` reading `now` throughout. */
  function Routes(now: string, items: seq<Item>): seq<Route> {
    [HomeRoute(now), TagIndexRoute(now)]
      + RoutesOf(QueryUrls(CategoryQuery, Categories(items)), now, "0.7")
      + RoutesOf(QueryUrls(TagQuery, UniqueTags(items)), now, "0.6")
      + DetailRoutes(items)
  }

  /** `generateRoutes($items)`: the two fixed routes, then one loop per kind of page. */
  method GenerateRoutes(now: string, items: seq<Item>) returns (routes: seq<Route>)
    ensures routes == Routes(now, items)
  {
    routes := [HomeRoute(now)];
    routes := routes + [TagIndexRoute(now)];
    assert routes == [HomeRoute(now), TagIndexRoute(now)];
    var categories := Dedup(CategoryColumn(items));
    routes := AppendQueryRoutes(routes, CategoryQuery, categories, now, "0.7");
    var allTags := CollectTags(items);
    var uniqueTags := Dedup(allTags);
    routes := AppendQueryRoutes(routes, TagQuery, uniqueTags, now, "0.6");
    routes := AppendDetailRoutes(routes, items);
    assert categories == Categories(items) && uniqueTags == UniqueTags(items);
  }

  /** The `foreach` over the categories or over the tags: one query route per name, in order. */
  method AppendQueryRoutes(routes: seq<Route>, query: string, names: seq<string>, now: string, priority: string)
    returns (routes': seq<Route>)
    ensures routes' == routes + RoutesOf(QueryUrls(query, names), now, priority)
  {
    routes' := routes;
    var i := 0;
    while i < |names|
      invariant 0 <= i <= |names|
      invariant routes' == routes + RoutesOf(QueryUrls(query, names[..i]), now, priority)
    {
      var url := BaseUrl + query + UrlEncode(names[i]);
      assert RoutesOf(QueryUrls(query, names[..i + 1]), now, priority)
        == RoutesOf(QueryUrls(query, names[..i]), now, priority) + [Route(url, now, priority)];
      routes' := routes' + [Route(url, now, priority)];
      i := i + 1;
    }
    assert names[..i] == names;
  }

  /** The `foreach` over the items: one detail route each, duplicates kept. */
  method AppendDetailRoutes(routes: seq<Route>, items: seq<Item>) returns (routes': seq<Route>)
    ensures routes' == routes + DetailRoutes(items)
  {
    routes' := routes;
    var i := 0;
    while i < |items|
      invariant 0 <= i <= |items|
      invariant routes' == routes + DetailRoutes(items[..i])
    {
      assert DetailRoutes(items[..i + 1]) == DetailRoutes(items[..i]) + [DetailRoute(items[i])];
      routes' := routes' + [Route(BaseUrl + "/items/" + items[i].slug + "/", items[i].updatedAt, "0.9")];
      i := i + 1;
    }
    assert items[..i] == items;
  }

  /** The `array_merge` loop over the items' tags. */
  method CollectTags(items: seq<Item>) returns (allTags: seq<string>)
    ensures allTags == AllTags(items)
    ensures forall t :: t in allTags <==> exists i :: 0 <= i < |items| && t in items[i].tags
  {
    allTags := [];
    var i := 0;
    while i < |items|
      invariant 0 <= i <= |items|
      invariant allTags == AllTags(items[..i])
    {
      assert items[..i + 1][..i] == items[..i];
      allTags := allTags + items[i].tags;
      i := i + 1;
    }
    assert items[..i] == items;
    forall t ensures t in allTags <==> exists i :: 0 <= i < |items| && t in items[i].tags {
      AllTagsMembers(items, t);
    }
  }

  /** A tag is in the merged list exactly when some item carries it. */
  lemma {:induction false} AllTagsMembers(items: seq<Item>, t: string)
    ensures t in AllTags(items) <==> exists i :: 0 <= i < |items| && t in items[i].tags
    decreases |items|
  {
    if items != [] {
      var init := items[..|items| - 1];
      AllTagsMembers(init, t);
      if t in AllTags(items) && t !in items[|items| - 1].tags {
        var i :| 0 <= i < |init| && t in init[i].tags;
        assert items[i] == init[i];
      }
      if exists i :: 0 <= i < |init| && t in init[i].tags {
        var i :| 0 <= i < |init| && t in init[i].tags;
        assert items[i] == init[i];
      }
    }
  }

  // ---------------------------------------------------------------- what the routes are

  /** Where each kind of page starts in the route list. */
  function CategoryStart(): nat { 2 }

  function TagStart(items: seq<Item>): nat {
    2 + |Categories(items)|
  }

  function DetailStart(items: seq<Item>): nat {
    2 + |Categories(items)| + |UniqueTags(items)|
  }

  /** The route at `k` among the category pages. */
  lemma CategoryRouteAt(now: string, items: seq<Item>, k: nat)
    requires 2 <= k < TagStart(items)
    ensures k < |Routes(now, items)|
    ensures Routes(now, items)[k] == Route(BaseUrl + CategoryQuery + UrlEncode(Categories(items)[k - 2]), now, "0.7")
  {
    var fixed := [HomeRoute(now), TagIndexRoute(now)];
    var cs := RoutesOf(QueryUrls(CategoryQuery, Categories(items)), now, "0.7");
    var ts := RoutesOf(QueryUrls(TagQuery, UniqueTags(items)), now, "0.6");
    IndexMiddle(fixed, cs, ts, k);
    IndexFront(fixed + cs + ts, DetailRoutes(items), k);
  }

  /** The route at `k` among the tag pages. */
  lemma TagRouteAt(now: string, items: seq<Item>, k: nat)
    requires TagStart(items) <= k < DetailStart(items)
    ensures k < |Routes(now, items)|
    ensures Routes(now, items)[k] == Route(BaseUrl + TagQuery + UrlEncode(UniqueTags(items)[k - TagStart(items)]), now, "0.6")
  {
    var front := [HomeRoute(now), TagIndexRoute(now)] + RoutesOf(QueryUrls(CategoryQuery, Categories(items)), now, "0.7");
    var ts := RoutesOf(QueryUrls(TagQuery, UniqueTags(items)), now, "0.6");
    IndexMiddle(front, ts, DetailRoutes(items), k);
  }

  /** The route of the `j`-th item's detail page. */
  lemma DetailRouteAt(now: string, items: seq<Item>, j: nat)
    requires j < |items|
    ensures DetailStart(items) + j < |Routes(now, items)|
    ensures Routes(now, items)[DetailStart(items) + j] == DetailRoute(items[j])
  {
    var front := [HomeRoute(now), TagIndexRoute(now)]
      + RoutesOf(QueryUrls(CategoryQuery, Categories(items)), now, "0.7")
      + RoutesOf(QueryUrls(TagQuery, UniqueTags(items)), now, "0.6");
    assert |front| == DetailStart(items);
    assert Routes(now, items) == front + DetailRoutes(items);
  }

  /**
   * The route count is two, plus the number of distinct categories, plus the number of
   * distinct tags, plus one per item; the fixed routes come first, the detail pages last,
   * each dated by its item's `updatedAt`, and the priorities are fixed per kind of page.
   */
  lemma RouteLayout(now: string, items: seq<Item>)
    ensures var rs := Routes(now, items);
      && |rs| == 2 + |Categories(items)| + |UniqueTags(items)| + |items|
      && rs[0] == Route(BaseUrl, now, "1.0")
      && rs[1] == Route(BaseUrl + "/tags.html", now, "0.8")
      && (forall k :: 2 <= k < TagStart(items) ==> rs[k].lastmod == now && rs[k].priority == "0.7")
      && (forall k :: TagStart(items) <= k < DetailStart(items) ==> rs[k].lastmod == now && rs[k].priority == "0.6")
      && (forall j :: 0 <= j < |items| ==>
            rs[DetailStart(items) + j].lastmod == items[j].updatedAt && rs[DetailStart(items) + j].priority == "0.9")
  {
    var rs := Routes(now, items);
    forall k | 2 <= k < TagStart(items) ensures rs[k].lastmod == now && rs[k].priority == "0.7" {
      CategoryRouteAt(now, items, k);
    }
    forall k | TagStart(items) <= k < DetailStart(items) ensures rs[k].lastmod == now && rs[k].priority == "0.6" {
      TagRouteAt(now, items, k);
    }
    forall j | 0 <= j < |items|
      ensures rs[DetailStart(items) + j].lastmod == items[j].updatedAt && rs[DetailStart(items) + j].priority == "0.9"
    {
      DetailRouteAt(now, items, j);
    }
  }

  /** Distinct names give distinct query URLs, because `urlencode` is injective. */
  lemma QueryUrlsDistinct(query: string, names: seq<string>)
    requires Distinct(names)
    ensures Distinct(QueryUrls(query, names))
  {
    var urls := QueryUrls(query, names);
    forall a, b | 0 <= a < b < |urls| ensures urls[a] != urls[b] {
      if urls[a] == urls[b] {
        var p := BaseUrl + query;
        assert urls[a] == p + UrlEncode(names[a]) && urls[b] == p + UrlEncode(names[b]);
        assert UrlEncode(names[a]) == urls[a][|p|..] == urls[b][|p|..] == UrlEncode(names[b]);
        UrlEncodeInjective(names[a], names[b]);
      }
    }
  }

  /** A query URL is in the list exactly when its name is. */
  lemma QueryUrlsMembers(query: string, names: seq<string>, name: string)
    ensures BaseUrl + query + UrlEncode(name) in QueryUrls(query, names) <==> name in names
  {
    var urls := QueryUrls(query, names);
    var p := BaseUrl + query;
    if p + UrlEncode(name) in urls {
      var k :| 0 <= k < |urls| && urls[k] == p + UrlEncode(name);
      assert urls[k] == p + UrlEncode(names[k]);
      assert UrlEncode(name) == urls[k][|p|..] == UrlEncode(names[k]);
      UrlEncodeInjective(name, names[k]);
    }
    if name in names {
      var k :| 0 <= k < |names| && names[k] == name;
      assert urls[k] == p + UrlEncode(name);
    }
  }

  /**
   * The category pages: no URL twice, and a page for a category exactly when some item is
   * filed under it.
   */
  lemma CategoryPages(items: seq<Item>, c: string)
    ensures Distinct(QueryUrls(CategoryQuery, Categories(items)))
    ensures BaseUrl + CategoryQuery + UrlEncode(c) in QueryUrls(CategoryQuery, Categories(items))
      <==> exists i :: 0 <= i < |items| && items[i].category == c
  {
    QueryUrlsDistinct(CategoryQuery, Categories(items));
    QueryUrlsMembers(CategoryQuery, Categories(items), c);
    var column := CategoryColumn(items);
    if c in column {
      var i :| 0 <= i < |column| && column[i] == c;
      assert items[i].category == c;
    }
  }

  /** The tag pages: no URL twice, and a page for a tag exactly when some item carries it. */
  lemma TagPages(items: seq<Item>, t: string)
    ensures Distinct(QueryUrls(TagQuery, UniqueTags(items)))
    ensures BaseUrl + TagQuery + UrlEncode(t) in QueryUrls(TagQuery, UniqueTags(items))
      <==> exists i :: 0 <= i < |items| && t in items[i].tags
  {
    QueryUrlsDistinct(TagQuery, UniqueTags(items));
    QueryUrlsMembers(TagQuery, UniqueTags(items), t);
    AllTagsMembers(items, t);
  }

  /** Detail pages are not de-duplicated: two items with one slug give the same URL twice. */
  lemma SharedSlugListedTwice(now: string, items: seq<Item>, i: nat, j: nat)
    requires i < j < |items| && items[i].slug == items[j].slug
    ensures var rs := Routes(now, items);
      && DetailStart(items) + i < DetailStart(items) + j < |rs|
      && rs[DetailStart(items) + i].url == rs[DetailStart(items) + j].url
  {
    DetailRouteAt(now, items, i);
    DetailRouteAt(now, items, j);
  }

  // ---------------------------------------------------------------- escaping the locations

  /** A string with none of the characters `htmlspecialchars` rewrites, under any flags. */
  predicate Plain(s: string) {
    forall i :: 0 <= i < |s| ==> !Special(s[i], BothQuotes)
  }

  lemma PlainAppend(a: string, b: string)
    requires Plain(a) && Plain(b)
    ensures Plain(a + b)
  {
    forall i | 0 <= i < |a + b| ensures !Special((a + b)[i], BothQuotes) {
      if i >= |a| { assert (a + b)[i] == b[i - |a|]; }
    }
  }

  lemma PlainEscape(s: string, quotes: QuoteStyle)
    requires Plain(s)
    ensures HtmlSpecialChars(s, quotes) == s
  {
    forall i | 0 <= i < |s| ensures !Special(s[i], quotes) {}
    EscapePlain(s, quotes);
  }

  /** `Plain` from position `i` on, checked one character at a time. */
  predicate PlainFrom(s: string, i: nat)
    decreases |s| - i
  {
    i >= |s| || (!Special(s[i], BothQuotes) && PlainFrom(s, i + 1))
  }

  lemma {:induction false} PlainFromAll(s: string, i: nat)
    requires PlainFrom(s, i)
    ensures forall j :: i <= j < |s| ==> !Special(s[j], BothQuotes)
    decreases |s| - i
  {
    if i < |s| {
      PlainFromAll(s, i + 1);
    }
  }

  lemma PlainLiteral(s: string)
    requires PlainFrom(s, 0)
    ensures Plain(s)
  {
    PlainFromAll(s, 0);
  }

  /** The pieces the base URL is written with have nothing to escape. */
  lemma HostPiecesPlain()
    ensures Plain("https://") && Plain(Owner) && Plain(".github.io")
  {
    PlainLiteral("https://");
    PlainLiteral(Owner);
    PlainLiteral(".github.io");
  }

  lemma RepoPiecesPlain()
    ensures Plain("/") && Plain("-free-image") && Plain("-material-")
  {
    PlainLiteral("/");
    PlainLiteral("-free-image");
    PlainLiteral("-material-");
  }

  lemma BaseUrlPlain()
    ensures Plain(BaseUrl)
  {
    HostPiecesPlain();
    RepoPiecesPlain();
    var host := "https://" + Owner + ".github.io";
    PlainAppend("https://", Owner);
    PlainAppend("https://" + Owner, ".github.io");
    var repo := Owner + ".github.io" + "-free-image" + "-material-";
    PlainAppend(Owner, ".github.io");
    PlainAppend(Owner + ".github.io", "-free-image");
    PlainAppend(Owner + ".github.io" + "-free-image", "-material-");
    PlainAppend(host, "/");
    PlainAppend(host + "/", repo);
    assert BaseUrl == host + "/" + repo;
  }

  /** The fixed parts of every URL have nothing to escape. */
  lemma FixedPartsPlain()
    ensures Plain(BaseUrl) && Plain(CategoryQuery) && Plain(TagQuery)
    ensures Plain("/tags.html") && Plain("/items/") && Plain("/")
  {
    BaseUrlPlain();
    PlainLiteral(CategoryQuery);
    PlainLiteral(TagQuery);
    PlainLiteral("/tags.html");
    PlainLiteral("/items/");
    PlainLiteral("/");
  }

  lemma EncodedPlain(s: string)
    ensures Plain(UrlEncode(s))
  {
  }

  /**
   * `ENT_XML1` leaves quotes alone, but no route this generator makes has one, nor any other
   * character to escape, as long as the slugs have none: every `<loc>` is its URL verbatim.
   */
  lemma LocsAreUrls(now: string, items: seq<Item>)
    requires forall i :: 0 <= i < |items| ==> Plain(items[i].slug)
    ensures forall k :: 0 <= k < |Routes(now, items)| ==>
      HtmlSpecialChars(Routes(now, items)[k].url, NoQuotes) == Routes(now, items)[k].url
  {
    var rs := Routes(now, items);
    FixedPartsPlain();
    forall k | 0 <= k < |rs| ensures Plain(rs[k].url) {
      RouteUrlPlain(now, items, k);
    }
    forall k | 0 <= k < |rs| ensures HtmlSpecialChars(rs[k].url, NoQuotes) == rs[k].url {
      PlainEscape(rs[k].url, NoQuotes);
    }
  }

  lemma RouteUrlPlain(now: string, items: seq<Item>, k: nat)
    requires forall i :: 0 <= i < |items| ==> Plain(items[i].slug)
    requires k < |Routes(now, items)|
    ensures Plain(Routes(now, items)[k].url)
  {
    var rs := Routes(now, items);
    FixedPartsPlain();
    if k == 0 {
    } else if k == 1 {
      PlainAppend(BaseUrl, "/tags.html");
    } else if k < TagStart(items) {
      var c := Categories(items)[k - 2];
      CategoryRouteAt(now, items, k);
      PlainAppend(BaseUrl, CategoryQuery);
      EncodedPlain(c);
      PlainAppend(BaseUrl + CategoryQuery, UrlEncode(c));
    } else if k < DetailStart(items) {
      var t := UniqueTags(items)[k - TagStart(items)];
      TagRouteAt(now, items, k);
      PlainAppend(BaseUrl, TagQuery);
      EncodedPlain(t);
      PlainAppend(BaseUrl + TagQuery, UrlEncode(t));
    } else {
      var item := items[k - DetailStart(items)];
      DetailRouteAt(now, items, k - DetailStart(items));
      PlainAppend(BaseUrl, "/items/");
      PlainAppend(BaseUrl + "/items/", item.slug);
      PlainAppend(BaseUrl + "/items/" + item.slug, "/");
    }
  }

  // ---------------------------------------------------------------- generateSitemapXML

  const UrlOpenLine: string := "  <url>"
  const UrlCloseLine: string := "  </url>"

  /** `'    <loc>' . htmlspecialchars($url, ENT_XML1, 'UTF-8') . '</loc>'`. */
  function LocElement(url: string): string {
    "    <loc>" + HtmlSpecialChars(url, NoQuotes) + "</loc>"
  }

  function LastmodElement(lastmod: string): string {
    "    <lastmod>" + lastmod + "</lastmod>"
  }

  function PriorityElement(priority: string): string {
    "    <priority>" + priority + "</priority>"
  }

  /** The five lines of one `<url>` block. */
  function BlockLines(r: Route): (lines: seq<string>)
    ensures |lines| == 5
  {
    [UrlOpenLine, LocElement(r.url), LastmodElement(r.lastmod), PriorityElement(r.priority), UrlCloseLine]
  }

  /** The blocks of all routes, in route order. */
  function BodyLines(routes: seq<Route>): (lines: seq<string>)
    ensures |lines| == 5 * |routes|
  {
    if routes == [] then [] else BodyLines(routes[..|routes| - 1]) + BlockLines(routes[|routes| - 1])
  }

  function DocumentLines(routes: seq<Route>): seq<string> {
    [SitemapJs.XmlDeclaration, SitemapJs.UrlsetOpen] + BodyLines(routes) + [SitemapJs.UrlsetClose]
  }

  /** The document `generateSitemapXML($routes)` returns: every line, the last included, ends in a newline. */
  function SitemapXml(routes: seq<Route>): string {
    JoinTerminated(DocumentLines(routes), "\n")
  }

  /** `generateSitemapXML($routes)`: `$xml` grows by one line at a time. */
  method GenerateSitemapXml(routes: seq<Route>) returns (xml: string)
    ensures xml == SitemapXml(routes)
  {
    ghost var head := [SitemapJs.XmlDeclaration, SitemapJs.UrlsetOpen];
    xml := SitemapJs.XmlDeclaration + "\n";
    xml := xml + SitemapJs.UrlsetOpen + "\n";
    JoinTerminatedPair(SitemapJs.XmlDeclaration, SitemapJs.UrlsetOpen, "\n");
    var i := 0;
    while i < |routes|
      invariant 0 <= i <= |routes|
      invariant xml == JoinTerminated(head + BodyLines(routes[..i]), "\n")
    {
      xml := AppendBlock(xml, head + BodyLines(routes[..i]), routes[i]);
      BodySnoc(head, routes, i);
      i := i + 1;
    }
    assert routes[..i] == routes;
    JoinTerminatedSnoc(head + BodyLines(routes), SitemapJs.UrlsetClose, "\n");
    xml := xml + SitemapJs.UrlsetClose + "\n";
  }

  lemma BodySnoc(head: seq<string>, routes: seq<Route>, i: nat)
    requires i < |routes|
    ensures head + BodyLines(routes[..i + 1]) == head + BodyLines(routes[..i]) + BlockLines(routes[i])
  {
    assert routes[..i + 1][..i] == routes[..i];
    assert BodyLines(routes[..i + 1]) == BodyLines(routes[..i]) + BlockLines(routes[i]);
  }

  /** One pass of the `foreach`: the five lines of the route's block. */
  method AppendBlock(xml: string, ghost lines: seq<string>, r: Route) returns (xml': string)
    requires xml == JoinTerminated(lines, "\n")
    ensures xml' == JoinTerminated(lines + BlockLines(r), "\n")
  {
    var loc := "    <loc>" + HtmlSpecialChars(r.url, NoQuotes) + "</loc>";
    var lastmod := "    <lastmod>" + r.lastmod + "</lastmod>";
    var priority := "    <priority>" + r.priority + "</priority>";
    xml' := xml + "  <url>" + "\n";
    JoinTerminatedSnoc(lines, UrlOpenLine, "\n");
    xml' := xml' + loc + "\n";
    JoinTerminatedSnoc(lines + [UrlOpenLine], loc, "\n");
    xml' := xml' + lastmod + "\n";
    JoinTerminatedSnoc(lines + [UrlOpenLine] + [loc], lastmod, "\n");
    xml' := xml' + priority + "\n";
    JoinTerminatedSnoc(lines + [UrlOpenLine] + [loc] + [lastmod], priority, "\n");
    xml' := xml' + "  </url>" + "\n";
    JoinTerminatedSnoc(lines + [UrlOpenLine] + [loc] + [lastmod] + [priority], UrlCloseLine, "\n");
    assert lines + [UrlOpenLine] + [loc] + [lastmod] + [priority] + [UrlCloseLine] == lines + BlockLines(r);
  }

  /**
   * Read line by line, the document is the declaration, the `<urlset>` tag, five lines per
   * route in route order and the closing tag, followed by an empty last line. This holds as
   * long as no URL, date or priority holds a line break.
   */
  lemma SitemapLines(routes: seq<Route>)
    requires forall i :: 0 <= i < |routes| ==>
      '\n' !in routes[i].url && '\n' !in routes[i].lastmod && '\n' !in routes[i].priority
    ensures Split(SitemapXml(routes), '\n') == DocumentLines(routes) + [""]
  {
    var lines := DocumentLines(routes);
    assert SitemapXml(routes) == Join(lines + [""], "\n") by {
      JoinTerminatedIsJoin(lines, "\n");
      JoinAppend(lines, [""], "\n");
    }
    DocumentNoBreaks(routes);
    SplitJoin(lines + [""], '\n');
  }

  lemma DocumentNoBreaks(routes: seq<Route>)
    requires forall i :: 0 <= i < |routes| ==>
      '\n' !in routes[i].url && '\n' !in routes[i].lastmod && '\n' !in routes[i].priority
    ensures forall k :: 0 <= k < |DocumentLines(routes) + [""]| ==> '\n' !in (DocumentLines(routes) + [""])[k]
  {
    var body := BodyLines(routes);
    var head := [SitemapJs.XmlDeclaration, SitemapJs.UrlsetOpen];
    var tail := [SitemapJs.UrlsetClose, ""];
    assert DocumentLines(routes) + [""] == head + body + tail;
    BodyNoBreaks(routes);
    SitemapJs.FixedLines();
    forall k | 0 <= k < |head + body + tail| ensures '\n' !in (head + body + tail)[k] {
      if 2 <= k < 2 + |body| {
        IndexMiddle(head, body, tail, k);
      }
    }
  }

  lemma {:induction false} BodyNoBreaks(routes: seq<Route>)
    requires forall i :: 0 <= i < |routes| ==>
      '\n' !in routes[i].url && '\n' !in routes[i].lastmod && '\n' !in routes[i].priority
    ensures forall k :: 0 <= k < |BodyLines(routes)| ==> '\n' !in BodyLines(routes)[k]
    decreases |routes|
  {
    if routes != [] {
      var init := routes[..|routes| - 1];
      BodyNoBreaks(init);
      BlockNoBreaks(routes[|routes| - 1]);
      NoBreaksAppend(BodyLines(init), BlockLines(routes[|routes| - 1]));
    }
  }

  lemma BlockNoBreaks(r: Route)
    requires '\n' !in r.url && '\n' !in r.lastmod && '\n' !in r.priority
    ensures forall k :: 0 <= k < 5 ==> '\n' !in BlockLines(r)[k]
  {
    EscapeKeepsOut(r.url, NoQuotes, '\n');
    TagsNoBreaks();
    ElementTagsNoBreaks();
  }

  lemma TagsNoBreaks()
    ensures '\n' !in UrlOpenLine && '\n' !in UrlCloseLine && '\n' !in "    <loc>" && '\n' !in "</loc>"
  {
    LacksLiteral(UrlOpenLine, '\n');
    LacksLiteral(UrlCloseLine, '\n');
    LacksLiteral("    <loc>", '\n');
    LacksLiteral("</loc>", '\n');
  }

  lemma ElementTagsNoBreaks()
    ensures '\n' !in "    <lastmod>" && '\n' !in "</lastmod>"
    ensures '\n' !in "    <priority>" && '\n' !in "</priority>"
  {
    LacksLiteral("    <lastmod>", '\n');
    LacksLiteral("</lastmod>", '\n');
    LacksLiteral("    <priority>", '\n');
    LacksLiteral("</priority>", '\n');
  }

  lemma NoBreaksAppend(a: seq<string>, b: seq<string>)
    requires forall k :: 0 <= k < |a| ==> '\n' !in a[k]
    requires forall k :: 0 <= k < |b| ==> '\n' !in b[k]
    ensures forall k :: 0 <= k < |a + b| ==> '\n' !in (a + b)[k]
  {
    forall k | 0 <= k < |a + b| ensures '\n' !in (a + b)[k] {
      if k >= |a| { assert (a + b)[k] == b[k - |a|]; }
    }
  }

  /** Line `5 i + j` of the body is line `j` of the `i`-th route's block. */
  lemma {:induction false} BodyLineAt(routes: seq<Route>, i: nat, j: nat)
    requires i < |routes| && j < 5
    ensures BodyLines(routes)[5 * i + j] == BlockLines(routes[i])[j]
    decreases |routes|
  {
    var init := routes[..|routes| - 1];
    var last := BlockLines(routes[|routes| - 1]);
    if i < |init| {
      BodyLineAt(init, i, j);
      IndexFront(BodyLines(init), last, 5 * i + j);
      assert routes[i] == init[i];
    } else {
      assert BodyLines(routes)[5 * i + j] == last[j];
    }
  }

  /** The `i`-th route's block sits at lines `5 i` to `5 i + 4` of the body. */
  lemma BodyBlock(routes: seq<Route>, i: nat)
    requires i < |routes|
    ensures BodyLines(routes)[5 * i .. 5 * i + 5] == BlockLines(routes[i])
  {
    var block := BodyLines(routes)[5 * i .. 5 * i + 5];
    forall j | 0 <= j < 5 ensures block[j] == BlockLines(routes[i])[j] {
      BodyLineAt(routes, i, j);
    }
  }

  /** The `<loc>` of the `i`-th route decodes back to its URL, so the escaping loses nothing. */
  lemma LocDecodes(routes: seq<Route>, i: nat)
    requires i < |routes|
    ensures BodyLines(routes)[5 * i + 1] == LocElement(routes[i].url)
    ensures SpecialCharsDecode(HtmlSpecialChars(routes[i].url, NoQuotes)) == routes[i].url
  {
    BodyLineAt(routes, i, 1);
    DecodeEscape(routes[i].url, NoQuotes);
  }

  // ---------------------------------------------------------------- generateSitemap

  /** `generateSitemap($items)`: the document written to the sitemap file and the count echoed. */
  method GenerateSitemap(now: string, items: seq<Item>) returns (xml: string, count: nat)
    ensures xml == SitemapXml(Routes(now, items))
    ensures count == 2 + |Categories(items)| + |UniqueTags(items)| + |items|
  {
    var routes := GenerateRoutes(now, items);
    xml := GenerateSitemapXml(routes);
    RouteLayout(now, items);
    count := |routes|;
  }
}
