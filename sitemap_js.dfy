/**
 * scripts/sitemap-generator.mjs: the routes of the JavaScript builds' sitemap,
 * the sitemap document itself and the GitHub Pages base URL. The routes are
 * the site root, `index.html`, and for each catalogue item the URL of its
 * original file and of its detail page, kept once each in first-insertion
 * order (a `Set`). The document is an `<urlset>` of the Sitemaps XML format
 * 0.9 with one `<url><loc>` line per route, written without entity escaping.
 * scripts/build-index.mjs builds the same routes inline and the same
 * document with a final newline.
 */
module SitemapJs {
  import opened Wrappers
  import opened Text

  /** What a route needs of a catalogue item: its `file` and its `slug`. */
  datatype Page = Page(file: string, slug: string)

  /** `${baseUrl}${item.file}`: the original image. */
  function FileUrl(baseUrl: string, p: Page): string {
    baseUrl + p.file
  }

  /** `${baseUrl}items/${item.slug}/`: the item's detail page. */
  function DetailUrl(baseUrl: string, p: Page): string {
    baseUrl + "items/" + p.slug + "/"
  }

  /** The URLs the items add to the set, two per item in item order, before de-duplication. */
  function ItemUrls(baseUrl: string, pages: seq<Page>): (urls: seq<string>)
    ensures |urls| == 2 * |pages|
    ensures forall i :: 0 <= i < |pages| ==> urls[2 * i] == FileUrl(baseUrl, pages[i])
    ensures forall i :: 0 <= i < |pages| ==> urls[2 * i + 1] == DetailUrl(baseUrl, pages[i])
  {
    if pages == [] then []
    else
      var last := pages[|pages| - 1];
      ItemUrls(baseUrl, pages[..|pages| - 1]) + [FileUrl(baseUrl, last), DetailUrl(baseUrl, last)]
  }

  /** The two routes every sitemap starts with. */
  function StartRoutes(baseUrl: string): seq<string> {
    [baseUrl, baseUrl + "index.html"]
  }

  /** `Array.from(routes)`: the set seeded with the start routes, then every item URL added in turn. */
  function Routes(baseUrl: string, pages: seq<Page>): seq<string> {
    AddAll(StartRoutes(baseUrl), ItemUrls(baseUrl, pages))
  }

  /** `generateRoutes(baseUrl, items)`. */
  method GenerateRoutes(baseUrl: string, pages: seq<Page>) returns (routes: seq<string>)
    ensures routes == Routes(baseUrl, pages)
  {
    routes := StartRoutes(baseUrl);
    var i := 0;
    while i < |pages|
      invariant 0 <= i <= |pages|
      invariant routes == AddAll(StartRoutes(baseUrl), ItemUrls(baseUrl, pages[..i]))
    {
      assert pages[..i + 1][..i] == pages[..i];
      AddAllSnoc2(StartRoutes(baseUrl), ItemUrls(baseUrl, pages[..i]), FileUrl(baseUrl, pages[i]), DetailUrl(baseUrl, pages[i]));
      routes := Add(routes, FileUrl(baseUrl, pages[i]));
      routes := Add(routes, DetailUrl(baseUrl, pages[i]));
      i := i + 1;
    }
    assert pages[..i] == pages;
  }

  /** The route list opens with the site root and `index.html`, holds no URL twice and at most two per item. */
  lemma RoutesShape(baseUrl: string, pages: seq<Page>)
    ensures var r := Routes(baseUrl, pages);
      && |r| >= 2 && r[0] == baseUrl && r[1] == baseUrl + "index.html"
      && Distinct(r)
      && |r| <= 2 + 2 * |pages|
  {
    var s := StartRoutes(baseUrl);
    assert |s[1]| > |s[0]|;
    assert Distinct(s);
  }

  /**
   * A URL is a route exactly when it is the root, `index.html`, or the file or detail URL of
   * some item: no category or tag pages are listed.
   */
  lemma RoutesMembers(baseUrl: string, pages: seq<Page>, u: string)
    ensures u in Routes(baseUrl, pages) <==>
      || u == baseUrl || u == baseUrl + "index.html"
      || exists i :: 0 <= i < |pages| && (u == FileUrl(baseUrl, pages[i]) || u == DetailUrl(baseUrl, pages[i]))
  {
    ItemUrlsMembers(baseUrl, pages, u);
    assert u in StartRoutes(baseUrl) <==> u == baseUrl || u == baseUrl + "index.html";
  }

  lemma ItemUrlsMembers(baseUrl: string, pages: seq<Page>, u: string)
    ensures u in ItemUrls(baseUrl, pages) <==>
      exists i :: 0 <= i < |pages| && (u == FileUrl(baseUrl, pages[i]) || u == DetailUrl(baseUrl, pages[i]))
  {
    var urls := ItemUrls(baseUrl, pages);
    if u in urls {
      var k :| 0 <= k < |urls| && urls[k] == u;
      var i := k / 2;
      if k == 2 * i {
        assert u == FileUrl(baseUrl, pages[i]);
      } else {
        assert k == 2 * i + 1;
        assert u == DetailUrl(baseUrl, pages[i]);
      }
    }
    if exists i :: 0 <= i < |pages| && (u == FileUrl(baseUrl, pages[i]) || u == DetailUrl(baseUrl, pages[i])) {
      var i :| 0 <= i < |pages| && (u == FileUrl(baseUrl, pages[i]) || u == DetailUrl(baseUrl, pages[i]));
      assert urls[2 * i] == FileUrl(baseUrl, pages[i]) && urls[2 * i + 1] == DetailUrl(baseUrl, pages[i]);
    }
  }

  /** Two items with the same file add one file route, not two. */
  lemma SameFileListedOnce(baseUrl: string, a: Page, b: Page)
    requires a.file == b.file && a.slug != b.slug
    ensures Routes(baseUrl, [a, b]) ==
      AddAll(StartRoutes(baseUrl), [FileUrl(baseUrl, a), DetailUrl(baseUrl, a), DetailUrl(baseUrl, b)])
  {
    var s := StartRoutes(baseUrl);
    var urls := ItemUrls(baseUrl, [a, b]);
    assert [a, b][..1] == [a];
    assert [a][..0] == [];
    assert [a, b][0] == a && [a, b][1] == b;
    assert urls[2 * 0] == FileUrl(baseUrl, a) && urls[2 * 0 + 1] == DetailUrl(baseUrl, a);
    assert urls[2 * 1] == FileUrl(baseUrl, b) && urls[2 * 1 + 1] == DetailUrl(baseUrl, b);
    assert urls == [FileUrl(baseUrl, a), DetailUrl(baseUrl, a), FileUrl(baseUrl, b), DetailUrl(baseUrl, b)];
    var three := [FileUrl(baseUrl, a), DetailUrl(baseUrl, a), DetailUrl(baseUrl, b)];
    AddAllSnoc2(s, [], FileUrl(baseUrl, a), DetailUrl(baseUrl, a));
    AddAllSnoc2(s, [FileUrl(baseUrl, a), DetailUrl(baseUrl, a)], FileUrl(baseUrl, b), DetailUrl(baseUrl, b));
    assert [FileUrl(baseUrl, a), DetailUrl(baseUrl, a)] + [FileUrl(baseUrl, b), DetailUrl(baseUrl, b)] == urls;
    assert [] + [FileUrl(baseUrl, a), DetailUrl(baseUrl, a)] == [FileUrl(baseUrl, a), DetailUrl(baseUrl, a)];
    AddAllSnoc(s, [FileUrl(baseUrl, a), DetailUrl(baseUrl, a)], DetailUrl(baseUrl, b));
    assert [FileUrl(baseUrl, a), DetailUrl(baseUrl, a)] + [DetailUrl(baseUrl, b)] == three;
  }

  // ---------------------------------------------------------------- the document

  const XmlDeclaration: string := "<?xml version=\"1.0\" encoding=\"UTF-8\"?>"
  /** The namespace of the Sitemaps XML format 0.9. */
  const SitemapNamespace: string := "http://www.sitemaps.org/schemas/sitemap/0.9"
  const UrlsetOpen: string := "<urlset xmlns=\"" + SitemapNamespace + "\">"
  const UrlsetClose: string := "</urlset>"

  /** `  <url><loc>${url}</loc></url>`: the route as it is, without escaping. */
  function UrlEntry(u: string): string {
    "  <url><loc>" + u + "</loc></url>"
  }

  function UrlEntries(routes: seq<string>): (entries: seq<string>)
    ensures |entries| == |routes|
    ensures forall i :: 0 <= i < |routes| ==> entries[i] == UrlEntry(routes[i])
  {
    seq(|routes|, i requires 0 <= i < |routes| => UrlEntry(routes[i]))
  }

  /** `generateSitemapXML(baseUrl, routes)`; the base URL is not used. */
  function GenerateSitemapXml(routes: seq<string>): string {
    XmlDeclaration + "\n" + UrlsetOpen + "\n" + Join(UrlEntries(routes), "\n") + "\n" + UrlsetClose
  }

  /**
   * Read line by line, the document is the declaration, the `<urlset>` opening tag, one
   * `<url>` entry per route in route order, and the closing tag, provided no route holds a
   * line break.
   */
  lemma SitemapLines(routes: seq<string>)
    requires |routes| >= 1
    requires forall i :: 0 <= i < |routes| ==> '\n' !in routes[i]
    ensures Split(GenerateSitemapXml(routes), '\n') == [XmlDeclaration, UrlsetOpen] + UrlEntries(routes) + [UrlsetClose]
  {
    var head := [XmlDeclaration, UrlsetOpen];
    var entries := UrlEntries(routes);
    var lines := head + entries + [UrlsetClose];
    assert Join(head, "\n") == XmlDeclaration + "\n" + UrlsetOpen by {
      assert head[1..] == [UrlsetOpen];
    }
    JoinAppend(head, entries, "\n");
    JoinAppend(head + entries, [UrlsetClose], "\n");
    assert GenerateSitemapXml(routes) == Join(lines, "\n");
    forall i | 0 <= i < |lines| ensures '\n' !in lines[i] {
      if 2 <= i < |lines| - 1 {
        EntryLine(routes[i - 2]);
      } else {
        FixedLines();
      }
    }
    SplitJoin(lines, '\n');
  }

  lemma EntryLine(u: string)
    requires '\n' !in u
    ensures '\n' !in UrlEntry(u)
  {
    assert '\n' !in "  <url><loc>" && '\n' !in "</loc></url>";
  }

  lemma FixedLines()
    ensures '\n' !in XmlDeclaration && '\n' !in UrlsetOpen && '\n' !in UrlsetClose
  {
    OpenTagLine();
  }

  lemma OpenTagLine()
    ensures '\n' !in UrlsetOpen
  {
    assert '\n' !in SitemapNamespace;
  }

  // ---------------------------------------------------------------- the base URL

  /** The repository `getBaseUrl()` falls back to. */
  const DefaultRepository: string := "owner/repo"

  /** `process.env.GITHUB_REPOSITORY || "owner/repo"`: an unset or empty variable falls back. */
  function Repository(env: Option<string>): string {
    if env.Some? && env.value != "" then env.value else DefaultRepository
  }

  /**
   * The URL built from a repository name split on `/`: the first piece is the owner, the
   * second the repository, `undefined` when missing.
   */
  function BaseUrlOf(repository: string): string {
    var parts := Split(repository, '/');
    "https://" + parts[0] + ".github.io/" + (if |parts| > 1 then parts[1] else "undefined") + "/"
  }

  /** `getBaseUrl()`. */
  function GetBaseUrl(env: Option<string>): string {
    BaseUrlOf(Repository(env))
  }

  /** `owner/repo` (and any further segments) gives `https://owner.github.io/repo/`. */
  lemma BaseUrlOfRepository(owner: string, repo: string, more: seq<string>)
    requires '/' !in owner && '/' !in repo
    requires forall i :: 0 <= i < |more| ==> '/' !in more[i]
    ensures BaseUrlOf(owner + "/" + Join([repo] + more, "/")) == "https://" + owner + ".github.io/" + repo + "/"
  {
    var parts := [owner] + ([repo] + more);
    assert parts[1..] == [repo] + more;
    assert Join(parts, "/") == owner + "/" + Join([repo] + more, "/");
    SplitJoin(parts, '/');
  }

  /** A set variable `owner/repo[/...]` gives `https://owner.github.io/repo/`. */
  lemma GetBaseUrlOf(owner: string, repo: string, more: seq<string>)
    requires '/' !in owner && '/' !in repo
    requires forall i :: 0 <= i < |more| ==> '/' !in more[i]
    ensures GetBaseUrl(Some(owner + "/" + Join([repo] + more, "/"))) == "https://" + owner + ".github.io/" + repo + "/"
  {
    assert Repository(Some(owner + "/" + Join([repo] + more, "/"))) == owner + "/" + Join([repo] + more, "/");
    BaseUrlOfRepository(owner, repo, more);
  }

  /** Without the variable, or with it empty, the default `owner/repo` gives `https://owner.github.io/repo/`. */
  lemma GetBaseUrlDefault(env: Option<string>)
    requires env.None? || env == Some("")
    ensures GetBaseUrl(env) == "https://" + "owner" + ".github.io/" + "repo" + "/"
  {
    var r := Repository(env);
    assert r == "owner" + "/" + Join(["repo"] + [], "/") by {
      DefaultRepositoryParts();
    }
    BaseUrlOfRepository("owner", "repo", []);
  }

  lemma DefaultRepositoryParts()
    ensures DefaultRepository == "owner" + "/" + Join(["repo"] + [], "/")
  {
    assert ["repo"] + [] == ["repo"];
  }

  /** A value without `/` names the owner only, and the repository segment becomes `undefined`. */
  lemma GetBaseUrlNoSlash(s: string)
    requires s != "" && '/' !in s
    ensures GetBaseUrl(Some(s)) == "https://" + s + ".github.io/undefined/"
  {
    SplitWithoutSeparator(s, '/');
  }
}
