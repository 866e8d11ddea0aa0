/**
 * The page registry of one build: the `Site` object whose `pages` and
 * `posts` lists the directory walk fills, the configuration overlay, and the
 * manifests built from the finished registry.
 */
module Registry {
  import opened Wrappers
  import opened Text
  import opened Times
  import opened Paths
  import opened Filename
  import opened Pages
  import opened Files
  import opened FrontMatter
  import opened Content
  import opened Manifests

  /**
   * The category of a content file: the second '/'-separated element of its
   * path (the first under "content/" when the project root is the working
   * directory), or "page" when that element ends in ".md".
   */
  function Category(file: string): (c: string)
    requires '/' in file
    ensures c == "page" || ('/' !in c && !HasSuffix(c, ".md"))
  {
    var second := SecondElement(file);
    if HasSuffix(second, ".md") then "page" else second
  }

  /**
   * The category of `first/element<rest>` is `element`, or "page" when
   * `element` ends in ".md": "content/blog/x.md" is in "blog",
   * "content/about.md" is a "page", and "content/about.html" is in "about.html".
   */
  lemma CategoryRule(first: string, element: string, rest: string)
    requires '/' !in first && '/' !in element
    requires rest == [] || rest[0] == '/'
    ensures Category(first + "/" + element + rest) == if HasSuffix(element, ".md") then "page" else element
  {
    SecondElementOf(first, element, rest);
  }

  /** The page as built from the file alone, before its front matter is applied. */
  function InitialPage(file: string, siteUrl: string, rootDir: string, modTime: Time): (r: Page)
    requires '/' in file
    ensures r.permalink == siteUrl + r.urlPath
    ensures r.urlPath == [] || r.urlPath[|r.urlPath| - 1] == '/'
    ensures IsPost(r) ==> IsDatedName(Base(TrimmedPath(file, rootDir)))
    ensures r.title == "" && r.tags == [] && r.template == "default.html"
    ensures r.filepath == file && r.dateModified == modTime
    ensures r.category == Category(file)
  {
    var parsed := ParseFilename(file, rootDir);
    Page(
      title := "",
      tags := [],
      category := Category(file),
      template := "default.html",
      datePublished := parsed.published,
      dateModified := modTime,
      permalink := siteUrl + parsed.urlPath,
      urlPath := parsed.urlPath,
      filepath := file)
  }

  /**
   * The page `AddPageFromFile` registers for `file`, or the error that stops
   * it: a file that cannot be stat'ed, or front matter that cannot be read,
   * closed or decoded.
   */
  function NewPage(file: string, siteUrl: string, rootDir: string, fs: FileSystem, decode: Decoder): (r: Result<Page, Error>)
    requires '/' in file
    ensures r.Ok? <==> file in fs && ReadOverlay(file, fs, decode).Ok?
    ensures r.Ok? ==> r.value == Apply(ReadOverlay(file, fs, decode).value, InitialPage(file, siteUrl, rootDir, fs[file].modTime))
  {
    if file !in fs then Err(StatFailed(file))
    else ParseFrontMatter(InitialPage(file, siteUrl, rootDir, fs[file].modTime), fs, decode)
  }

  /**
   * The fields of a new page that its front matter does not set: the
   * permalink is the site URL followed by the URL path of the file name, the
   * template is "default.html", and the page is a post exactly when the file
   * name carries a non-zero date. A title the front matter sets is the title.
   */
  lemma NewPageDefaults(file: string, siteUrl: string, rootDir: string, fs: FileSystem, decode: Decoder)
    requires '/' in file
    requires NewPage(file, siteUrl, rootDir, fs, decode).Ok?
    ensures var p, o := NewPage(file, siteUrl, rootDir, fs, decode).value, ReadOverlay(file, fs, decode).value;
      var parsed := ParseFilename(file, rootDir);
      (o.permalink.None? ==> p.permalink == siteUrl + parsed.urlPath)
      && (o.urlPath.None? ==> p.urlPath == parsed.urlPath && (p.urlPath == [] || p.urlPath[|p.urlPath| - 1] == '/'))
      && (o.template.None? ==> p.template == "default.html")
      && (o.datePublished.None? ==> (IsPost(p) <==> !IsZero(parsed.published)))
      && (o.title.Some? ==> p.title == o.title.value)
      && (o.filepath.None? ==> p.filepath == file)
      && (o.category.None? ==> p.category == Category(file))
  {
    var o := ReadOverlay(file, fs, decode).value;
    var parsed := ParseFilename(file, rootDir);
    var initial := InitialPage(file, siteUrl, rootDir, fs[file].modTime);
    assert initial.urlPath == parsed.urlPath && initial.datePublished == parsed.published;
    assert NewPage(file, siteUrl, rootDir, fs, decode).value == Apply(o, initial);
  }

  /** Registering one more page adds it to the dated pages exactly when it has a non-zero date. */
  lemma {:induction false} PostsAppendOne(pages: seq<Page>, p: Page)
    ensures Posts(pages + [p]) == Posts(pages) + if IsPost(p) then [p] else []
  {
    assert (pages + [p])[..|pages|] == pages;
  }

  /** Appending a page, and appending it to the posts when it is one, keeps the posts in step with the pages. */
  lemma PostsInStep(pages: seq<Page>, posts: seq<Page>, p: Page)
    requires multiset(posts) == multiset(Posts(pages))
    ensures multiset(posts + if IsPost(p) then [p] else []) == multiset(Posts(pages + [p]))
  {
    PostsAppendOne(pages, p);
  }

  /** The posts of two runs of pages are the posts of each, in order. */
  lemma PostsAppend(a: seq<Page>, b: seq<Page>)
    ensures Posts(a + b) == Posts(a) + Posts(b)
  {
    PostsIsFilter(a + b);
    PostsIsFilter(a);
    PostsIsFilter(b);
    FilterAppend(a, b, IsPost);
  }

  /**
   * When `posts` holds the dated pages of `pages`, each as often as there,
   * a page is a post exactly when it is a registered page with a non-zero date.
   */
  lemma {:induction false} PostsArePages(pages: seq<Page>, posts: seq<Page>)
    requires multiset(posts) == multiset(Posts(pages))
    ensures forall p :: p in posts <==> p in pages && IsPost(p)
  {
    PostsIsFilter(pages);
    forall p ensures p in posts <==> p in pages && IsPost(p) {
      FilterCount(pages, IsPost, p);
      assert p in posts <==> p in multiset(posts);
      assert p in pages <==> p in multiset(pages);
    }
  }

  /** One entry of the directory walk, in walk order. */
  datatype WalkEntry = WalkEntry(path: string, isDir: bool)

  /** Every file of the walk has a '/' in its path (the walk starts at "<root>/content"). */
  predicate FilesHaveSlash(walk: seq<WalkEntry>) {
    forall i :: 0 <= i < |walk| && !walk[i].isDir ==> '/' in walk[i].path
  }

  /** The pages a walk registers, and the error that stopped it, if any. */
  datatype WalkOutcome = WalkOutcome(added: seq<Page>, err: Option<Error>)

  /** What the callback does with one entry: nothing for a directory, the page or the error for a file. */
  type Visit = Option<Result<Page, Error>>

  /** The walk callback on one entry: a directory is skipped, a file is built into a page. */
  function VisitEntry(entry: WalkEntry, siteUrl: string, rootDir: string, fs: FileSystem, decode: Decoder): (v: Visit)
    requires !entry.isDir ==> '/' in entry.path
    ensures v.None? <==> entry.isDir
    ensures v.Some? ==> (v.value.Ok? <==> entry.path in fs && ReadOverlay(entry.path, fs, decode).Ok?)
    ensures v.Some? && entry.path !in fs ==> v.value == Err(StatFailed(entry.path))
  {
    if entry.isDir then None else Some(NewPage(entry.path, siteUrl, rootDir, fs, decode))
  }

  /** The callback's result on every entry of the walk, in walk order. */
  function Visits(walk: seq<WalkEntry>, siteUrl: string, rootDir: string, fs: FileSystem, decode: Decoder): (vs: seq<Visit>)
    requires FilesHaveSlash(walk)
    ensures |vs| == |walk|
  {
    if walk == [] then []
    else
      assert FilesHaveSlash(walk[1..]) by {
        forall i | 0 <= i < |walk[1..]| && !walk[1..][i].isDir ensures '/' in walk[1..][i].path {
          assert walk[1..][i] == walk[i + 1];
        }
      }
      [VisitEntry(walk[0], siteUrl, rootDir, fs, decode)] + Visits(walk[1..], siteUrl, rootDir, fs, decode)
  }

  /** The `i`th callback result is the callback on the `i`th entry. */
  lemma {:induction false} VisitAt(walk: seq<WalkEntry>, siteUrl: string, rootDir: string, fs: FileSystem, decode: Decoder, i: nat)
    requires FilesHaveSlash(walk) && i < |walk|
    ensures Visits(walk, siteUrl, rootDir, fs, decode)[i] == VisitEntry(walk[i], siteUrl, rootDir, fs, decode)
    decreases i
  {
    if i > 0 {
      assert FilesHaveSlash(walk[1..]) by {
        forall k | 0 <= k < |walk[1..]| && !walk[1..][k].isDir ensures '/' in walk[1..][k].path {
          assert walk[1..][k] == walk[k + 1];
        }
      }
      VisitAt(walk[1..], siteUrl, rootDir, fs, decode, i - 1);
    }
  }

  /**
   * `filepath.WalkDir` driving the callback: every page built is kept in
   * order, and the first error stops the walk.
   */
  function Outcome(visits: seq<Visit>): (w: WalkOutcome)
    ensures |w.added| <= |visits|
  {
    if visits == [] then WalkOutcome([], None)
    else
      match visits[0]
      case None => Outcome(visits[1..])
      case Some(Err(e)) => WalkOutcome([], Some(e))
      case Some(Ok(p)) =>
        var after := Outcome(visits[1..]);
        WalkOutcome([p] + after.added, after.err)
  }

  /**
   * One more callback result: a skipped directory leaves the outcome to the
   * rest of the walk, an error ends it, and a page joins the pages before it.
   */
  lemma {:induction false} OutcomeAdvance(vs: seq<Visit>, i: nat, done: seq<Page>)
    requires i < |vs|
    requires Outcome(vs) == WalkOutcome(done + Outcome(vs[i..]).added, Outcome(vs[i..]).err)
    ensures vs[i].None? ==> Outcome(vs) == WalkOutcome(done + Outcome(vs[i + 1..]).added, Outcome(vs[i + 1..]).err)
    ensures vs[i].Some? && vs[i].value.Err? ==> Outcome(vs) == WalkOutcome(done, Some(vs[i].value.error))
    ensures vs[i].Some? && vs[i].value.Ok? ==>
      Outcome(vs) == WalkOutcome((done + [vs[i].value.value]) + Outcome(vs[i + 1..]).added, Outcome(vs[i + 1..]).err)
  {
    assert vs[i..][1..] == vs[i + 1..];
    if vs[i].Some? && vs[i].value.Ok? {
      AppendAssoc(done, [vs[i].value.value], Outcome(vs[i + 1..]).added);
    } else if vs[i].Some? {
      assert done + [] == done;
    }
  }

  /** The outcome of walking the content directory. */
  function Walk(walk: seq<WalkEntry>, siteUrl: string, rootDir: string, fs: FileSystem, decode: Decoder): (w: WalkOutcome)
    requires FilesHaveSlash(walk)
    ensures |w.added| <= |walk|
  {
    Outcome(Visits(walk, siteUrl, rootDir, fs, decode))
  }

  /** The decoded configuration file: the exported `Site` fields it sets. */
  datatype ConfigOverlay = ConfigOverlay(title: Option<string>, url: Option<string>, rootDir: Option<string>)

  /** The configured fields of a site. */
  datatype Config = Config(title: string, siteUrl: string, rootDir: string)

  /** The site URL with a '/' appended unless it already ends with one. */
  function NormalizeSiteUrl(url: string): (r: string)
    ensures HasSuffix(r, "/")
    ensures HasPrefix(r, url) && |r| <= |url| + 1
    ensures r == url <==> HasSuffix(url, "/")
  {
    if HasSuffix(url, "/") then url else url + "/"
  }

  /** Normalising a normalised URL changes nothing. */
  lemma NormalizeSiteUrlIdempotent(url: string)
    ensures NormalizeSiteUrl(NormalizeSiteUrl(url)) == NormalizeSiteUrl(url)
  {
  }

  /**
   * `parseConfig` on `&Site{RootDir: rootPath}`: a decoding error is
   * returned as it is; otherwise every field the file sets overrides the
   * default (empty title and URL, the root path as root directory) and the
   * site URL is made to end with '/'.
   */
  function ParseConfig(rootPath: string, decoded: Result<ConfigOverlay, string>): (r: Result<Config, string>)
    ensures r.Err? <==> decoded.Err?
    ensures r.Err? ==> r.error == decoded.error
    ensures r.Ok? ==>
      && HasSuffix(r.value.siteUrl, "/")
      && (decoded.value.url.Some? ==> HasPrefix(r.value.siteUrl, decoded.value.url.value))
      && (decoded.value.url.None? ==> r.value.siteUrl == "/")
      && r.value.title == decoded.value.title.GetOr("")
      && r.value.rootDir == decoded.value.rootDir.GetOr(rootPath)
    ensures r.Ok? ==> r.value.siteUrl == NormalizeSiteUrl(decoded.value.url.GetOr(""))
  {
    match decoded
    case Err(e) => Err(e)
    case Ok(c) => Ok(Config(c.title.GetOr(""), NormalizeSiteUrl(c.url.GetOr("")), c.rootDir.GetOr(rootPath)))
  }

  /** What stops a build before any page is rendered. */
  datatype LoadError = ConfigError(reason: string) | ContentError(error: Error)

  /**
   * One build's site: its configuration, fixed once the configuration file
   * is read, and its page registry.
   */
  class Site {
    var pages: seq<Page>
    var posts: seq<Page>
    const title: string
    const siteUrl: string
    const rootDir: string

    /** `posts` holds exactly the dated pages of `pages`, each as often as there. */
    ghost predicate Valid()
      reads this
    {
      multiset(posts) == multiset(Posts(pages))
    }

    /** A site with the given configuration and no pages yet. */
    constructor (config: Config)
      ensures pages == [] && posts == []
      ensures title == config.title && siteUrl == config.siteUrl && rootDir == config.rootDir
      ensures Valid()
    {
      pages, posts := [], [];
      title, siteUrl, rootDir := config.title, config.siteUrl, config.rootDir;
    }

    /**
     * `AddPageFromFile`: on an error nothing changes; otherwise the new page
     * is appended to `pages`, and to `posts` when it has a non-zero date.
     */
    method AddPageFromFile(file: string, fs: FileSystem, decode: Decoder) returns (err: Option<Error>)
      requires '/' in file
      modifies this`pages, this`posts
      ensures var r := NewPage(file, siteUrl, rootDir, fs, decode);
        (r.Err? ==> err == Some(r.error) && pages == old(pages) && posts == old(posts))
        && (r.Ok? ==>
              && err == None
              && pages == old(pages) + [r.value]
              && posts == old(posts) + if IsPost(r.value) then [r.value] else [])
      ensures old(Valid()) ==> Valid()
    {
      var r := NewPage(file, siteUrl, rootDir, fs, decode);
      if r.Err? {
        return Some(r.error);
      }
      Register(r.value);
      err := None;
    }

    /** The tail of `AddPageFromFile`: append the page, and to `posts` too when it is dated. */
    method Register(p: Page)
      modifies this`pages, this`posts
      ensures pages == old(pages) + [p]
      ensures posts == old(posts) + if IsPost(p) then [p] else []
      ensures old(Valid()) ==> Valid()
    {
      if Valid() {
        PostsInStep(pages, posts, p);
      }
      pages := pages + [p];
      if IsPost(p) {
        posts := posts + [p];
      }
    }

    /**
     * The `filepath.WalkDir` call of `readContent`: register the files of
     * the walk in order, skipping directories, until one fails.
     */
    method WalkContent(walk: seq<WalkEntry>, fs: FileSystem, decode: Decoder) returns (err: Option<Error>)
      requires FilesHaveSlash(walk)
      modifies this`pages, this`posts
      ensures var w := Walk(walk, siteUrl, rootDir, fs, decode);
        pages == old(pages) + w.added
        && err == w.err
        && posts == old(posts) + Posts(w.added)
      ensures old(Valid()) ==> Valid()
    {
      err := None;
      var i := 0;
      ghost var done: seq<Page> := [];
      ghost var vs := Visits(walk, siteUrl, rootDir, fs, decode);
      while i < |walk| && err.None?
        invariant 0 <= i <= |walk|
        invariant pages == old(pages) + done
        invariant posts == old(posts) + Posts(done)
        invariant err.None? ==> Outcome(vs) == WalkOutcome(done + Outcome(vs[i..]).added, Outcome(vs[i..]).err)
        invariant err.Some? ==> Outcome(vs) == WalkOutcome(done, err)
      {
        VisitAt(walk, siteUrl, rootDir, fs, decode, i);
        OutcomeAdvance(vs, i, done);
        if !walk[i].isDir {
          ghost var r := NewPage(walk[i].path, siteUrl, rootDir, fs, decode);
          var e := AddPageFromFile(walk[i].path, fs, decode);
          if e.None? {
            PostsAppendOne(done, r.value);
            AppendAssoc(old(pages), done, [r.value]);
            AppendAssoc(old(posts), Posts(done), if IsPost(r.value) then [r.value] else []);
            done := done + [r.value];
          }
          err := e;
        }
        i := i + 1;
      }
      if err.None? {
        assert vs[i..] == [];
        assert done + [] == done;
      }
      PostsAppend(old(pages), done);
    }

    /**
     * `readContent`: walk the content directory, then sort `posts` newest
     * first (ties in no promised order), and return the error that stopped
     * the walk, if any.
     */
    method ReadContent(walk: seq<WalkEntry>, fs: FileSystem, decode: Decoder) returns (err: Option<Error>)
      requires FilesHaveSlash(walk)
      modifies this`pages, this`posts
      ensures var w := Walk(walk, siteUrl, rootDir, fs, decode);
        pages == old(pages) + w.added
        && err == w.err
        && multiset(posts) == multiset(old(posts) + Posts(w.added))
      ensures SortedByDateDesc(posts)
      ensures old(Valid()) ==> Valid()
    {
      err := WalkContent(walk, fs, decode);
      SortPosts();
    }

    /** `sort.Slice(s.posts, After)`: reorder `posts` newest first. */
    method SortPosts()
      modifies this`posts
      ensures SortedByDateDesc(posts)
      ensures multiset(posts) == multiset(old(posts))
    {
      var sorted: seq<Page> := [];
      for i := 0 to |posts|
        invariant NeighboursByDateDesc(sorted)
        invariant multiset(sorted) == multiset(posts[..i])
      {
        assert posts[..i + 1] == posts[..i] + [posts[i]];
        sorted := InsertByDate(posts[i], sorted);
      }
      assert posts[..|posts|] == posts;
      NeighboursSorted(sorted);
      posts := sorted;
    }

    /** `createSitemap`: one entry per registered page, in registry order. */
    method CreateSitemap() returns (sitemap: Sitemap)
      ensures sitemap.xmlns == SitemapNamespace && sitemap.schemaLocation == SitemapSchemaLocation
      ensures sitemap.xsi == XsiNamespace && sitemap.image == ImageNamespace
      ensures |sitemap.urls| == |pages|
      ensures forall i :: 0 <= i < |pages| ==> sitemap.urls[i].loc == pages[i].permalink
      ensures forall i :: 0 <= i < |pages| ==> sitemap.urls[i].lastMod == pages[i].dateModified
    {
      var urls: seq<SitemapUrl> := [];
      for i := 0 to |pages|
        invariant |urls| == i
        invariant forall k :: 0 <= k < i ==> urls[k] == UrlOf(pages[k])
      {
        urls := urls + [UrlOf(pages[i])];
      }
      sitemap := Sitemap(SitemapNamespace, SitemapSchemaLocation, XsiNamespace, ImageNamespace, urls);
    }

    /**
     * `createRSSFeed`: an RSS 2.0 channel of the leading (at most ten) posts,
     * each with freshly rendered content, skipping every post whose content
     * fails to render. `now` is the build time.
     */
    method CreateRSSFeed(fs: FileSystem, convert: Converter, now: Time) returns (feed: Feed)
      ensures feed.version == "2.0" && feed.atom == "http://www.w3.org/2005/Atom"
      ensures feed.channel.title == title && feed.channel.link == siteUrl
      ensures feed.channel.description == "" && feed.channel.generator == "Gozer"
      ensures feed.channel.lastBuildDate == now
      ensures var n := if |posts| > FeedLimit then FeedLimit else |posts|;
        feed.channel.items == FeedItems(posts[..n], fs, convert)
      ensures |feed.channel.items| <= FeedLimit
    {
      var n := |posts|;
      if n > FeedLimit {
        n := FeedLimit;
      }
      var items: seq<FeedItem> := [];
      for i := 0 to n
        invariant items == FeedItems(posts[..i], fs, convert)
      {
        assert posts[..i + 1][..i] == posts[..i];
        var content := ParseContent(posts[i], fs, convert);
        if content.Err? {
          continue;
        }
        items := items + [ItemOf(posts[i], content.value)];
      }
      feed := Feed("2.0", "http://www.w3.org/2005/Atom",
        Channel(title, siteUrl, "", "Gozer", now, items));
    }
  }

  /**
   * The registry part of `buildSite`: the configuration, then a site with
   * its content read. A configuration error stops before the walk.
   */
  method LoadSite(rootPath: string, config: Result<ConfigOverlay, string>, walk: seq<WalkEntry>,
                  fs: FileSystem, decode: Decoder) returns (site: Site?, err: Option<LoadError>)
    requires FilesHaveSlash(walk)
    ensures config.Err? ==> site == null && err == Some(ConfigError(config.error))
    ensures config.Ok? ==>
      && site != null && fresh(site)
      && site.title == ParseConfig(rootPath, config).value.title
      && site.siteUrl == ParseConfig(rootPath, config).value.siteUrl
      && site.rootDir == ParseConfig(rootPath, config).value.rootDir
      && var w := Walk(walk, site.siteUrl, site.rootDir, fs, decode);
      && site.pages == w.added
      && err == (if w.err.Some? then Some(ContentError(w.err.value)) else None)
      && site.Valid() && SortedByDateDesc(site.posts)
  {
    var parsed := ParseConfig(rootPath, config);
    if parsed.Err? {
      return null, Some(ConfigError(parsed.error));
    }
    site := new Site(parsed.value);
    var contentErr := site.ReadContent(walk, fs, decode);
    err := if contentErr.Some? then Some(ContentError(contentErr.value)) else None;
  }
}
