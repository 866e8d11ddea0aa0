/**
 * The entries of the two site-wide manifests: the sitemap (sitemaps.org
 * protocol 0.9) and the RSS 2.0 feed. XML encoding and timestamp formatting
 * are not modelled; timestamps stay `Time` values.
 */
module Manifests {
  import opened Wrappers
  import opened Times
  import opened Pages
  import opened Files
  import opened Content

  /** One `<url>` of the sitemap. */
  datatype SitemapUrl = SitemapUrl(loc: string, lastMod: Time)

  /** The `<urlset>` envelope. */
  datatype Sitemap = Sitemap(xmlns: string, schemaLocation: string, xsi: string, image: string, urls: seq<SitemapUrl>)

  const SitemapNamespace: string := "http://www.sitemaps.org/schemas/sitemap/0.9"
  const SitemapSchemaLocation: string :=
    "http://www.sitemaps.org/schemas/sitemap/0.9 http://www.sitemaps.org/schemas/sitemap/0.9/sitemap.xsd "
    + "http://www.google.com/schemas/sitemap-image/1.1 http://www.google.com/schemas/sitemap-image/1.1/sitemap-image.xsd"
  const XsiNamespace: string := "http://www.w3.org/2001/XMLSchema-instance"
  const ImageNamespace: string := "http://www.google.com/schemas/sitemap-image/1.1"

  /** The sitemap entry of a page: its permalink and its modification time. */
  function UrlOf(p: Page): SitemapUrl {
    SitemapUrl(p.permalink, p.dateModified)
  }

  /** One `<item>` of the feed. */
  datatype FeedItem = FeedItem(title: string, link: string, description: string, pubDate: Time, guid: string)

  /** The `<channel>` of the feed. */
  datatype Channel = Channel(
    title: string, link: string, description: string, generator: string, lastBuildDate: Time, items: seq<FeedItem>)

  /** The `<rss>` document. */
  datatype Feed = Feed(version: string, atom: string, channel: Channel)

  /** At most this many leading posts go into the feed. */
  const FeedLimit: nat := 10

  /** The feed item of a post whose content rendered to `html`; the permalink is both link and guid. */
  function ItemOf(p: Page, html: string): FeedItem {
    FeedItem(p.title, p.permalink, html, p.datePublished, p.permalink)
  }

  /** The page's content renders without error. */
  function Renders(fs: FileSystem, convert: Converter): Page -> bool {
    (p: Page) => ParseContent(p, fs, convert).Ok?
  }

  /** The feed items of `posts`, in order, leaving out every post whose content fails to render. */
  function FeedItems(posts: seq<Page>, fs: FileSystem, convert: Converter): (items: seq<FeedItem>)
    ensures |items| <= |posts|
    ensures forall i :: 0 <= i < |items| ==> items[i].guid == items[i].link
  {
    if posts == [] then []
    else
      var last := posts[|posts| - 1];
      FeedItems(posts[..|posts| - 1], fs, convert)
      + match ParseContent(last, fs, convert)
        case Ok(html) => [ItemOf(last, html)]
        case Err(_) => []
  }

  /**
   * The feed items are the posts that render, in their order, each carrying
   * its own title, permalink, publish date and freshly rendered content.
   */
  lemma {:induction false} FeedItemsAreRenderedPosts(posts: seq<Page>, fs: FileSystem, convert: Converter)
    ensures var kept := Filter(posts, Renders(fs, convert));
      var items := FeedItems(posts, fs, convert);
      |items| == |kept|
      && forall i :: 0 <= i < |items| ==> items[i] == ItemOf(kept[i], ParseContent(kept[i], fs, convert).value)
  {
    if posts != [] {
      FeedItemsAreRenderedPosts(posts[..|posts| - 1], fs, convert);
    }
  }

  /** When every post renders, there is one item per post, in the same order. */
  lemma AllRenderAllListed(posts: seq<Page>, fs: FileSystem, convert: Converter)
    requires forall i :: 0 <= i < |posts| ==> ParseContent(posts[i], fs, convert).Ok?
    ensures var items := FeedItems(posts, fs, convert);
      |items| == |posts|
      && forall i :: 0 <= i < |posts| ==> items[i].link == posts[i].permalink && items[i].title == posts[i].title
  {
    FeedItemsAreRenderedPosts(posts, fs, convert);
    FilterKeepsAll(posts, Renders(fs, convert));
  }
}
