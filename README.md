# gozer content pipeline, modelled in Dafny

gozer is a small static site generator written in Go. A build does four things:

1. It reads `config.toml`.
2. It walks the `content/` directory. Every file it meets, whatever its extension, becomes a `Page`, registered in the `Site` object's `pages` list; dated pages also go into `posts`.
3. It sorts the posts newest first.
4. It renders every page through templates, then writes a sitemap and an RSS feed.

This project models the deterministic core of that pipeline:

- **`Filename`**: `parseFilename`. Trimming a content path into a site-relative URL path, and recognising a `YYYY-MM-DD-` prefix on the last path element with Go's `time.Parse("2006-01-02")` rules (`Times`).
- **`FrontMatter`**: the delimiter logic of `parseFrontMatter`. The first read of at most 1024 bytes, a leading `+++`, the next `+++`, and the decoded block overlaid on the page.
- **`Content`**: `Page.ParseContent`. The cut it applies to a file's bytes, its `.html` branch, which bypasses the Markdown converter, and its Markdown branch, which converts exactly the cut bytes.
- **`Registry`**: the `Site` class, with `pages` and `posts` as fields that its methods update:
  - `AddPageFromFile`, with its category rule;
  - `readContent`, whose walk callback stops at the first failing file, followed by the sort of `posts`;
  - the entry lists built by `createSitemap` and `createRSSFeed`;
  - the site URL normalisation of `parseConfig`.
- **`PostFilter`**: `filterPosts`, the copy-and-compact loop over an array, and its `"page"` tag that returns the input as it is.

The file system is data: a map from path to modification time, readability and bytes. The directory walk is a sequence of entries in walk order. The TOML decoder and the Markdown converter are function-typed parameters, so every property below holds for any decoder and any converter.

Dates are `(year, month, day)` plus nanoseconds since midnight. The zero `time.Time` is January 1 of year 1.

## Model

| member | source | states |
|---|---|---|
| `Times.DaysIn` | gozer.go:87 | `daysIn`: 31 for January, March, May, July, August, October and December; 30 for April, June, September and November; 28 for February, or 29 exactly in a Gregorian leap year |
| `Times.ParseDate` | gozer.go:87 | a successful parse has the exact "dddd-dd-dd" layout, a month in 1..12, a day within that month, and a year of at most four digits |
| `Times.FormatDate` | gozer.go:87 | formatting a date yields text of the "dddd-dd-dd" layout |
| `Times.ParseFormatDate` | gozer.go:87 | parsing a formatted date gives the date back |
| `Times.FormatParsedDate` | gozer.go:87 | every text that parses is exactly the formatting of its date, so the layout accepts one spelling per date |
| `Times.AfterIsStrictTotalOrder` | gozer.go:250 | `After`, the comparison the posts are sorted by, is irreflexive, asymmetric, transitive and total on distinct instants |
| `Text.TrimPrefix` | gozer.go:80 | the prefix is removed once when present, and otherwise the text is unchanged |
| `Text.TrimSuffix` | gozer.go:81-83 | the suffix is removed once when present, and otherwise the text is unchanged |
| `Text.IndexOf` | gozer.go:122 | the result is -1 or an occurrence of the pattern, and no occurrence starts before it |
| `Text.OccursInSuffix` | gozer.go:139 | an occurrence in `s[d..]` at `k` is exactly an occurrence in `s` at `k + d` |
| `Paths.TrimTrailingSlashes` | gozer.go:85 | the result is a prefix of the path, does not end with '/', and only '/' was removed |
| `Paths.LastSegment` | gozer.go:85 | the result is a suffix of the path, holds no '/', and is preceded by '/' when shorter than the path |
| `Paths.Base` | gozer.go:85 | `filepath.Base`: never empty, "." for the empty path; otherwise, once trailing slashes are removed, the whole last element: '/'-free, a suffix, and either the whole trimmed path or preceded by '/' |
| `Paths.LastSegmentAfterSlash` | gozer.go:85 | the last element of `dir + name` is `name` when `dir` is empty or ends with '/' |
| `Paths.BaseIgnoresTrailingSlash` | gozer.go:85 | `Base` of `dir + name + "/"` is `name`: a trailing '/' does not hide the last element |
| `Paths.UpToSlash` | gozer.go:210 | the first '/'-separated element: a prefix without '/', followed by '/' or the end |
| `Paths.SecondElement` | gozer.go:210 | `strings.Split(s, "/")[1]`: the text between the first '/' and the next '/' or the end |
| `Paths.SecondElementOf` | gozer.go:210 | the second element of `first/element<rest>` is `element` |
| `Filename.TrimmedPath` | gozer.go:79-83 | trimming only shortens what lies below the content root: the result is a prefix of the path with `<rootDir>content/` removed, or of the whole path when it does not start with that |
| `Filename.TrimmedPrefix` | gozer.go:81-83 | the ".md", ".html" and "index" trims leave a prefix of what they trim |
| `Filename.ParseFilename` | gozer.go:78-98 | the URL path is empty or ends with '/'; a non-zero date comes only from a dated last element, whose date it is at midnight, and the URL path then ends with the element minus its first 11 bytes plus '/' |
| `Filename.ParseTrimmed` | gozer.go:85-97 | the same two promises for a path that is already trimmed |
| `Filename.DatedParse` | gozer.go:86-90 | the URL path ends with the name minus its date prefix plus '/', and the date is midnight of the parsed date |
| `Filename.UndatedParse` | gozer.go:93-97 | without a date the result carries the zero time |
| `Filename.DatedNameParsed` | gozer.go:85-90 | for a dated last element, the URL path is exactly the directory part, then the element minus its first 11 bytes, then '/', and the date is that of the first 10 bytes |
| `Filename.DatedPathParsed` | gozer.go:85-90 | the same for an already trimmed path |
| `Filename.UndatedNameKept` | gozer.go:85-97 | for an undated last element the date is zero and the path is kept, with '/' appended exactly when it is non-empty and does not end with one |
| `Filename.UndatedPathKept` | gozer.go:93-95 | the undated URL path extends the path, by '/' exactly when it is non-empty and does not end with one |
| `Filename.ZeroDateNameStripped` | gozer.go:86-90 | a name dated 0001-01-01 still loses its date prefix, yet the page has the zero date and so is no post |
| `Filename.DatedFileParsed` | gozer.go:78-98 | `content/<dir>YYYY-MM-DD-<slug>.md` is published at midnight of the date, under `<dir><slug>/` |
| `Filename.UndatedFileParsed` | gozer.go:78-98 | `content/<dir><name>.md` with an undated name is under `<dir><name>/`, with the zero date |
| `Filename.RootIndexIsEmpty` | gozer.go:80-97 | `content/index.md` has the empty URL path and no date |
| `Filename.DatedIndexDirectorySlicedOddly` | gozer.go:83-89 | `content/<dir>YYYY-MM-DD-<slug>/index.md` is published under `<dir>`, then the first digit of the year, then `<slug>/`, because the cut offset ignores the trailing '/' |
| `Filename.ContentFileTrims` | gozer.go:80-85 | `content/<dir><name>.md` trims to `<dir><name>`, whose last element is `<name>` |
| `Filename.ContentIndexTrims` | gozer.go:80-83 | `content/<dir>index.md` trims to `<dir>` |
| `Filename.IndexDirectoryTrims` | gozer.go:80-83 | `content/<dir><name>/index.md` trims to `<dir><name>/` |
| `Filename.NoSuffixAfterDate` | gozer.go:82-83 | a date prefix cannot create a ".html" or "index" suffix that the slug lacks |
| `Filename.NoSuffixAfterSlash` | gozer.go:82-83 | a directory part cannot create a suffix without '/' that the name lacks |
| `Filename.DatedNameParts` | gozer.go:86-87 | "YYYY-MM-DD-" plus a slug passes the dated-name test, and splits back into that date and that slug |
| `Filename.DatedNameShape` | gozer.go:81-87 | such a name also keeps the slug's freedom from the ".html" and "index" suffixes |
| `Pages.Apply` | gozer.go:127 | decoding into the page: every field the document sets takes the document's value, and every other field keeps the page's |
| `Pages.ApplyIdempotent` | gozer.go:127 | an empty document changes nothing, and a page already carrying the document's fields is not changed by it again |
| `Pages.Filter` | gozer.go:499-505 | a filter is never longer than its input and keeps only accepted elements |
| `Pages.Posts` | gozer.go:231-234 | the dated pages: never more than the pages, and every one has a non-zero publish date |
| `Pages.PostsIsFilter` | gozer.go:231-234 | `Posts` is the filter of pages by a non-zero publish date |
| `Pages.FilterAppend` | gozer.go:229-234 | filtering distributes over concatenation |
| `Pages.FilterCount` | gozer.go:499-505 | a filter keeps each accepted element exactly as often as it occurs, and no other element |
| `Pages.FilterKeepsAll` | gozer.go:343-357 | a filter that accepts every element keeps the whole sequence |
| `Pages.FilterIsSubsequence` | gozer.go:499-505 | a filter keeps the order of its input |
| `Pages.NeighboursSorted` | gozer.go:249-251 | ordering every pair of neighbours newest first orders the whole sequence |
| `Pages.InsertByDate` | gozer.go:249-251 | inserting into a sequence whose neighbours are newest first keeps them so, and adds exactly that page to its multiset |
| `Files.ReadFirst` | gozer.go:101-113 | the first read fails for a missing or unreadable file and for an empty one (`io.EOF`), and otherwise returns the first `min(size, 1024)` bytes |
| `Files.ReadAll` | gozer.go:132-135 | a readable file is read whole, even when empty |
| `FrontMatter.FindBlock` | gozer.go:113-125 | no leading "+++" means no block; a leading one with no second "+++" is unclosed; otherwise the block is exactly the bytes between the opening and the first closing delimiter |
| `FrontMatter.ReadOverlay` | gozer.go:101-127 | only an existing, readable, non-empty file succeeds; without a leading "+++" nothing is set; fields are set only by a closed block that decodes to them; the missing-closing error names the file and comes only from an unclosed block |
| `FrontMatter.ParseFrontMatter` | gozer.go:100-129 | succeeds exactly when the front matter reads, closes and decodes; the page then carries every field the block sets, and is the page unchanged when the block sets none |
| `FrontMatter.FrontMatterWithoutBlock` | gozer.go:114-125 | without a leading "+++" the page is unchanged and there is no error; a leading one with no closing one is the error naming the file |
| `FrontMatter.FrontMatterDecodesBetween` | gozer.go:119-127 | with both delimiters, exactly the bytes strictly between them are decoded and overlaid, or the decoder's own error is returned, without the file name |
| `FrontMatter.FindBlockAt` | gozer.go:119-125 | a block whose first closing "+++" starts at `3 + n` has exactly those `n` bytes |
| `FrontMatter.HeaderTitleWins` | gozer.go:127 | a title that the decoded block sets becomes the page's title |
| `Content.StripFrontMatter` | gozer.go:137-143 | the result is a suffix of the file; a file of at most 6 bytes, or one with no "+++" at or after byte 3, is unchanged; otherwise the result starts right after the first "+++" found from byte 3 |
| `Content.AsString` | gozer.go:147 | `string(bytes)` has one character per byte, of the same value |
| `Content.ParseContent` | gozer.go:131-156 | a successful render implies the file exists and is readable |
| `Content.MarkdownConvertsCut` | gozer.go:131-156 | a readable file not ending in ".html" gives the converter exactly the bytes after the cut; its HTML is the result and its failure the error |
| `Content.UnreadableContentFails` | gozer.go:132-135 | a missing or unreadable file is the open error naming it |
| `Content.HtmlBypassesConverter` | gozer.go:145-148 | a ".html" page's result does not depend on the converter, and is the cut bytes verbatim when the file is readable |
| `Content.FirstDelimiterCut` | gozer.go:138-142 | the cut keeps what follows the first "+++" at or after byte 3 |
| `Content.ClosingDelimiter` | gozer.go:138-142 | in `"+++" + header + "+++" + body`, the first "+++" after byte 3 closes the header when none starts inside it |
| `Content.StripWellFormed` | gozer.go:137-143 | a well-formed file is cut down to exactly its body |
| `Content.BlockAndCutAgree` | gozer.go:107-143 | on a well-formed file whose header fits the first read, the front-matter reader decodes exactly the header and the content cut keeps exactly the body |
| `Content.HeaderBlockInPrefix` | gozer.go:107-125 | any first read that reaches the closing delimiter finds exactly the header |
| `Content.FirstDelimiterInPrefix` | gozer.go:107-125 | a prefix reaching past the first "+++" from byte 3 has that one as its first too |
| `Content.StripWithoutOpeningDelimiter` | gozer.go:138-142 | the cut does not look for an opening delimiter: text of 4 or more bytes without '+', then "+++", loses everything up to and including the "+++" |
| `PostFilter.OfCategoryIsFilter` | gozer.go:499-504 | the compaction's specification is the filter by category |
| `PostFilter.FilterPosts` | gozer.go:492-506 | tag "page" returns the input itself; any other tag returns, in order, exactly the pages of that category; never longer than the input |
| `PostFilter.CategoryFilterExact` | gozer.go:499-505 | the category filter is an order-keeping subsequence, every page in it has the tag, and it holds each page of that category exactly as often as the input does |
| `Manifests.FeedItems` | gozer.go:343-357 | at most one item per post, with the permalink as both link and guid |
| `Manifests.FeedItemsAreRenderedPosts` | gozer.go:343-356 | the items are, in order, exactly the posts whose content renders, each carrying its own rendered content |
| `Manifests.AllRenderAllListed` | gozer.go:343-356 | when every post renders, there is one item per post, in the same order, with its title and permalink |
| `Registry.Category` | gozer.go:210-213 | the category is "page", or a single path element not ending in ".md" |
| `Registry.CategoryRule` | gozer.go:210-213 | the category of `first/element<rest>` is `element`, or "page" when `element` ends in ".md" |
| `Registry.InitialPage` | gozer.go:208-223 | the page built from the file alone: the permalink is the site URL followed by the URL path, which is empty or ends with '/'; it is a post only when the file name is dated; the category is `Category(file)`; empty title and tags, template "default.html", the file's path and modification time |
| `Registry.NewPage` | gozer.go:202-227 | a page is built exactly when the file exists and its front matter reads and decodes; it is then the file-derived page with the decoded fields overlaid |
| `Registry.NewPageDefaults` | gozer.go:208-227 | unless the front matter overrides them: the permalink is site URL plus URL path, the URL path ends with '/' or is empty, the template is "default.html", the file path is the file, the category is `Category(file)`, and the page is a post exactly when its file name carries a non-zero date |
| `Registry.PostsAppendOne` | gozer.go:229-234 | one more page adds it to the posts exactly when it has a non-zero date |
| `Registry.PostsInStep` | gozer.go:229-234 | appending a page, and also to `posts` when dated, keeps `posts` equal as a multiset to the dated pages |
| `Registry.PostsAppend` | gozer.go:229-234 | the posts of two runs of pages are the posts of each, in order |
| `Registry.PostsArePages` | gozer.go:229-234 | when `posts` holds the dated pages, a page is a post exactly when it is registered and dated |
| `Registry.VisitEntry` | gozer.go:242-245 | a directory is skipped and every other entry is built into a page, whatever its extension; building succeeds exactly when the file exists and its front matter reads, and a missing file is the stat error naming it |
| `Registry.Visits` | gozer.go:241-246 | one callback result per walk entry |
| `Registry.VisitAt` | gozer.go:241-246 | the `i`th callback result is the callback on the `i`th entry: nothing for a directory, the page or the error for a file |
| `Registry.Outcome` | gozer.go:241-246 | the walk never registers more pages than it has entries |
| `Registry.OutcomeAdvance` | gozer.go:241-246 | after a directory the walk goes on, an error ends it with no later page, and a page joins those registered before it |
| `Registry.Walk` | gozer.go:241-247 | the walk of the content directory registers at most one page per entry |
| `Registry.NormalizeSiteUrl` | gozer.go:403-406 | the URL ends with '/', extends the given one by at most that '/', and is unchanged exactly when it already ends with '/' |
| `Registry.NormalizeSiteUrlIdempotent` | gozer.go:404-406 | normalising twice equals normalising once |
| `Registry.ParseConfig` | gozer.go:397-409 | a decoding error is returned as it is; otherwise the site URL is the configured one normalised by `NormalizeSiteUrl` (a '/' appended only when absent; "/" when none is set), the title defaults to "", and the root directory defaults to the root path |
| `Registry.Site.constructor` | gozer.go:522-524 | a new site has the configured fields and no pages or posts |
| `Registry.Site.AddPageFromFile` | gozer.go:202-237 | on a stat or front-matter error nothing changes and the error is returned; otherwise the new page is appended to `pages`, and to `posts` exactly when dated; `posts` stays the dated pages |
| `Registry.Site.Register` | gozer.go:229-234 | the page is appended to `pages`, and to `posts` exactly when dated, keeping `posts` the dated pages |
| `Registry.Site.WalkContent` | gozer.go:241-247 | the pages of the walk up to its first error are appended in walk order, the dated ones also to `posts`, and that error is returned |
| `Registry.Site.SortPosts` | gozer.go:249-251 | `posts` becomes newest first, a permutation of what it was |
| `Registry.Site.ReadContent` | gozer.go:239-254 | the walk's pages are appended, whether or not it failed; `posts` gains the dated ones and is sorted newest first with no promised order among equal dates; the walk's error is returned |
| `Registry.Site.CreateSitemap` | gozer.go:272-286 | the sitemaps.org namespaces, and one entry per page in registry order, with the page's permalink and modification time |
| `Registry.Site.CreateRSSFeed` | gozer.go:336-369 | an RSS 2.0 channel with the site's title and URL, whose items are those of the first `min(10, posts)` posts that render, in order |
| `Registry.LoadSite` | gozer.go:521-533 | a configuration error stops before the walk; otherwise the site has the parsed configuration, exactly the walk's pages, its posts valid and sorted, and the walk's error, if any, as a content error |

## Left out

- File system I/O is data. Stat, open, the first read, `os.ReadFile` and `filepath.WalkDir` read a map from path to entry and a given walk sequence. Build outputs (`build/`, `MkdirAll`, `Create`, `WriteFile`, the sitemap stylesheet) are not modelled.
- `filepath.ToSlash` is the identity on the '/'-separated paths modelled here, and `filepath.Join` is not modelled: walk paths are given as they would be produced.
- A directory the walk cannot read yields no entries. In Go its callback sees a directory entry and returns nil, so the error is swallowed. When the content root itself cannot be walked, Go calls the callback with a nil entry and panics; this is not modelled.
- Every file path the walk yields holds a '/' because the walk starts at `<root>/content`. Category and `NewPage` require it, since `strings.Split(file, "/")[1]` would panic otherwise.
- TOML decoding of front matter and of `config.toml` is a function parameter:
  - the decoder returns the fields a document sets, or a failure;
  - a failing decode that has already assigned some fields is not modelled, since the page is then discarded;
  - for the configuration, `log.Fatal` becomes the returned `ConfigError`.
- The goldmark Markdown conversion is a function parameter.
- Templates are not modelled: `buildPage` and template parsing in `buildSite`.
- The per-page goroutines and `sync.WaitGroup` in `buildSite` are not modelled.
- The HTTP server, the file watcher, CLI flag parsing, `createDirectoryStructure`, `copyDirRecursively` and `measure` are not modelled.
- Logging is not modelled: the `log.Warn` for a feed post that fails to render only reports the post the feed then skips, and the `log.Info` timing messages of `measure` have no effect on the build.
- XML encoding and the RFC 3339 and RFC 1123Z timestamp formatting are not modelled. Sitemap entries and feed items keep `Time` values, and the feed's build time is a parameter.
- Registry.Site.SortPosts: sorts by insertion instead of Go's `sort.Slice` algorithm. Its contract promises only what `sort.Slice` promises: a permutation, newest first. It says nothing about the order among posts with equal dates, where Go's order may differ.
- Registry.ParseConfig: the configuration is computed before the `Site` exists, and its fields are immutable members of the class. In Go, `parseConfig` fills a freshly allocated `Site` that nothing else has seen yet, and no later code reassigns those fields.
- Registry.Site.ReadContent: `sort.Slice` reorders `posts` in place. Templates that received the old slice header would see that aliasing; the model does not capture it.
- PostFilter.FilterPosts: for the tag "page" Go returns the caller's slice itself, aliasing included. The model returns the same sequence value.
- Content.ParseContent: its own contract states only that success implies a readable file. What it returns is stated by `UnreadableContentFails`, `HtmlBypassesConverter` for ".html" files and `MarkdownConvertsCut` for the rest, with the converter left abstract.
- Files.Error: the `os` errors and the missing-closing error carry the file's path, as Go's do. `io.EOF`, the decoder's error and the converter's error are passed on by Go unchanged and carry no path; the model keeps only the decoder's message, and no detail of the other two.
- Files.ReadFirst: models the single `Read` into the 1024-byte buffer as returning `min(size, 1024)` bytes. `os.File.Read` may legally return fewer bytes; such short reads are not modelled.
- Registry.LoadSite: `log.Fatal` on a failed walk becomes the returned `ContentError`, as it does for the configuration.
- Times.After: compares `(date, clock)` pairs. This is Go's instant order when the clock lies in `0 <= clock < 86400 * 10^9`. Every `Time` the model builds has clock 0, and modification times are inputs taken to be in that range.
- Dates are `(year, month, day)` with nanoseconds since midnight, in UTC only. Time zones and monotonic clock readings are not modelled.
