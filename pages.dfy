/**
 * The `Page` record, the overlay a decoded front-matter block applies to it,
 * and the two page-list specifications the registry relies on: filtering
 * (which pages are posts) and ordering by publish date, newest first.
 */
module Pages {
  import opened Wrappers
  import opened Times

  /** One content file and its rendering metadata. */
  datatype Page = Page(
    title: string,
    tags: seq<string>,
    category: string,
    template: string,        // template name, "default.html" unless the front matter names another
    datePublished: Time,     // zero unless the file name (or the front matter) gives a date
    dateModified: Time,      // modification time of the source file
    permalink: string,       // site URL + URL path
    urlPath: string,         // URL path relative to the site URL
    filepath: string)        // path of the source file

  /**
   * What a decoded front-matter document sets. The decoder fills the
   * exported fields of `Page` by name, so every field can be overridden;
   * `None` leaves a field as it was.
   */
  datatype PageOverlay = PageOverlay(
    title: Option<string>,
    tags: Option<seq<string>>,
    category: Option<string>,
    template: Option<string>,
    datePublished: Option<Time>,
    dateModified: Option<Time>,
    permalink: Option<string>,
    urlPath: Option<string>,
    filepath: Option<string>)

  /** A front-matter document with no keys. */
  const EmptyOverlay: PageOverlay := PageOverlay(None, None, None, None, None, None, None, None, None)

  /** Assign every field the overlay sets; keep the others. */
  function Apply(o: PageOverlay, p: Page): (r: Page)
    ensures (o.title.Some? ==> r.title == o.title.value) && (o.title.None? ==> r.title == p.title)
    ensures (o.tags.Some? ==> r.tags == o.tags.value) && (o.tags.None? ==> r.tags == p.tags)
    ensures (o.category.Some? ==> r.category == o.category.value) && (o.category.None? ==> r.category == p.category)
    ensures (o.template.Some? ==> r.template == o.template.value) && (o.template.None? ==> r.template == p.template)
    ensures (o.datePublished.Some? ==> r.datePublished == o.datePublished.value) && (o.datePublished.None? ==> r.datePublished == p.datePublished)
    ensures (o.dateModified.Some? ==> r.dateModified == o.dateModified.value) && (o.dateModified.None? ==> r.dateModified == p.dateModified)
    ensures (o.permalink.Some? ==> r.permalink == o.permalink.value) && (o.permalink.None? ==> r.permalink == p.permalink)
    ensures (o.urlPath.Some? ==> r.urlPath == o.urlPath.value) && (o.urlPath.None? ==> r.urlPath == p.urlPath)
    ensures (o.filepath.Some? ==> r.filepath == o.filepath.value) && (o.filepath.None? ==> r.filepath == p.filepath)
  {
    Page(
      o.title.GetOr(p.title),
      o.tags.GetOr(p.tags),
      o.category.GetOr(p.category),
      o.template.GetOr(p.template),
      o.datePublished.GetOr(p.datePublished),
      o.dateModified.GetOr(p.dateModified),
      o.permalink.GetOr(p.permalink),
      o.urlPath.GetOr(p.urlPath),
      o.filepath.GetOr(p.filepath))
  }

  /** Applying an overlay twice is applying it once; the empty overlay changes nothing. */
  lemma ApplyIdempotent(o: PageOverlay, p: Page)
    ensures Apply(o, Apply(o, p)) == Apply(o, p)
    ensures Apply(EmptyOverlay, p) == p
  {
  }

  /** Every page with a non-zero publish date is a post. */
  predicate IsPost(p: Page) {
    !IsZero(p.datePublished)
  }

  /** The elements of `s` that `keep` accepts, in their order in `s`. */
  function Filter<T>(s: seq<T>, keep: T -> bool): (r: seq<T>)
    ensures |r| <= |s|
    ensures forall i :: 0 <= i < |r| ==> keep(r[i])
  {
    if s == [] then []
    else Filter(s[..|s| - 1], keep) + (if keep(s[|s| - 1]) then [s[|s| - 1]] else [])
  }

  /**
   * The posts among `pages`, in their order: `Filter(pages, IsPost)` with
   * the test written out, so that the registry's state-changing methods
   * reason about it without applying a function value.
   */
  function Posts(pages: seq<Page>): (r: seq<Page>)
    ensures |r| <= |pages|
    ensures forall i :: 0 <= i < |r| ==> IsPost(r[i])
  {
    if pages == [] then []
    else Posts(pages[..|pages| - 1]) + (if IsPost(pages[|pages| - 1]) then [pages[|pages| - 1]] else [])
  }

  /** `Posts` is the filter by `IsPost`. */
  lemma {:induction false} PostsIsFilter(pages: seq<Page>)
    ensures Posts(pages) == Filter(pages, IsPost)
  {
    if pages != [] {
      PostsIsFilter(pages[..|pages| - 1]);
    }
  }

  /** Filtering distributes over concatenation. */
  lemma {:induction false} FilterAppend<T>(a: seq<T>, b: seq<T>, keep: T -> bool)
    ensures Filter(a + b, keep) == Filter(a, keep) + Filter(b, keep)
    decreases |b|
  {
    if b == [] {
      assert a + b == a;
    } else {
      var b' := b[..|b| - 1];
      assert (a + b)[..|a + b| - 1] == a + b';
      FilterAppend(a, b', keep);
    }
  }

  /** A filter keeps exactly the accepted elements, each as often as it occurs. */
  lemma {:induction false} FilterCount<T>(s: seq<T>, keep: T -> bool, x: T)
    ensures multiset(Filter(s, keep))[x] == if keep(x) then multiset(s)[x] else 0
  {
    if s != [] {
      var init := s[..|s| - 1];
      assert s == init + [s[|s| - 1]];
      FilterCount(init, keep, x);
    }
  }

  /** A filter that accepts every element keeps the whole sequence. */
  lemma {:induction false} FilterKeepsAll<T>(s: seq<T>, keep: T -> bool)
    requires forall i :: 0 <= i < |s| ==> keep(s[i])
    ensures Filter(s, keep) == s
  {
    if s != [] {
      FilterKeepsAll(s[..|s| - 1], keep);
      assert s[..|s| - 1] + [s[|s| - 1]] == s;
    }
  }

  /** `a` is `b` with some elements removed, the rest in their order. */
  predicate IsSubsequence<T(==)>(a: seq<T>, b: seq<T>)
    decreases |b|
  {
    a == []
    || (b != [] && (IsSubsequence(a, b[..|b| - 1])
                    || (a[|a| - 1] == b[|b| - 1] && IsSubsequence(a[..|a| - 1], b[..|b| - 1]))))
  }

  /** Filtering keeps order: its result is a subsequence of its input. */
  lemma {:induction false} FilterIsSubsequence<T>(s: seq<T>, keep: T -> bool)
    ensures IsSubsequence(Filter(s, keep), s)
  {
    if s != [] {
      var init, last := s[..|s| - 1], s[|s| - 1];
      FilterIsSubsequence(init, keep);
      var f := Filter(init, keep);
      if keep(last) {
        assert Filter(s, keep) == f + [last];
        assert (f + [last])[..|f|] == f;
      } else {
        assert Filter(s, keep) == f;
      }
    }
  }

  /** Pages ordered by publish date, newest first: no page is later than one before it. */
  predicate SortedByDateDesc(ps: seq<Page>) {
    forall i, j :: 0 <= i < j < |ps| ==> !After(ps[j].datePublished, ps[i].datePublished)
  }

  /** The same order, stated for neighbours only. */
  predicate NeighboursByDateDesc(ps: seq<Page>) {
    forall i :: 0 <= i < |ps| - 1 ==> !After(ps[i + 1].datePublished, ps[i].datePublished)
  }

  /** Ordering neighbours orders the whole sequence, since `After` is transitive. */
  lemma {:induction false} NeighboursSorted(ps: seq<Page>)
    requires NeighboursByDateDesc(ps)
    ensures SortedByDateDesc(ps)
  {
    if |ps| > 1 {
      var tail := ps[1..];
      assert NeighboursByDateDesc(tail) by {
        forall i | 0 <= i < |tail| - 1 ensures !After(tail[i + 1].datePublished, tail[i].datePublished) {
          assert tail[i] == ps[i + 1] && tail[i + 1] == ps[i + 2];
        }
      }
      NeighboursSorted(tail);
      forall i, j | 0 <= i < j < |ps| ensures !After(ps[j].datePublished, ps[i].datePublished) {
        if i > 0 {
          assert ps[i] == tail[i - 1] && ps[j] == tail[j - 1];
        } else if j > 1 {
          assert ps[j] == tail[j - 1] && ps[1] == tail[0];
          AfterIsStrictTotalOrder(ps[j].datePublished, ps[1].datePublished, ps[0].datePublished);
          AfterIsStrictTotalOrder(ps[1].datePublished, ps[0].datePublished, ps[j].datePublished);
          AfterIsStrictTotalOrder(ps[j].datePublished, ps[0].datePublished, ps[1].datePublished);
        }
      }
    }
  }

  /** Insert `p` into a newest-first sequence before the first page that is not later than it. */
  function InsertByDate(p: Page, s: seq<Page>): (r: seq<Page>)
    requires NeighboursByDateDesc(s)
    ensures NeighboursByDateDesc(r)
    ensures multiset(r) == multiset(s) + multiset{p}
    ensures r[0] == p || (s != [] && r[0] == s[0])
  {
    if s == [] then [p]
    else if !After(s[0].datePublished, p.datePublished) then [p] + s
    else
      assert NeighboursByDateDesc(s[1..]) by {
        forall i | 0 <= i < |s[1..]| - 1 ensures !After(s[1..][i + 1].datePublished, s[1..][i].datePublished) {
          assert s[1..][i] == s[i + 1] && s[1..][i + 1] == s[i + 2];
        }
      }
      var rest := InsertByDate(p, s[1..]);
      assert s == [s[0]] + s[1..];
      AfterIsStrictTotalOrder(s[0].datePublished, p.datePublished, p.datePublished);
      [s[0]] + rest
  }
}
