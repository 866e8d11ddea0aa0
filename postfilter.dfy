/** `filterPosts`, the category filter templates call on a list of pages. */
module PostFilter {
  import opened Pages

  /** The category test: the page's category is exactly `tag`. */
  function InCategory(tag: string): Page -> bool {
    (p: Page) => p.category == tag
  }

  /**
   * The pages of category `tag`, in their order: `Filter` with the category
   * test written out, for the array loop below, where applying a function
   * value costs frame reasoning at every heap update.
   */
  function OfCategory(s: seq<Page>, tag: string): (r: seq<Page>)
  {
    if s == [] then []
    else OfCategory(s[..|s| - 1], tag) + (if s[|s| - 1].category == tag then [s[|s| - 1]] else [])
  }

  /** `OfCategory` is the category filter. */
  lemma {:induction false} OfCategoryIsFilter(s: seq<Page>, tag: string)
    ensures OfCategory(s, tag) == Filter(s, InCategory(tag))
  {
    if s != [] {
      OfCategoryIsFilter(s[..|s| - 1], tag);
    }
  }

  /** The tag for which `filterPosts` returns its input as it is. */
  const AllPages: string := "page"

  /**
   * `filterPosts`: the input itself for the tag "page"; otherwise a copy of
   * the input compacted in place, keeping the pages of that category in
   * their order.
   */
  method FilterPosts(posts: seq<Page>, tag: string) returns (r: seq<Page>)
    ensures tag == AllPages ==> r == posts
    ensures tag != AllPages ==> r == Filter(posts, InCategory(tag))
    ensures |r| <= |posts|
  {
    if tag == AllPages {
      return posts;
    }
    var postsCopy := new Page[|posts|](i requires 0 <= i < |posts| => posts[i]);
    var n := 0;
    for i := 0 to postsCopy.Length
      invariant n <= i
      invariant postsCopy[..n] == OfCategory(posts[..i], tag)
      invariant forall k :: i <= k < postsCopy.Length ==> postsCopy[k] == posts[k]
    {
      var val := postsCopy[i];
      assert posts[..i + 1][..i] == posts[..i];
      if val.category == tag {
        postsCopy[n] := val;
        n := n + 1;
      }
    }
    assert posts[..|posts|] == posts;
    r := postsCopy[..n];
    OfCategoryIsFilter(posts, tag);
  }

  /**
   * For a tag other than "page" the filter keeps exactly the pages of that
   * category, each as often as it occurs, in their order.
   */
  lemma CategoryFilterExact(posts: seq<Page>, tag: string)
    ensures var r := Filter(posts, InCategory(tag));
      IsSubsequence(r, posts)
      && (forall p :: p in r ==> p.category == tag)
      && (forall p :: multiset(r)[p] == if p.category == tag then multiset(posts)[p] else 0)
  {
    var r := Filter(posts, InCategory(tag));
    FilterIsSubsequence(posts, InCategory(tag));
    forall p: Page ensures multiset(r)[p] == if p.category == tag then multiset(posts)[p] else 0 {
      FilterCount(posts, InCategory(tag), p);
    }
  }
}
