/** The `path/filepath` and `strings.Split` behaviour the pipeline uses on '/'-separated paths. */
module Paths {
  import opened Text

  /** The path with every trailing '/' removed. */
  function TrimTrailingSlashes(p: string): (r: string)
    ensures HasPrefix(p, r)
    ensures r == [] || r[|r| - 1] != '/'
    ensures forall i :: |r| <= i < |p| ==> p[i] == '/'
  {
    if p != [] && p[|p| - 1] == '/' then TrimTrailingSlashes(p[..|p| - 1]) else p
  }

  /** The part of `p` after its last '/', or all of `p` when it has none. */
  function LastSegment(p: string): (r: string)
    ensures HasSuffix(p, r)
    ensures '/' !in r
    ensures |r| < |p| ==> p[|p| - |r| - 1] == '/'
  {
    if p == [] || p[|p| - 1] == '/' then []
    else LastSegment(p[..|p| - 1]) + [p[|p| - 1]]
  }

  /**
   * `filepath.Base`: "." for the empty path, "/" for a path of slashes only,
   * otherwise the last element once trailing slashes are ignored.
   */
  function Base(p: string): (r: string)
    ensures r != []
    ensures p == [] ==> r == "."
    ensures |r| > 1 ==> '/' !in r && HasSuffix(TrimTrailingSlashes(p), r) && |r| <= |p|
    ensures var t := TrimTrailingSlashes(p);
      t != [] ==> '/' !in r && HasSuffix(t, r) && (|r| == |t| || t[|t| - |r| - 1] == '/')
  {
    if p == [] then "."
    else
      var t := TrimTrailingSlashes(p);
      if t == [] then "/"
      else
        var b := LastSegment(t);
        if b == [] then "/" else b
  }

  /** One trailing '/' after a text that does not end with '/' is trimmed. */
  lemma TrimOneSlash(s: string)
    requires s != [] && s[|s| - 1] != '/'
    ensures TrimTrailingSlashes(s + "/") == s
  {
    assert (s + "/")[..|s|] == s;
  }

  /** The last element of `dir + name` is `name` when `dir` is empty or ends with '/'. */
  lemma LastSegmentAfterSlash(dir: string, name: string)
    requires dir == [] || dir[|dir| - 1] == '/'
    requires '/' !in name
    ensures LastSegment(dir + name) == name
  {
    var p := dir + name;
    var r := LastSegment(p);
    NotSlashAt(name, |name| - |r| - 1);
    NotSlashAt(r, |r| - |name| - 1);
    assert p[|dir|..] == name;
  }

  /** A character of a text without '/' is not '/'. */
  lemma NotSlashAt(s: string, i: int)
    ensures 0 <= i < |s| && '/' !in s ==> s[i] != '/'
  {
  }

  /** A path whose last element is a non-empty name does not end with '/'. */
  lemma NoTrailingSlash(dir: string, name: string)
    requires name != [] && '/' !in name
    ensures !HasSuffix(dir + name, "/")
  {
    assert (dir + name)[|dir + name| - 1] == name[|name| - 1];
  }

  /** `filepath.Base` of a directory path `dir + name + "/"` is `name`. */
  lemma BaseIgnoresTrailingSlash(dir: string, name: string)
    requires dir == [] || dir[|dir| - 1] == '/'
    requires name != [] && '/' !in name
    ensures Base(dir + name + "/") == name
  {
    assert (dir + name)[|dir + name| - 1] == name[|name| - 1];
    TrimOneSlash(dir + name);
    LastSegmentAfterSlash(dir, name);
  }

  /** The text before the first '/', or all of `s` when it has none. */
  function UpToSlash(s: string): (r: string)
    ensures HasPrefix(s, r)
    ensures '/' !in r
    ensures |r| == |s| || s[|r|] == '/'
  {
    if s == [] || s[0] == '/' then [] else [s[0]] + UpToSlash(s[1..])
  }

  /**
   * `strings.Split(s, "/")[1]`: the element between the first '/' and the
   * next '/' or the end.
   */
  function SecondElement(s: string): (r: string)
    requires '/' in s
    ensures '/' !in r
    ensures var i := |UpToSlash(s)| + 1;
      && i + |r| <= |s|
      && s[i - 1] == '/' && '/' !in s[..i - 1]
      && s[i..i + |r|] == r
      && (i + |r| == |s| || s[i + |r|] == '/')
  {
    var first := UpToSlash(s);
    var r := UpToSlash(s[|first| + 1..]);
    assert s[..|first|] == first;
    assert s[|first| + 1..][..|r|] == s[|first| + 1..|first| + 1 + |r|];
    r
  }

  /** The text up to the first '/' of `element + rest` is `element` when `rest` is empty or starts with '/'. */
  lemma {:induction false} UpToSlashOf(element: string, rest: string)
    requires '/' !in element
    requires rest == [] || rest[0] == '/'
    ensures UpToSlash(element + rest) == element
  {
    if element != [] {
      assert (element + rest)[1..] == element[1..] + rest;
      UpToSlashOf(element[1..], rest);
    }
  }

  /** The second element of `first/element<rest>` is `element`. */
  lemma SecondElementOf(first: string, element: string, rest: string)
    requires '/' !in first && '/' !in element
    requires rest == [] || rest[0] == '/'
    ensures SecondElement(first + "/" + element + rest) == element
  {
    var s := first + "/" + element + rest;
    assert s == first + ("/" + element + rest);
    UpToSlashOf(first, "/" + element + rest);
    assert s[|first| + 1..] == element + rest;
    UpToSlashOf(element, rest);
  }
}
