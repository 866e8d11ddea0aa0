/**
 * `parseFilename`: the site-relative URL path and the optional publish date
 * of a content file, both derived from its path alone.
 */
module Filename {
  import opened Text
  import opened Times
  import opened Paths
  import opened Wrappers

  /** What `parseFilename` returns: the URL path and the publish date (zero when there is none). */
  datatype ParsedName = ParsedName(urlPath: string, published: Time)

  /**
   * The path once the content-root prefix, then ".md", then ".html", then a
   * trailing "index" have each been trimmed once.
   */
  function TrimmedPath(file: string, rootDir: string): (r: string)
    ensures HasPrefix(file, rootDir + "content/") ==> HasPrefix(file[|rootDir| + 8..], r)
    ensures !HasPrefix(file, rootDir + "content/") ==> HasPrefix(file, r)
  {
    var rest := TrimPrefix(file, rootDir + "content/");
    var r := TrimSuffix(TrimSuffix(TrimSuffix(rest, ".md"), ".html"), "index");
    TrimmedPrefix(rest);
    r
  }

  /** The three suffix trims leave a prefix of what they trim. */
  lemma TrimmedPrefix(s: string)
    ensures HasPrefix(s, TrimSuffix(TrimSuffix(TrimSuffix(s, ".md"), ".html"), "index"))
  {
    var a := TrimSuffix(s, ".md");
    var b := TrimSuffix(a, ".html");
    var c := TrimSuffix(b, "index");
    assert s[..|a|] == a;
    assert a[..|b|] == b;
    assert b[..|c|] == c;
    assert s[..|c|] == a[..|c|];
  }

  /** The file name is longer than 11 bytes with '-' at offsets 4, 7 and 10. */
  predicate HasDatePattern(name: string) {
    |name| > 11 && name[4] == '-' && name[7] == '-' && name[10] == '-'
  }

  /** The file name has the date pattern and its first 10 bytes are a valid "2006-01-02" date. */
  predicate IsDatedName(name: string) {
    HasDatePattern(name) && ParseDate(name[..10]).Some?
  }

  function ParseFilename(file: string, rootDir: string): (r: ParsedName)
    ensures r.urlPath == [] || r.urlPath[|r.urlPath| - 1] == '/'
    ensures !IsZero(r.published) ==>
      var name := Base(TrimmedPath(file, rootDir));
      IsDatedName(name) && ParseDate(name[..10]) == Some(r.published.date) && r.published.clock == 0
      && HasSuffix(r.urlPath, name[11..] + "/")
  {
    ParseTrimmed(TrimmedPath(file, rootDir))
  }

  /** `parseFilename` once the path is trimmed: split on the last element `Base(path)`. */
  function ParseTrimmed(path: string): (r: ParsedName)
    ensures r.urlPath == [] || r.urlPath[|r.urlPath| - 1] == '/'
    ensures !IsZero(r.published) ==>
      var name := Base(path);
      IsDatedName(name) && ParseDate(name[..10]) == Some(r.published.date) && r.published.clock == 0
      && HasSuffix(r.urlPath, name[11..] + "/")
  {
    var name := Base(path);
    if IsDatedName(name) then DatedParse(path, name) else UndatedParse(path)
  }

  /** A dated last element: its date prefix is cut out of the URL path and becomes the publish date. */
  function DatedParse(path: string, name: string): (r: ParsedName)
    requires IsDatedName(name) && |name| <= |path|
    ensures HasSuffix(r.urlPath, name[11..] + "/")
    ensures r.published == Midnight(ParseDate(name[..10]).value)
  {
    var urlPath := path[..|path| - |name|] + (name[11..] + "/");
    EndsWith(path[..|path| - |name|], name[11..] + "/");
    ParsedName(urlPath, Midnight(ParseDate(name[..10]).value))
  }

  /** Otherwise the path is kept, a '/' appended unless it is empty or ends with one, and there is no date. */
  function UndatedParse(path: string): (r: ParsedName)
    ensures r.published == ZeroTime
  {
    ParsedName(if path != [] && !HasSuffix(path, "/") then path + "/" else path, ZeroTime)
  }

  lemma EndsWith(a: string, b: string)
    ensures HasSuffix(a + b, b)
  {
    assert (a + b)[|a|..] == b;
  }

  /**
   * With a dated file name the date prefix and its '-' are cut out of the
   * last element, a '/' is appended, and the date is published at midnight.
   */
  lemma DatedNameParsed(file: string, rootDir: string)
    requires IsDatedName(Base(TrimmedPath(file, rootDir)))
    ensures var path, name, r := TrimmedPath(file, rootDir), Base(TrimmedPath(file, rootDir)), ParseFilename(file, rootDir);
      |name| <= |path|
      && r.urlPath == path[..|path| - |name|] + (name[11..] + "/")
      && r.published == Midnight(ParseDate(name[..10]).value)
  {
    var path := TrimmedPath(file, rootDir);
    assert ParseFilename(file, rootDir) == ParseTrimmed(path);
    DatedPathParsed(path);
  }

  /** `DatedNameParsed` on the trimmed path. */
  lemma DatedPathParsed(path: string)
    requires IsDatedName(Base(path))
    ensures var name, r := Base(path), ParseTrimmed(path);
      |name| <= |path|
      && r.urlPath == path[..|path| - |name|] + (name[11..] + "/")
      && r.published == Midnight(ParseDate(name[..10]).value)
  {
    assert ParseTrimmed(path) == DatedParse(path, Base(path));
  }

  /**
   * Without a dated file name the path is kept as it is, a '/' appended
   * unless it is empty or already ends with one, and there is no date.
   */
  lemma UndatedNameKept(file: string, rootDir: string)
    requires !IsDatedName(Base(TrimmedPath(file, rootDir)))
    ensures var path, r := TrimmedPath(file, rootDir), ParseFilename(file, rootDir);
      IsZero(r.published)
      && HasPrefix(r.urlPath, path)
      && (path == [] || path[|path| - 1] == '/' ==> r.urlPath == path)
      && (path != [] && path[|path| - 1] != '/' ==> r.urlPath == path + "/")
  {
    var path := TrimmedPath(file, rootDir);
    assert ParseFilename(file, rootDir) == UndatedParse(path);
    UndatedPathKept(path);
  }

  /** The URL path of an undated path: the path, with a '/' appended unless it is empty or ends with one. */
  lemma UndatedPathKept(path: string)
    ensures var r := UndatedParse(path);
      HasPrefix(r.urlPath, path)
      && (path == [] || path[|path| - 1] == '/' ==> r.urlPath == path)
      && (path != [] && path[|path| - 1] != '/' ==> r.urlPath == path + "/")
  {
    assert path != [] ==> (HasSuffix(path, "/") <==> path[|path| - 1] == '/');
  }

  /** A name of the date pattern whose date is January 1 of year 1 loses its prefix and yet yields the zero date. */
  lemma ZeroDateNameStripped(file: string, rootDir: string)
    requires var name := Base(TrimmedPath(file, rootDir));
      HasDatePattern(name) && ParseDate(name[..10]) == Some(Date(1, 1, 1))
    ensures IsZero(ParseFilename(file, rootDir).published)
    ensures HasSuffix(ParseFilename(file, rootDir).urlPath, Base(TrimmedPath(file, rootDir))[11..] + "/")
  {
  }

  /** Neither ".html" nor "index" can end a name whose last 5 bytes reach into a "YYYY-MM-DD-" prefix. */
  lemma {:induction false} NoSuffixAfterDate(date: string, slug: string, x: string)
    requires IsDateLayout(date)
    requires |x| == 5 && x[0] != '-' && !IsDigit(x[0])
    requires !HasSuffix(slug, x)
    ensures !HasSuffix(date + "-" + slug, x)
  {
    var name := date + "-" + slug;
    if |slug| >= 5 {
      assert name[|name| - 5..] == slug[|slug| - 5..];
    }
  }

  /** A suffix without '/' that `name` lacks is also lacked by `dir + name`. */
  lemma {:induction false} NoSuffixAfterSlash(dir: string, name: string, x: string)
    requires dir == [] || dir[|dir| - 1] == '/'
    requires '/' !in name && '/' !in x
    requires !HasSuffix(name, x)
    ensures !HasSuffix(dir + name, x)
  {
    var path := dir + name;
    if |x| <= |name| {
      assert path[|path| - |x|..] == name[|name| - |x|..];
    } else if dir != [] && |x| <= |path| {
      var i := |dir| - 1;
      assert path[i] == '/';
      assert path[|path| - |x|..][i - (|path| - |x|)] == '/';
    }
  }

  /** A content file `dir + name + ".md"` trims to `dir + name`, whose last element is `name`. */
  lemma {:induction false} ContentFileTrims(rootDir: string, dir: string, name: string)
    requires dir == [] || dir[|dir| - 1] == '/'
    requires name != [] && '/' !in name
    requires !HasSuffix(name, ".html") && !HasSuffix(name, "index")
    ensures TrimmedPath(rootDir + "content/" + dir + name + ".md", rootDir) == dir + name
    ensures Base(dir + name) == name
  {
    var root := rootDir + "content/";
    var path := dir + name;
    var file := rootDir + "content/" + dir + name + ".md";
    assert file == root + (path + ".md");
    var p1 := TrimPrefix(file, root);
    assert p1 == path + ".md" by {
      assert file[..|root|] == root;
    }
    var p2 := TrimSuffix(p1, ".md");
    assert p2 == path by {
      assert p1[|path|..] == ".md";
    }
    NoSuffixAfterSlash(dir, name, ".html");
    NoSuffixAfterSlash(dir, name, "index");
    assert TrimmedPath(file, rootDir) == path;
    assert path[|path| - 1] == name[|name| - 1];
    assert TrimTrailingSlashes(path) == path;
    LastSegmentAfterSlash(dir, name);
  }

  /**
   * A file `content/<dir>YYYY-MM-DD-<slug>.md` whose date text is valid is
   * published at midnight of that date under `<dir><slug>/`.
   */
  lemma DatedFileParsed(rootDir: string, dir: string, date: string, slug: string)
    requires ParseDate(date).Some?
    requires dir == [] || dir[|dir| - 1] == '/'
    requires slug != [] && '/' !in slug
    requires !HasSuffix(slug, ".html") && !HasSuffix(slug, "index")
    ensures ParseFilename(rootDir + "content/" + dir + date + "-" + slug + ".md", rootDir)
         == ParsedName(dir + slug + "/", Midnight(ParseDate(date).value))
  {
    var name := date + "-" + slug;
    var path := dir + name;
    var file := rootDir + "content/" + dir + name + ".md";
    DatedNameShape(date, slug);
    var x := rootDir + "content/" + dir;
    AppendAssoc(x, date + "-", slug);
    AppendAssoc(x, date, "-");
    ContentFileTrims(rootDir, dir, name);
    assert ParseFilename(file, rootDir) == ParseTrimmed(path);
    assert path[..|path| - |name|] == dir;
    assert name[11..] == slug;
    AppendAssoc(dir, slug, "/");
  }

  /** "YYYY-MM-DD-" followed by a slug is a dated name whose parts are the date and the slug. */
  lemma {:induction false} DatedNameParts(date: string, slug: string)
    requires ParseDate(date).Some?
    requires slug != [] && '/' !in slug
    ensures var name := date + "-" + slug;
      '/' !in name && IsDatedName(name) && name[..10] == date && name[11..] == slug
  {
    var name := date + "-" + slug;
    forall i | 0 <= i < |name| ensures name[i] != '/' {
      if i >= 11 { assert name[i] == slug[i - 11]; }
    }
    assert name[..10] == date;
    assert name[11..] == slug;
  }

  /** A dated name keeps the slug's freedom from the ".html" and "index" suffixes. */
  lemma {:induction false} DatedNameShape(date: string, slug: string)
    requires ParseDate(date).Some?
    requires slug != [] && '/' !in slug
    requires !HasSuffix(slug, ".html") && !HasSuffix(slug, "index")
    ensures var name := date + "-" + slug;
      '/' !in name && !HasSuffix(name, ".html") && !HasSuffix(name, "index")
      && IsDatedName(name) && name[..10] == date && name[11..] == slug
  {
    DatedNameParts(date, slug);
    NoSuffixAfterDate(date, slug, ".html");
    NoSuffixAfterDate(date, slug, "index");
  }

  /**
   * A file `content/<dir><name>.md` whose name is not dated keeps its name
   * in the URL path, gains a trailing '/', and has no date.
   */
  lemma UndatedFileParsed(rootDir: string, dir: string, name: string)
    requires dir == [] || dir[|dir| - 1] == '/'
    requires name != [] && '/' !in name
    requires !HasSuffix(name, ".html") && !HasSuffix(name, "index")
    requires !IsDatedName(name)
    ensures ParseFilename(rootDir + "content/" + dir + name + ".md", rootDir) == ParsedName(dir + name + "/", ZeroTime)
  {
    var path := dir + name;
    var file := rootDir + "content/" + dir + name + ".md";
    ContentFileTrims(rootDir, dir, name);
    NoTrailingSlash(dir, name);
    assert ParseFilename(file, rootDir) == UndatedParse(path);
  }

  /** The index file of the content root has the empty URL path. */
  lemma RootIndexIsEmpty(rootDir: string)
    ensures ParseFilename(rootDir + "content/index.md", rootDir) == ParsedName("", ZeroTime)
  {
    var file := rootDir + "content/index.md";
    assert file == (rootDir + "content/") + "index.md";
    assert TrimPrefix(file, rootDir + "content/") == "index.md";
    assert TrimSuffix("index.md", ".md") == "index";
    assert TrimSuffix("index", ".html") == "index";
    assert TrimSuffix("index", "index") == "";
  }

  /** An index file `content/<dir>index.md` trims to `<dir>`. */
  lemma {:induction false} ContentIndexTrims(rootDir: string, dir: string)
    requires dir != [] && dir[|dir| - 1] == '/'
    ensures TrimmedPath(rootDir + "content/" + dir + "index.md", rootDir) == dir
  {
    var root := rootDir + "content/";
    var file := rootDir + "content/" + dir + "index.md";
    assert file == root + (dir + "index.md");
    var p1 := TrimPrefix(file, root);
    assert p1 == dir + "index.md" by {
      assert file[..|root|] == root;
    }
    assert p1 == (dir + "index") + ".md";
    var p2 := TrimSuffix(p1, ".md");
    assert p2 == dir + "index" by {
      assert p1[|dir + "index"|..] == ".md";
    }
    assert !HasSuffix(p2, ".html") by {
      assert p2[|p2| - 5..] == "index";
    }
    assert p2[|dir|..] == "index";
    assert TrimSuffix(p2, "index") == dir;
  }

  /**
   * `filepath.Base` ignores the trailing '/' left once "index" is trimmed, so
   * the URL path of the index file of a dated directory is cut at the wrong
   * offset: `content/<dir>YYYY-MM-DD-<slug>/index.md` is published under
   * `<dir>` + the first digit of the year + `<slug>/` (for instance
   * "blog/2023-05-01-x/index.md" under "blog/2x/").
   */
  lemma DatedIndexDirectorySlicedOddly(rootDir: string, dir: string, date: string, slug: string)
    requires ParseDate(date).Some?
    requires dir == [] || dir[|dir| - 1] == '/'
    requires slug != [] && '/' !in slug
    ensures ParseFilename(rootDir + "content/" + dir + date + "-" + slug + "/index.md", rootDir)
         == ParsedName(dir + [date[0]] + slug + "/", Midnight(ParseDate(date).value))
  {
    var name := date + "-" + slug;
    var path := dir + name + "/";
    var file := rootDir + "content/" + dir + name + "/index.md";
    DatedNameParts(date, slug);
    var x := rootDir + "content/" + dir;
    AppendAssoc(x, date + "-", slug);
    AppendAssoc(x, date, "-");
    IndexDirectoryTrims(rootDir, dir, name);
    BaseIgnoresTrailingSlash(dir, name);
    assert ParseFilename(file, rootDir) == ParseTrimmed(path);
    assert path[..|path| - |name|] == dir + [date[0]] by {
      assert |path| - |name| == |dir| + 1;
      FirstOfName(dir, name);
    }
    AppendAssoc(dir + [date[0]], slug, "/");
  }

  /** The index file of directory `<dir><name>/` trims to that directory. */
  lemma IndexDirectoryTrims(rootDir: string, dir: string, name: string)
    ensures TrimmedPath(rootDir + "content/" + dir + name + "/index.md", rootDir) == dir + name + "/"
  {
    var path := dir + name + "/";
    assert rootDir + "content/" + dir + name + "/index.md" == rootDir + "content/" + path + "index.md";
    ContentIndexTrims(rootDir, path);
  }

  lemma FirstOfName(dir: string, name: string)
    requires name != []
    ensures (dir + name + "/")[..|dir| + 1] == dir + [name[0]]
  {
  }
}
