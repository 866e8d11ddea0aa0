/**
 * `parseFrontMatter`: find the block between a leading "+++" and the next
 * "+++" in the first bytes of a file, decode it, and overlay it on a page.
 */
module FrontMatter {
  import opened Wrappers
  import opened Text
  import opened Pages
  import opened Files

  /** The three-byte front-matter delimiter "+++". */
  const Delimiter: seq<byte> := [43, 43, 43]

  /** What the first bytes of a file hold. */
  datatype Block =
    | NoBlock                  // they do not start with the delimiter
    | Unclosed                 // they start with it but hold no second one
    | Header(body: seq<byte>)  // the bytes between the two delimiters

  /** The front-matter block at the start of `buf`. */
  function FindBlock(buf: seq<byte>): (r: Block)
    ensures r.NoBlock? <==> !HasPrefix(buf, Delimiter)
    ensures r.Unclosed? <==> HasPrefix(buf, Delimiter) && forall k :: 3 <= k ==> !OccursAt(buf, Delimiter, k)
    ensures r.Header? ==>
      HasPrefix(buf, Delimiter)
      && 3 + |r.body| + 3 <= |buf|
      && r.body == buf[3..3 + |r.body|]
      && OccursAt(buf, Delimiter, 3 + |r.body|)
      && forall k :: 3 <= k < 3 + |r.body| ==> !OccursAt(buf, Delimiter, k)
  {
    if !HasPrefix(buf, Delimiter) then NoBlock
    else
      var rest := buf[3..];
      var pos := IndexOf(rest, Delimiter);
      if pos == -1 then
        assert forall k :: 3 <= k ==> !OccursAt(buf, Delimiter, k) by {
          forall k | 3 <= k ensures !OccursAt(buf, Delimiter, k) {
            OccursInSuffix(buf, Delimiter, 3, k - 3);
          }
        }
        Unclosed
      else
        assert OccursAt(buf, Delimiter, 3 + pos) by {
          OccursInSuffix(buf, Delimiter, 3, pos);
        }
        assert forall k :: 3 <= k < 3 + pos ==> !OccursAt(buf, Delimiter, k) by {
          forall k | 3 <= k < 3 + pos ensures !OccursAt(buf, Delimiter, k) {
            OccursInSuffix(buf, Delimiter, 3, k - 3);
          }
        }
        Header(rest[..pos])
  }

  /** The TOML decoder, left abstract: a document's bytes to the fields it sets, or a reason for failing. */
  type Decoder = seq<byte> -> Result<PageOverlay, string>

  /**
   * The front-matter part of `parseFrontMatter`: read the first bytes of the
   * file; no block sets nothing, an unclosed block is an error naming the
   * file, and a block is decoded into the fields it sets.
   */
  function ReadOverlay(path: string, fs: FileSystem, decode: Decoder): (r: Result<PageOverlay, Error>)
    ensures r.Ok? ==> path in fs && fs[path].readable && fs[path].contents != []
    ensures ReadFirst(fs, path).Ok? && !HasPrefix(ReadFirst(fs, path).value, Delimiter) ==> r == Ok(EmptyOverlay)
    ensures r.Ok? && r.value != EmptyOverlay ==>
      var b := FindBlock(ReadFirst(fs, path).value);
      b.Header? && decode(b.body) == Ok(r.value)
    ensures r.Err? && r.error.MissingClosingFrontMatter? ==>
      r.error.path == path && ReadFirst(fs, path).Ok? && FindBlock(ReadFirst(fs, path).value).Unclosed?
  {
    match ReadFirst(fs, path)
    case Err(e) => Err(e)
    case Ok(buf) =>
      match FindBlock(buf)
      case NoBlock => Ok(EmptyOverlay)
      case Unclosed => Err(MissingClosingFrontMatter(path))
      case Header(body) =>
        match decode(body)
        case Err(reason) => Err(DecodeFailed(reason))
        case Ok(o) => Ok(o)
  }

  /** `parseFrontMatter`: overlay what the page's front matter sets on the page. */
  function ParseFrontMatter(p: Page, fs: FileSystem, decode: Decoder): (r: Result<Page, Error>)
    ensures r.Ok? <==> ReadOverlay(p.filepath, fs, decode).Ok?
    ensures r.Ok? ==> Apply(ReadOverlay(p.filepath, fs, decode).value, r.value) == r.value
    ensures r.Ok? && ReadOverlay(p.filepath, fs, decode).value == EmptyOverlay ==> r.value == p
  {
    match ReadOverlay(p.filepath, fs, decode)
    case Err(e) => Err(e)
    case Ok(o) =>
      ApplyIdempotent(o, p);
      Ok(Apply(o, p))
  }

  /**
   * The outcomes of `ParseFrontMatter` in terms of the file's first bytes
   * (at most 1024) when they hold no closed block: no leading "+++" changes
   * nothing, and a leading "+++" with no second one is an error naming the
   * file.
   */
  lemma FrontMatterWithoutBlock(p: Page, fs: FileSystem, decode: Decoder)
    requires p.filepath in fs && fs[p.filepath].readable && fs[p.filepath].contents != []
    ensures var buf := ReadFirst(fs, p.filepath).value;
      !HasPrefix(buf, Delimiter) ==> ParseFrontMatter(p, fs, decode) == Ok(p)
    ensures var buf := ReadFirst(fs, p.filepath).value;
      (HasPrefix(buf, Delimiter) && forall k :: 3 <= k ==> !OccursAt(buf, Delimiter, k))
      ==> ParseFrontMatter(p, fs, decode) == Err(MissingClosingFrontMatter(p.filepath))
  {
    ApplyIdempotent(EmptyOverlay, p);
  }

  /**
   * When the first bytes start with "+++" and the next "+++" starts at
   * offset `3 + n`, exactly the `n` bytes strictly between the two are
   * decoded and overlaid on the page.
   */
  lemma FrontMatterDecodesBetween(p: Page, fs: FileSystem, decode: Decoder, n: nat)
    requires p.filepath in fs && fs[p.filepath].readable && fs[p.filepath].contents != []
    requires var buf := ReadFirst(fs, p.filepath).value;
      HasPrefix(buf, Delimiter) && OccursAt(buf, Delimiter, 3 + n)
      && forall k :: 3 <= k < 3 + n ==> !OccursAt(buf, Delimiter, k)
    ensures var buf := ReadFirst(fs, p.filepath).value;
      ParseFrontMatter(p, fs, decode)
        == match decode(buf[3..3 + n])
           case Ok(o) => Ok(Apply(o, p))
           case Err(reason) => Err(DecodeFailed(reason))
  {
    FindBlockAt(ReadFirst(fs, p.filepath).value, n);
  }

  /** A block whose closing "+++" is the first one after the opening is found with exactly its body. */
  lemma FindBlockAt(buf: seq<byte>, n: nat)
    requires HasPrefix(buf, Delimiter) && OccursAt(buf, Delimiter, 3 + n)
    requires forall k :: 3 <= k < 3 + n ==> !OccursAt(buf, Delimiter, k)
    ensures FindBlock(buf) == Header(buf[3..3 + n])
  {
    var b := FindBlock(buf);
    assert b.Header? && |b.body| == n;
  }

  /** A header block's title, when it sets one, is the page's title. */
  lemma HeaderTitleWins(p: Page, fs: FileSystem, decode: Decoder, title: string)
    requires p.filepath in fs && fs[p.filepath].readable && fs[p.filepath].contents != []
    requires var b := FindBlock(ReadFirst(fs, p.filepath).value);
      b.Header? && decode(b.body).Ok? && decode(b.body).value.title == Some(title)
    ensures ParseFrontMatter(p, fs, decode).Ok?
    ensures ParseFrontMatter(p, fs, decode).value.title == title
  {
  }
}
