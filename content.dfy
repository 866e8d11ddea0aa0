/**
 * `Page.ParseContent`: cut the front matter off a file's bytes and turn the
 * rest into HTML, through the Markdown converter unless the file is ".html".
 */
module Content {
  import opened Wrappers
  import opened Text
  import opened Pages
  import opened Files
  import opened FrontMatter

  /**
   * The content cut: when the file is longer than 6 bytes and "+++" occurs
   * at or after byte 3, everything up to the end of the first such
   * occurrence is dropped. The file need not start with "+++".
   */
  function StripFrontMatter(content: seq<byte>): (r: seq<byte>)
    ensures HasSuffix(content, r)
    ensures r == content <==> |content| <= 6 || forall k :: 3 <= k ==> !OccursAt(content, Delimiter, k)
    ensures r != content ==>
      var q := |content| - |r| - 3;
      3 <= q && OccursAt(content, Delimiter, q) && forall k :: 3 <= k < q ==> !OccursAt(content, Delimiter, k)
  {
    if |content| > 6 then
      var pos := IndexOf(content[3..], Delimiter);
      if pos > -1 then
        OccursInSuffix(content, Delimiter, 3, pos);
        assert forall k :: 3 <= k < pos + 3 ==> !OccursAt(content, Delimiter, k) by {
          forall k | 3 <= k < pos + 3 ensures !OccursAt(content, Delimiter, k) {
            OccursInSuffix(content, Delimiter, 3, k - 3);
          }
        }
        content[pos + 6..]
      else
        assert forall k :: 3 <= k ==> !OccursAt(content, Delimiter, k) by {
          forall k | 3 <= k ensures !OccursAt(content, Delimiter, k) {
            OccursInSuffix(content, Delimiter, 3, k - 3);
          }
        }
        content
    else content
  }

  /** `string(b)`: the bytes read as a Go string, one character per byte. */
  function AsString(bs: seq<byte>): (r: string)
    ensures |r| == |bs|
    ensures forall i :: 0 <= i < |bs| ==> r[i] as int == bs[i] as int
  {
    seq(|bs|, i requires 0 <= i < |bs| => bs[i] as int as char)
  }

  /** The Markdown converter, left abstract: Markdown bytes to HTML, or failure. */
  type Converter = seq<byte> -> Option<string>

  /**
   * `ParseContent`: read the page's file, cut the front matter, and return
   * the rest verbatim for a ".html" file or converted from Markdown otherwise.
   */
  function ParseContent(p: Page, fs: FileSystem, convert: Converter): (r: Result<string, Error>)
    ensures r.Ok? ==> p.filepath in fs && fs[p.filepath].readable
  {
    match ReadAll(fs, p.filepath)
    case Err(e) => Err(e)
    case Ok(content) =>
      var body := StripFrontMatter(content);
      if HasSuffix(p.filepath, ".html") then Ok(AsString(body))
      else
        match convert(body)
        case Some(html) => Ok(html)
        case None => Err(ConvertFailed)
  }

  /**
   * A ".html" file never goes through the converter: whatever converter is
   * used, a readable file yields its bytes after the cut, verbatim.
   */
  lemma HtmlBypassesConverter(p: Page, fs: FileSystem, convert: Converter, other: Converter)
    requires HasSuffix(p.filepath, ".html")
    ensures ParseContent(p, fs, convert) == ParseContent(p, fs, other)
    ensures p.filepath in fs && fs[p.filepath].readable
      ==> ParseContent(p, fs, convert) == Ok(AsString(StripFrontMatter(fs[p.filepath].contents)))
  {
  }

  /**
   * Any other readable file goes through the converter: it receives exactly
   * the bytes after the cut, its HTML is the result, and its failure is the
   * error.
   */
  lemma MarkdownConvertsCut(p: Page, fs: FileSystem, convert: Converter)
    requires !HasSuffix(p.filepath, ".html")
    requires p.filepath in fs && fs[p.filepath].readable
    ensures ParseContent(p, fs, convert)
         == match convert(StripFrontMatter(fs[p.filepath].contents))
            case Some(html) => Ok(html)
            case None => Err(ConvertFailed)
  {
  }

  /** A missing or unreadable file is the open error naming it, whatever the converter. */
  lemma UnreadableContentFails(p: Page, fs: FileSystem, convert: Converter)
    requires p.filepath !in fs || !fs[p.filepath].readable
    ensures ParseContent(p, fs, convert) == Err(OpenFailed(p.filepath))
  {
  }

  /** The cut keeps what follows the first "+++" found at or after byte 3. */
  lemma FirstDelimiterCut(content: seq<byte>, q: nat)
    requires |content| > 6 && 3 <= q && OccursAt(content, Delimiter, q)
    requires forall k :: 3 <= k < q ==> !OccursAt(content, Delimiter, k)
    ensures StripFrontMatter(content) == content[q + 3..]
  {
    var r := StripFrontMatter(content);
    assert r != content;
    assert |content| - |r| - 3 == q;
  }

  /** No "+++" starts in `header + "+++"` before the closing delimiter. */
  predicate HeaderWithoutDelimiter(header: seq<byte>) {
    forall k :: 0 <= k < |header| ==> !OccursAt(header + Delimiter, Delimiter, k)
  }

  /** In `"+++" + header + "+++" + body` the first "+++" after byte 3 closes the header. */
  lemma {:induction false} ClosingDelimiter(header: seq<byte>, body: seq<byte>)
    requires HeaderWithoutDelimiter(header)
    ensures var content := Delimiter + header + Delimiter + body;
      OccursAt(content, Delimiter, 3 + |header|)
      && forall k :: 3 <= k < 3 + |header| ==> !OccursAt(content, Delimiter, k)
  {
    var content := Delimiter + header + Delimiter + body;
    var q := 3 + |header|;
    assert content[q..q + 3] == Delimiter;
    forall k | 3 <= k < q ensures !OccursAt(content, Delimiter, k) {
      assert content[k..k + 3] == (header + Delimiter)[k - 3..k];
      assert !OccursAt(header + Delimiter, Delimiter, k - 3);
    }
  }

  /**
   * A file made of a header block and a body, where no "+++" starts inside
   * the header, is cut down to exactly its body.
   */
  lemma StripWellFormed(header: seq<byte>, body: seq<byte>)
    requires HeaderWithoutDelimiter(header)
    requires |header| + |body| > 0
    ensures StripFrontMatter(Delimiter + header + Delimiter + body) == body
  {
    var content := Delimiter + header + Delimiter + body;
    ClosingDelimiter(header, body);
    FirstDelimiterCut(content, 3 + |header|);
    assert content[3 + |header| + 3..] == body;
  }

  /**
   * The front-matter check and the content cut agree on a well-formed file
   * whose header block fits in the first read: the one decodes exactly the
   * header, the other keeps exactly the body.
   */
  lemma BlockAndCutAgree(p: Page, fs: FileSystem, header: seq<byte>, body: seq<byte>)
    requires p.filepath in fs && fs[p.filepath].readable
    requires fs[p.filepath].contents == Delimiter + header + Delimiter + body
    requires HeaderWithoutDelimiter(header)
    requires |header| + |body| > 0
    requires |header| + 6 <= ReadBufferSize
    ensures FindBlock(ReadFirst(fs, p.filepath).value) == Header(header)
    ensures StripFrontMatter(fs[p.filepath].contents) == body
  {
    StripWellFormed(header, body);
    HeaderBlockInPrefix(header, body, ReadFirst(fs, p.filepath).value);
  }

  /** Any prefix of a well-formed file that holds its closing delimiter decodes exactly the header. */
  lemma HeaderBlockInPrefix(header: seq<byte>, body: seq<byte>, buf: seq<byte>)
    requires HeaderWithoutDelimiter(header)
    requires HasPrefix(Delimiter + header + Delimiter + body, buf) && |header| + 6 <= |buf|
    ensures FindBlock(buf) == Header(header)
  {
    var content := Delimiter + header + Delimiter + body;
    var q := 3 + |header|;
    ClosingDelimiter(header, body);
    FirstDelimiterInPrefix(content, buf, q);
    FindBlockAt(buf, |header|);
    assert buf[3..q] == content[3..q];
    HeaderSlice(header, body);
  }

  lemma HeaderSlice(header: seq<byte>, body: seq<byte>)
    ensures (Delimiter + header + Delimiter + body)[3..3 + |header|] == header
  {
  }

  /** A prefix that reaches past the end of the first "+++" from byte 3 has it as its first too. */
  lemma FirstDelimiterInPrefix(content: seq<byte>, buf: seq<byte>, q: nat)
    requires 3 <= q && q + 3 <= |buf| && HasPrefix(content, buf)
    requires OccursAt(content, Delimiter, q) && forall k :: 3 <= k < q ==> !OccursAt(content, Delimiter, k)
    requires HasPrefix(content, Delimiter)
    ensures HasPrefix(buf, Delimiter)
    ensures OccursAt(buf, Delimiter, q) && forall k :: 3 <= k < q ==> !OccursAt(buf, Delimiter, k)
  {
    assert buf == content[..|buf|];
    assert buf[..3] == content[..3];
    assert buf[q..q + 3] == content[q..q + 3];
    forall k | 3 <= k < q ensures !OccursAt(buf, Delimiter, k) {
      assert !OccursAt(content, Delimiter, k);
      assert buf[k..k + 3] == content[k..k + 3];
    }
  }

  /**
   * The cut does not look for an opening "+++": a body with no header that
   * merely contains "+++" after its first four bytes loses everything up to
   * and including it.
   */
  lemma StripWithoutOpeningDelimiter(text: seq<byte>, rest: seq<byte>)
    requires |text| >= 4
    requires forall i :: 0 <= i < |text| ==> text[i] != 43
    ensures StripFrontMatter(text + Delimiter + rest) == rest
  {
    var content := text + Delimiter + rest;
    var q := |text|;
    assert content[q..q + 3] == Delimiter;
    forall k | 3 <= k < q ensures !OccursAt(content, Delimiter, k) {
      assert content[k] == text[k];
    }
    FirstDelimiterCut(content, q);
    assert content[q + 3..] == rest;
  }
}
