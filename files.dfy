/**
 * The file system as the content pipeline sees it, and the errors its
 * operations return. Files are data: a map from path to an entry.
 */
module Files {
  import opened Wrappers
  import opened Text
  import opened Times

  /** A regular file: its modification time, whether it can be opened, and its bytes. */
  datatype FileEntry = FileEntry(modTime: Time, readable: bool, contents: seq<byte>)

  /** Every regular file, by path. A path not in the map does not exist. */
  type FileSystem = map<string, FileEntry>

  /**
   * The errors the pipeline returns. The `os` errors and the missing
   * closing delimiter name the file; `io.EOF`, the decoder's and the
   * converter's errors are passed on as they are and do not.
   */
  datatype Error =
    | StatFailed(path: string)                  // os.Stat: the file does not exist
    | OpenFailed(path: string)                  // os.Open / os.ReadFile: missing or unreadable
    | EndOfFile                                 // the first Read of an empty file returns io.EOF
    | MissingClosingFrontMatter(path: string)   // "missing closing front-matter identifier in <path>"
    | DecodeFailed(reason: string)              // the decoder's own error
    | ConvertFailed                             // the converter's own error

  /** Size of the buffer the front-matter check reads into. */
  const ReadBufferSize: nat := 1024

  /**
   * `os.Open` followed by one `Read` into a buffer of `ReadBufferSize` bytes:
   * the first bytes of the file, or `io.EOF` when it is empty.
   */
  function ReadFirst(fs: FileSystem, path: string): (r: Result<seq<byte>, Error>)
    ensures r.Ok? <==> path in fs && fs[path].readable && fs[path].contents != []
    ensures r.Ok? ==> |r.value| == if |fs[path].contents| < ReadBufferSize then |fs[path].contents| else ReadBufferSize
    ensures r.Ok? ==> HasPrefix(fs[path].contents, r.value)
  {
    if path !in fs || !fs[path].readable then Err(OpenFailed(path))
    else if fs[path].contents == [] then Err(EndOfFile)
    else if |fs[path].contents| < ReadBufferSize then Ok(fs[path].contents)
    else Ok(fs[path].contents[..ReadBufferSize])
  }

  /** `os.ReadFile`: all bytes of the file; an empty file is read without error. */
  function ReadAll(fs: FileSystem, path: string): (r: Result<seq<byte>, Error>)
    ensures r.Ok? <==> path in fs && fs[path].readable
    ensures r.Ok? ==> r.value == fs[path].contents
  {
    if path !in fs || !fs[path].readable then Err(OpenFailed(path)) else Ok(fs[path].contents)
  }
}
