/** The collaborators the rewriter calls but that are not modelled: the
    network, the file system, the Go standard library's parsers, encoders and
    path functions, and the `<img>` scanning expression.  Each is a field of
    an `Env`, an arbitrary total function, so every result proved below holds
    whatever these collaborators do. */
module Oracles {
  import opened Wrappers
  import opened Bytes

  /** The errors the core can record.  Go keeps them as opaque `error`
      values; here each carries the source of the failure and its text. */
  datatype Error =
    | FetchError(detail: Bytes)      // getImgBytesFromURL: http.Get or reading the body failed
    | ImageFileError(detail: Bytes)  // getImgBytesFromImg: open, stat, read or close failed
    | NotUrlNorPath                  // a `src` that is neither a request URI nor a valid path
    | DecodeError(detail: Bytes)     // image.DecodeConfig could not sniff a format
    | FileError(detail: Bytes)       // os.ReadFile, os.MkdirAll or os.WriteFile failed

  datatype Env = Env(
    /** url.ParseRequestURI(s) returns no error */
    isRequestUri: Bytes -> bool,
    /** fs.ValidPath(s) */
    validPath: Bytes -> bool,
    /** getImgBytesFromURL: http.Get then io.ReadAll of the body */
    getUrl: Bytes -> Result<Bytes, Error>,
    /** getImgBytesFromImg: os.Open, Stat, Read, Close */
    readImg: Bytes -> Result<Bytes, Error>,
    /** the format name image.DecodeConfig reports (jpeg, png, gif) */
    sniff: Bytes -> Result<Bytes, Error>,
    /** base64.StdEncoding.AppendEncode onto an empty buffer */
    base64: Bytes -> Bytes,
    /** fp.Join */
    join: (Bytes, Bytes) -> Bytes,
    /** fp.Rel; it cannot fail for two absolute paths */
    rel: (Bytes, Bytes) -> Bytes,
    /** the directory part of fp.Split */
    dir: Bytes -> Bytes,
    /** os.ReadFile */
    readFile: Bytes -> Result<Bytes, Error>,
    /** os.MkdirAll; None is a nil error */
    mkdirAll: Bytes -> Option<Error>,
    /** os.WriteFile; None is a nil error */
    writeFile: (Bytes, Bytes) -> Option<Error>,
    /** rgImg.FindAllSubmatchIndex(inbuf, -1) */
    scan: Bytes -> seq<seq<int>>
  )
}
