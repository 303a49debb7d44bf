/** The static-file decision and the error responder, over an abstract
    filesystem: which response a GET of a path produces. */
module StaticFiles {
  import opened Util
  import opened ContentTypes
  import opened Responses

  /** What `java.io.File` reports about a path, and the bytes a
      `FileInputStream` on it would read. */
  datatype FileStat = FileStat(present: bool, isFile: bool, canRead: bool, bytes: seq<byte>)

  /** The filesystem, keyed by the path string the server builds. */
  type FileSystem = map<string, FileStat>

  const Missing := FileStat(false, false, false, [])

  function Stat(fs: FileSystem, path: string): FileStat
  {
    if path in fs then fs[path] else Missing
  }

  /** Whether a `FileInputStream` can be opened on the path: it must exist,
      be a regular file and be readable. */
  predicate Openable(st: FileStat)
  {
    st.present && st.isFile && st.canRead
  }

  /** The file a request path names: `/` stands for `/index.html`, any other
      path is appended to the document root as it is. */
  function Resolve(documentRoot: string, path: string): (file: string)
    ensures StartsWith(file, documentRoot)
    ensures path != "/" ==> file[|documentRoot|..] == path
    ensures path == "/" ==> file[|documentRoot|..] == "/index.html"
  {
    documentRoot + (if path == "/" then "/index.html" else path)
  }

  function ErrorPagePath(documentRoot: string, e: ErrorStatus): string
  {
    documentRoot + "/" + PageName(e)
  }

  /** The error response for `e`, or None when its page cannot be opened, in
      which case nothing is written and the handler carries on. */
  function ErrorReply(fs: FileSystem, documentRoot: string, e: ErrorStatus): (reply: Option<Response>)
    ensures reply.Some? ==> reply.value.status == Code(e) && reply.value.message == Message(e)
    ensures reply.Some? ==> reply.value.contentLength == |reply.value.body|
  {
    var page := ErrorPagePath(documentRoot, e);
    var st := Stat(fs, page);
    if !Openable(st) then None
    else Some(Response(Code(e), Message(e), |st.bytes|, ContentType(FileName(page)), st.bytes))
  }

  /** The response to `GET path`: 404 for a missing or non-regular file, 403
      for an unreadable one, otherwise 200 with the file's bytes. */
  function FileReply(fs: FileSystem, documentRoot: string, path: string): (reply: Option<Response>)
    ensures reply.Some? ==> reply.value.status in {200, 403, 404}
    ensures reply.Some? ==> reply.value.contentLength == |reply.value.body|
  {
    var file := Resolve(documentRoot, path);
    var st := Stat(fs, file);
    if !(st.present && st.isFile) then ErrorReply(fs, documentRoot, NotFound)
    else if !st.canRead then ErrorReply(fs, documentRoot, Forbidden)
    else Some(Response(200, "OK", |st.bytes|, ContentType(FileName(file)), st.bytes))
  }

  /** An error response carries the table's code and reason phrase, the
      page's bytes with their length, and the type text/html; it is missing
      only when the page cannot be opened. */
  lemma ErrorReplyFromTable(fs: FileSystem, documentRoot: string, e: ErrorStatus)
    ensures var st := Stat(fs, documentRoot + "/" + PageName(e));
      ErrorReply(fs, documentRoot, e).Some? <==> Openable(st)
    ensures ErrorReply(fs, documentRoot, e).Some? ==>
      var r := ErrorReply(fs, documentRoot, e).value;
      && r.status == Code(e) && r.message == Message(e)
      && r.body == Stat(fs, documentRoot + "/" + PageName(e)).bytes
      && r.contentLength == |r.body|
      && r.contentType == TextHtml
  {
    ErrorTableConsistent(e, e);
    FileNameAfterSlash(documentRoot, PageName(e));
    var name := PageName(e);
    assert name[3..] == ".html";
  }

  /** The status of a GET is decided by the file alone: 404 exactly when it
      is missing or not a regular file, 403 exactly when it is a regular file
      that cannot be read, 200 exactly when it can be opened, in which case
      the body is the file's bytes and the announced length is theirs. */
  lemma FileReplyDecision(fs: FileSystem, documentRoot: string, path: string)
    ensures var st := Stat(fs, Resolve(documentRoot, path));
      var reply := FileReply(fs, documentRoot, path);
      && (reply.Some? ==> reply.value.status in {200, 403, 404})
      && (reply.Some? && reply.value.status == 404 <==> !(st.present && st.isFile) && reply.Some?)
      && (reply.Some? && reply.value.status == 403 <==> st.present && st.isFile && !st.canRead && reply.Some?)
      && (reply.Some? && reply.value.status == 200 <==> Openable(st))
      && (reply.Some? ==> reply.value.contentLength == |reply.value.body|)
      && (Openable(st) ==> reply.value.body == st.bytes && reply.value.message == "OK")
      && (!Openable(st) ==> reply == ErrorReply(fs, documentRoot, if st.present && st.isFile then Forbidden else NotFound))
  {
    ErrorReplyFromTable(fs, documentRoot, NotFound);
    ErrorReplyFromTable(fs, documentRoot, Forbidden);
  }

  /** `GET /` is served exactly as `GET /index.html`. */
  lemma RootIsIndex(fs: FileSystem, documentRoot: string)
    ensures FileReply(fs, documentRoot, "/") == FileReply(fs, documentRoot, "/index.html")
  {
  }

  /** A 200 response is typed by the requested file's name. */
  lemma FileReplyType(fs: FileSystem, documentRoot: string, path: string)
    requires Openable(Stat(fs, Resolve(documentRoot, path)))
    ensures FileReply(fs, documentRoot, path).value.contentType == ContentType(Resolve(documentRoot, path))
  {
    ContentTypeOfFileName(Resolve(documentRoot, path));
  }
}
