/** One client connection: the specification of what the handler sends for
    a sequence of incoming lines, and the handler itself as a class whose
    methods append to the connection's output and advance its reader. */
module Connection {
  import opened Util
  import opened RequestLines
  import opened Responses
  import opened StaticFiles

  /** The responses written for an optional reply: none when an error page
      could not be opened. */
  function Sent(reply: Option<Response>): (rs: seq<Response>)
    ensures |rs| <= 1
  {
    if reply.Some? then [reply.value] else []
  }

  /** One turn of the request loop starting at line `i`: what it sends, the
      index of the next unread line, and whether the loop goes on. */
  datatype Turn = Turn(sent: seq<Response>, next: nat, more: bool)

  function Exchange(fs: FileSystem, documentRoot: string, lines: seq<string>, i: nat): (t: Turn)
    requires i < |lines|
    ensures i < t.next <= |lines|
  {
    match Parse(lines[i])
    case None => Turn(Sent(ErrorReply(fs, documentRoot, BadRequest)), i + 1, false)
    case Some(request) =>
      if !IsGet(request.verb) then Turn(Sent(ErrorReply(fs, documentRoot, NotImplemented)), i + 1, false)
      else
        var sent := Sent(FileReply(fs, documentRoot, request.path));
        if request.version != "HTTP/1.1" then Turn(sent, i + 1, true)
        else
          var header := if i + 1 < |lines| then Some(lines[i + 1]) else None;
          Turn(sent, if header.Some? then i + 2 else i + 1, KeepsAlive(header))
  }

  /** Everything a connection sends, from line `i` until the loop ends, and
      how many lines it has then read. */
  datatype Transcript = Transcript(responses: seq<Response>, end: nat)

  function Session(fs: FileSystem, documentRoot: string, lines: seq<string>, i: nat): (t: Transcript)
    requires i <= |lines|
    ensures i <= t.end <= |lines|
    decreases |lines| - i
  {
    if i == |lines| then Transcript([], i)
    else
      var turn := Exchange(fs, documentRoot, lines, i);
      if turn.more then
        var rest := Session(fs, documentRoot, lines, turn.next);
        Transcript(turn.sent + rest.responses, rest.end)
      else Transcript(turn.sent, turn.next)
  }

  /** A request line without exactly three tokens gets the 400 page, if it
      can be opened, and nothing more is read or sent. */
  lemma BadRequestEndsSession(fs: FileSystem, documentRoot: string, lines: seq<string>, i: nat)
    requires i < |lines| && |Tokens(lines[i])| != 3
    ensures Session(fs, documentRoot, lines, i) == Transcript(Sent(ErrorReply(fs, documentRoot, BadRequest)), i + 1)
    ensures Openable(Stat(fs, ErrorPagePath(documentRoot, BadRequest))) ==>
      |Session(fs, documentRoot, lines, i).responses| == 1 && Session(fs, documentRoot, lines, i).responses[0].status == 400
  {
    ErrorReplyFromTable(fs, documentRoot, BadRequest);
  }

  /** A well-formed request whose method is not GET gets the 501 page, if it
      can be opened, and nothing more is read or sent. */
  lemma UnsupportedMethodEndsSession(fs: FileSystem, documentRoot: string, lines: seq<string>, i: nat)
    requires i < |lines| && Parse(lines[i]).Some? && !IsGet(Parse(lines[i]).value.verb)
    ensures Session(fs, documentRoot, lines, i) == Transcript(Sent(ErrorReply(fs, documentRoot, NotImplemented)), i + 1)
    ensures Openable(Stat(fs, ErrorPagePath(documentRoot, NotImplemented))) ==>
      |Session(fs, documentRoot, lines, i).responses| == 1 && Session(fs, documentRoot, lines, i).responses[0].status == 501
  {
    ErrorReplyFromTable(fs, documentRoot, NotImplemented);
  }

  /** A GET is answered by the static-file decision, never by 400 or 501;
      then the version decides whether the loop reads on. */
  lemma GetIsServed(fs: FileSystem, documentRoot: string, lines: seq<string>, i: nat)
    requires i < |lines| && Parse(lines[i]).Some? && IsGet(Parse(lines[i]).value.verb)
    ensures var request := Parse(lines[i]).value;
      var turn := Exchange(fs, documentRoot, lines, i);
      && turn.sent == Sent(FileReply(fs, documentRoot, request.path))
      && (forall k :: 0 <= k < |turn.sent| ==> turn.sent[k].status !in {400, 501})
      && (request.version != "HTTP/1.1" ==> turn.more && turn.next == i + 1)
      && (request.version == "HTTP/1.1" ==>
            (turn.more <==> i + 1 < |lines| && Contains(lines[i + 1], "keep-alive"))
            && turn.next == if i + 1 < |lines| then i + 2 else i + 1)
  {
    FileReplyDecision(fs, documentRoot, Parse(lines[i]).value.path);
  }

  /** A status the server knows, a Content-Length equal to the body's
      length, and text/html on every error page. */
  predicate WellFormed(r: Response)
  {
    && r.status in {200, 400, 403, 404, 501}
    && r.contentLength == |r.body|
    && (r.status != 200 ==> r.contentType == ContentTypes.TextHtml)
  }

  lemma ErrorReplyWellFormed(fs: FileSystem, documentRoot: string, e: ErrorStatus)
    ensures forall k :: 0 <= k < |Sent(ErrorReply(fs, documentRoot, e))| ==>
      WellFormed(Sent(ErrorReply(fs, documentRoot, e))[k])
  {
    ErrorReplyFromTable(fs, documentRoot, e);
  }

  lemma FileReplyWellFormed(fs: FileSystem, documentRoot: string, path: string)
    ensures forall k :: 0 <= k < |Sent(FileReply(fs, documentRoot, path))| ==>
      WellFormed(Sent(FileReply(fs, documentRoot, path))[k])
  {
    FileReplyDecision(fs, documentRoot, path);
    ErrorReplyWellFormed(fs, documentRoot, NotFound);
    ErrorReplyWellFormed(fs, documentRoot, Forbidden);
  }

  /** Each turn sends only well-formed responses. */
  lemma TurnWellFormed(fs: FileSystem, documentRoot: string, lines: seq<string>, i: nat)
    requires i < |lines|
    ensures forall k :: 0 <= k < |Exchange(fs, documentRoot, lines, i).sent| ==>
      WellFormed(Exchange(fs, documentRoot, lines, i).sent[k])
  {
    match Parse(lines[i])
    case None =>
      ErrorReplyWellFormed(fs, documentRoot, BadRequest);
    case Some(request) =>
      if !IsGet(request.verb) {
        ErrorReplyWellFormed(fs, documentRoot, NotImplemented);
      } else {
        FileReplyWellFormed(fs, documentRoot, request.path);
      }
  }

  /** Every response on a connection is well formed: its status is one the
      server knows, its announced length is its body's, and an error page is
      typed text/html. */
  lemma {:induction false} SessionResponsesWellFormed(fs: FileSystem, documentRoot: string, lines: seq<string>, i: nat)
    requires i <= |lines|
    ensures forall k :: 0 <= k < |Session(fs, documentRoot, lines, i).responses| ==>
      WellFormed(Session(fs, documentRoot, lines, i).responses[k])
    decreases |lines| - i
  {
    if i < |lines| {
      var turn := Exchange(fs, documentRoot, lines, i);
      TurnWellFormed(fs, documentRoot, lines, i);
      SessionStep(fs, documentRoot, lines, i);
      if turn.more {
        var rest := Session(fs, documentRoot, lines, turn.next).responses;
        SessionResponsesWellFormed(fs, documentRoot, lines, turn.next);
        var rs := turn.sent + rest;
        forall k | 0 <= k < |rs| ensures WellFormed(rs[k]) {
          if k < |turn.sent| {
            assert rs[k] == turn.sent[k];
          } else {
            assert rs[k] == rest[k - |turn.sent|];
          }
        }
      }
    }
  }

  /** The responses that end the loop: 400 Bad Request and 501. */
  predicate IsRejection(r: Response)
  {
    r.status == 400 || r.status == 501
  }

  /** A 400 or 501 response is always the last thing a connection sends:
      each rejection ends the loop, so there is at most one of them. */
  lemma {:induction false} RejectionIsLast(fs: FileSystem, documentRoot: string, lines: seq<string>, i: nat)
    requires i <= |lines|
    ensures forall k ::
      (0 <= k < |Session(fs, documentRoot, lines, i).responses| && IsRejection(Session(fs, documentRoot, lines, i).responses[k]))
      ==> k == |Session(fs, documentRoot, lines, i).responses| - 1
    decreases |lines| - i
  {
    if i < |lines| {
      var turn := Exchange(fs, documentRoot, lines, i);
      if turn.more {
        var rest := Session(fs, documentRoot, lines, turn.next);
        assert Parse(lines[i]).Some? && IsGet(Parse(lines[i]).value.verb);
        GetIsServed(fs, documentRoot, lines, i);
        RejectionIsLast(fs, documentRoot, lines, turn.next);
        var rs := turn.sent + rest.responses;
        forall k | 0 <= k < |rs| && IsRejection(rs[k]) ensures k == |rs| - 1 {
          if k < |turn.sent| {
            assert false;
          } else {
            assert rs[k] == rest.responses[k - |turn.sent|];
            assert IsRejection(rest.responses[k - |turn.sent|]);
          }
        }
      }
    }
  }

  /** The input of a `FileInputStream`: the file's bytes and how many of
      them have been read. */
  class FileInputStream {
    const data: seq<byte>
    var pos: nat

    ghost predicate Valid()
      reads this
    {
      pos <= |data|
    }

    ghost function Remaining(): seq<byte>
      reads this
      requires Valid()
    {
      data[pos..]
    }

    constructor (data: seq<byte>)
      ensures Valid() && this.data == data && pos == 0
    {
      this.data := data;
      pos := 0;
    }

    /** `read(buffer)`: -1 at the end of the file, otherwise at least one and
        at most `buffer.Length` of the next bytes, copied into the buffer. */
    method Read(buffer: array<byte>) returns (n: int)
      requires Valid()
      modifies this, buffer
      ensures Valid()
      ensures buffer.Length == 0 ==> n == 0 && pos == old(pos)
      ensures buffer.Length > 0 && old(pos) == |data| ==> n == -1 && pos == old(pos)
      ensures buffer.Length > 0 && old(pos) < |data| ==>
        && 0 < n <= buffer.Length
        && pos == old(pos) + n
        && buffer[..n] == data[old(pos)..pos]
    {
      if buffer.Length == 0 {
        return 0;
      }
      if pos == |data| {
        return -1;
      }
      n := if buffer.Length < |data| - pos then buffer.Length else |data| - pos;
      var k := 0;
      while k < n
        invariant 0 <= k <= n
        invariant buffer[..k] == data[pos..pos + k]
        modifies buffer
      {
        buffer[k] := data[pos + k];
        k := k + 1;
      }
      pos := pos + n;
    }
  }

  /** One unfolding of `Session`. */
  lemma SessionStep(fs: FileSystem, documentRoot: string, lines: seq<string>, i: nat)
    requires i < |lines|
    ensures var turn := Exchange(fs, documentRoot, lines, i);
      Session(fs, documentRoot, lines, i) ==
        if turn.more then
          Transcript(turn.sent + Session(fs, documentRoot, lines, turn.next).responses, Session(fs, documentRoot, lines, turn.next).end)
        else Transcript(turn.sent, turn.next)
  {
  }

  /** The request loop's account: `sent` began with `start`, and what it has
      added since, followed by what the session from `cursor` still sends,
      is the whole transcript. */
  ghost predicate Accounts(fs: FileSystem, documentRoot: string, lines: seq<string>,
                           whole: Transcript, start: seq<Response>, sent: seq<Response>, cursor: nat)
    requires cursor <= |lines|
  {
    && |start| <= |sent| && sent[..|start|] == start
    && whole.responses == sent[|start|..] + Session(fs, documentRoot, lines, cursor).responses
    && whole.end == Session(fs, documentRoot, lines, cursor).end
  }

  lemma AppendTurn(start: seq<Response>, before: seq<Response>, turnSent: seq<Response>, after: seq<Response>,
                   rest: seq<Response>, whole: seq<Response>)
    requires |start| <= |before|
    requires after == before + turnSent
    requires whole == before[|start|..] + (turnSent + rest)
    ensures whole == after[|start|..] + rest
  {
    assert after[|start|..] == before[|start|..] + turnSent;
  }

  /** A turn after which the loop goes on keeps the account. */
  lemma AccountsContinue(fs: FileSystem, documentRoot: string, lines: seq<string>,
                         whole: Transcript, start: seq<Response>, before: seq<Response>, after: seq<Response>, at: nat)
    requires at < |lines| && Accounts(fs, documentRoot, lines, whole, start, before, at)
    requires Exchange(fs, documentRoot, lines, at).more
    requires after == before + Exchange(fs, documentRoot, lines, at).sent
    ensures Accounts(fs, documentRoot, lines, whole, start, after, Exchange(fs, documentRoot, lines, at).next)
  {
    var turn := Exchange(fs, documentRoot, lines, at);
    SessionStep(fs, documentRoot, lines, at);
    var rest := Session(fs, documentRoot, lines, turn.next);
    assert Session(fs, documentRoot, lines, at).responses == turn.sent + rest.responses;
    assert whole.end == rest.end;
    assert after[..|start|] == before[..|start|];
    AppendTurn(start, before, turn.sent, after, rest.responses, whole.responses);
  }

  /** A turn that ends the loop settles the account: everything is sent. */
  lemma AccountsStop(fs: FileSystem, documentRoot: string, lines: seq<string>,
                     whole: Transcript, start: seq<Response>, before: seq<Response>, after: seq<Response>, at: nat)
    requires at < |lines| && Accounts(fs, documentRoot, lines, whole, start, before, at)
    requires !Exchange(fs, documentRoot, lines, at).more
    requires after == before + Exchange(fs, documentRoot, lines, at).sent
    ensures after == start + whole.responses && whole.end == Exchange(fs, documentRoot, lines, at).next
  {
    SessionStep(fs, documentRoot, lines, at);
    assert before == start + before[|start|..];
  }

  /** At the end of the input the account is settled too. */
  lemma AccountsEnd(fs: FileSystem, documentRoot: string, lines: seq<string>,
                    whole: Transcript, start: seq<Response>, sent: seq<Response>)
    requires Accounts(fs, documentRoot, lines, whole, start, sent, |lines|)
    ensures sent == start + whole.responses && whole.end == |lines|
  {
    assert sent == start + sent[|start|..];
  }

  lemma AppendFive(o: seq<byte>, a: seq<byte>, b: seq<byte>, c: seq<byte>, d: seq<byte>, e: seq<byte>)
    ensures o + a + b + c + d + e == o + (a + b + c + d + e)
  {
  }

  /** `ClientHandler`: one connection's reader, output stream and state. */
  class ClientHandler {
    const documentRoot: string
    const fs: FileSystem
    /** The `Date` header value, taken as given. */
    const date: string
    /** The lines the client sends, as `readLine` returns them. */
    const input: seq<string>
    /** How many lines have been read. */
    var cursor: nat
    /** Every byte written to the socket's output stream. */
    var out: seq<byte>
    /** Set when the connection's streams and socket are closed. */
    var closed: bool
    /** The complete responses written so far. */
    ghost var sent: seq<Response>

    ghost predicate Valid()
      reads this
    {
      cursor <= |input| && out == WireAll(sent, date)
    }

    constructor (socketInput: seq<string>, documentRoot: string, fs: FileSystem, date: string)
      ensures Valid()
      ensures this.input == socketInput && this.documentRoot == documentRoot && this.fs == fs && this.date == date
      ensures cursor == 0 && out == [] && sent == [] && !closed
    {
      this.input := socketInput;
      this.documentRoot := documentRoot;
      this.fs := fs;
      this.date := date;
      cursor := 0;
      out := [];
      sent := [];
      closed := false;
    }

    /** `reader.readLine()`: the next line, or None at the end of the stream. */
    method ReadLine() returns (line: Option<string>)
      requires Valid()
      modifies this`cursor
      ensures Valid()
      ensures old(cursor) < |input| ==> line == Some(input[old(cursor)]) && cursor == old(cursor) + 1
      ensures old(cursor) == |input| ==> line == None && cursor == old(cursor)
    {
      if cursor == |input| {
        line := None;
      } else {
        line := Some(input[cursor]);
        cursor := cursor + 1;
      }
    }

    /** Writes the header block, line by line, always labelled HTTP/1.0. */
    method SendResponseHeaders(status: nat, message: string, contentLength: nat, contentType: string)
      modifies this`out
      ensures out == old(out) + Encode(HeaderText(status, message, contentLength, contentType, date))
    {
      var statusLine := "HTTP/1.0 " + Decimal(status) + " " + message + "\r\n";
      var lengthLine := "Content-Length: " + Decimal(contentLength) + "\r\n";
      var typeLine := "Content-Type: " + contentType + "\r\n";
      var dateLine := "Date: " + date + "\r\n";
      ghost var o := out;
      var e1, e2, e3, e4, e5 := Encode(statusLine), Encode(lengthLine), Encode(typeLine), Encode(dateLine), Encode("\r\n");
      out := out + e1;
      out := out + e2;
      out := out + e3;
      out := out + e4;
      out := out + e5;
      EncodeHeaderPieces(status, message, contentLength, contentType, date);
      AppendFive(o, e1, e2, e3, e4, e5);
    }

    /** Copies what is left of the file to the output through a 1024-byte
        buffer, one chunk per read, until the read reports the end. */
    method ReadFile(file: FileInputStream) returns (ghost chunks: seq<seq<byte>>)
      requires file.Valid()
      modifies this`out, file
      ensures file.Valid() && file.pos == |file.data|
      ensures Concat(chunks) == old(file.Remaining())
      ensures forall k :: 0 <= k < |chunks| ==> 0 < |chunks[k]| <= 1024
      ensures out == old(out) + Concat(chunks)
    {
      var buffer := new byte[1024];
      ghost var start, written := file.pos, out;
      chunks := [];
      while true
        invariant file.Valid() && start <= file.pos
        invariant Concat(chunks) == file.data[start..file.pos]
        invariant forall k :: 0 <= k < |chunks| ==> 0 < |chunks[k]| <= 1024
        invariant out == written + Concat(chunks)
        decreases |file.data| - file.pos
      {
        ghost var before, from := chunks, file.pos;
        var n := file.Read(buffer);
        if n == -1 {
          break;
        }
        var chunk := buffer[..n];
        out := out + chunk;
        chunks := chunks + [chunk];
        ConcatAppend(before, chunk);
        SliceAppend(file.data, start, from, file.pos);
      }
    }

    /** Writes one whole response: its header block, then its body. */
    method SendResponse(r: Response, file: FileInputStream)
      requires Valid() && file.Valid() && file.pos == 0 && file.data == r.body
      modifies this`out, this`sent, file
      ensures Valid() && sent == old(sent) + [r]
    {
      SendResponseHeaders(r.status, r.message, r.contentLength, r.contentType);
      var chunks := ReadFile(file);
      assert file.data[0..] == r.body;
      sent := sent + [r];
      WireAllAppend(old(sent), r, date);
    }

    /** `sendErrorResponse`: opens the page for `e` under the document root;
        when that fails nothing is written. */
    method SendErrorResponse(e: ErrorStatus)
      requires Valid()
      modifies this`out, this`sent
      ensures Valid() && sent == old(sent) + Sent(ErrorReply(fs, documentRoot, e))
    {
      var page := ErrorPagePath(documentRoot, e);
      var st := Stat(fs, page);
      if !Openable(st) {
        return;
      }
      var file := new FileInputStream(st.bytes);
      var contentType := ContentTypes.ContentType(ContentTypes.FileName(page));
      SendResponse(Response(Code(e), Message(e), |st.bytes|, contentType, st.bytes), file);
    }

    /** `sendFile`: 404, 403 or the file itself. */
    method SendFile(path: string)
      requires Valid()
      modifies this`out, this`sent
      ensures Valid() && sent == old(sent) + Sent(FileReply(fs, documentRoot, path))
    {
      var target := if path == "/" then "/index.html" else path;
      var name := documentRoot + target;
      var st := Stat(fs, name);
      if st.present && st.isFile {
        if st.canRead {
          var file := new FileInputStream(st.bytes);
          var contentType := ContentTypes.ContentType(ContentTypes.FileName(name));
          SendResponse(Response(200, "OK", |st.bytes|, contentType, st.bytes), file);
        } else {
          SendErrorResponse(Forbidden);
        }
      } else {
        SendErrorResponse(NotFound);
      }
    }

    /** `closeConnection`, run once from the `finally` block. */
    method Close()
      requires !closed
      modifies this`closed
      ensures closed
    {
      closed := true;
    }

    /** The body of `run`'s loop for one request line that has just been
        read: answer it, and on HTTP/1.1 read the line after it. The result
        says whether the loop goes on. */
    method ServeRequest(request: string) returns (more: bool)
      requires Valid() && 0 < cursor && input[cursor - 1] == request
      modifies this`out, this`sent, this`cursor
      ensures Valid()
      ensures var turn := Exchange(fs, documentRoot, input, old(cursor) - 1);
        sent == old(sent) + turn.sent && cursor == turn.next && more == turn.more
    {
      var tokens := Tokens(request);
      if |tokens| != 3 {
        SendErrorResponse(BadRequest);
        return false;
      }
      var verb, path, version := tokens[0], tokens[1], tokens[2];
      assert Parse(request) == Some(RequestLine(verb, path, version));
      if IsGet(verb) {
        SendFile(path);
        if version == "HTTP/1.1" {
          var header := ReadLine();
          if header.None? || !Contains(header.value, "keep-alive") {
            return false;
          }
        }
        return true;
      } else {
        SendErrorResponse(NotImplemented);
        return false;
      }
    }

    /** `run`: reads request lines until the end of input, a rejection, or an
        HTTP/1.1 request not followed by a keep-alive line; then closes. */
    method Run()
      requires Valid() && !closed
      modifies this
      ensures Valid() && closed
      ensures sent == old(sent) + Session(fs, documentRoot, input, old(cursor)).responses
      ensures cursor == Session(fs, documentRoot, input, old(cursor)).end
    {
      ghost var whole := Session(fs, documentRoot, input, cursor);
      assert sent[..|sent|] == sent && sent[|sent|..] == [];
      while true
        invariant Valid() && !closed
        invariant Accounts(fs, documentRoot, input, whole, old(sent), sent, cursor)
        decreases |input| - cursor
      {
        ghost var at, before := cursor, sent;
        var request := ReadLine();
        if request.None? {
          AccountsEnd(fs, documentRoot, input, whole, old(sent), sent);
          break;
        }
        var more := ServeRequest(request.value);
        if !more {
          AccountsStop(fs, documentRoot, input, whole, old(sent), before, sent, at);
          break;
        }
        AccountsContinue(fs, documentRoot, input, whole, old(sent), before, sent, at);
      }
      Close();
    }
  }
}
