/** What goes back to the client: the fixed error table, the header block
    (always labelled HTTP/1.0) and the bytes of a whole response. */
module Responses {
  import opened Util

  /** The four error statuses the handler ever answers with. */
  datatype ErrorStatus = BadRequest | Forbidden | NotFound | NotImplemented

  function Code(e: ErrorStatus): nat
  {
    match e
    case BadRequest => 400
    case Forbidden => 403
    case NotFound => 404
    case NotImplemented => 501
  }

  /** The page, under the document root, whose bytes make the error body. */
  function PageName(e: ErrorStatus): string
  {
    match e
    case BadRequest => "400.html"
    case Forbidden => "403.html"
    case NotFound => "404.html"
    case NotImplemented => "501.html"
  }

  /** The reason phrase on the status line. */
  function Message(e: ErrorStatus): string
  {
    match e
    case BadRequest => "Bad Request"
    case Forbidden => "Forbidden"
    case NotFound => "Not Found"
    case NotImplemented => "Method not supported"
  }

  /** Each error page is named after its status code, and distinct statuses
      have distinct codes, so the table is one-to-one. */
  lemma ErrorTableConsistent(e: ErrorStatus, f: ErrorStatus)
    ensures PageName(e) == Decimal(Code(e)) + ".html"
    ensures '/' !in PageName(e)
    ensures Code(e) == Code(f) ==> e == f
  {
    CodeNumerals();
    match e
    case BadRequest => assert PageName(e) == "400" + ".html";
    case Forbidden => assert PageName(e) == "403" + ".html";
    case NotFound => assert PageName(e) == "404" + ".html";
    case NotImplemented => assert PageName(e) == "501" + ".html";
  }

  /** The numerals of the four error codes. */
  lemma CodeNumerals()
    ensures Decimal(400) == "400" && Decimal(403) == "403" && Decimal(404) == "404" && Decimal(501) == "501"
  {
    assert Decimal(4) == "4" && Decimal(40) == "40";
    assert Decimal(5) == "5" && Decimal(50) == "50";
  }

  function Digit(d: nat): char
    requires d < 10
  {
    ('0' as int + d) as char
  }

  predicate IsDigit(c: char)
  {
    '0' <= c <= '9'
  }

  /** The decimal numeral Java's string concatenation writes for `n`. */
  function Decimal(n: nat): (s: string)
    ensures |s| > 0 && forall k :: 0 <= k < |s| ==> IsDigit(s[k])
    ensures |s| > 1 ==> s[0] != '0'
    decreases n
  {
    if n < 10 then [Digit(n)] else Decimal(n / 10) + [Digit(n % 10)]
  }

  /** The value of a numeral, read left to right as a client would. */
  function ParseDecimal(s: string): nat
    requires forall k :: 0 <= k < |s| ==> IsDigit(s[k])
    decreases |s|
  {
    if s == [] then 0
    else
      assert IsDigit(s[|s| - 1]);
      ParseDecimal(s[..|s| - 1]) * 10 + (s[|s| - 1] as int - '0' as int)
  }

  /** Reading the Content-Length numeral back gives the length written. */
  lemma {:induction false} DecimalRoundTrip(n: nat)
    ensures ParseDecimal(Decimal(n)) == n
    decreases n
  {
    var s := Decimal(n);
    if n >= 10 {
      assert s[..|s| - 1] == Decimal(n / 10);
      DecimalRoundTrip(n / 10);
    }
  }

  /** The four header lines, before their line ends. */
  function HeaderLines(status: nat, message: string, contentLength: nat, contentType: string, date: string): seq<string>
  {
    [ "HTTP/1.0 " + Decimal(status) + " " + message,
      "Content-Length: " + Decimal(contentLength),
      "Content-Type: " + contentType,
      "Date: " + date ]
  }

  /** Each line followed by CR LF. */
  function CrlfTerminated(lines: seq<string>): string
    decreases |lines|
  {
    if lines == [] then [] else lines[0] + "\r\n" + CrlfTerminated(lines[1..])
  }

  /** The header block: the four lines and an empty line, each ended by CR LF. */
  function HeaderText(status: nat, message: string, contentLength: nat, contentType: string, date: string): string
  {
    CrlfTerminated(HeaderLines(status, message, contentLength, contentType, date) + [""])
  }

  /** The header block is the five writes the server makes, in order. */
  lemma HeaderTextPieces(status: nat, message: string, contentLength: nat, contentType: string, date: string)
    ensures HeaderText(status, message, contentLength, contentType, date) ==
      ("HTTP/1.0 " + Decimal(status) + " " + message + "\r\n") +
      ("Content-Length: " + Decimal(contentLength) + "\r\n") +
      ("Content-Type: " + contentType + "\r\n") +
      ("Date: " + date + "\r\n") +
      "\r\n"
  {
    var ls := HeaderLines(status, message, contentLength, contentType, date) + [""];
    assert CrlfTerminated(ls[4..]) == "\r\n" by {
      assert ls[4..][1..] == [];
    }
    assert CrlfTerminated(ls[3..]) == ls[3] + "\r\n" + "\r\n" by {
      assert ls[3..][1..] == ls[4..];
    }
    assert CrlfTerminated(ls[2..]) == ls[2] + "\r\n" + (ls[3] + "\r\n" + "\r\n") by {
      assert ls[2..][1..] == ls[3..];
    }
    assert CrlfTerminated(ls[1..]) == ls[1] + "\r\n" + (ls[2] + "\r\n" + (ls[3] + "\r\n" + "\r\n")) by {
      assert ls[1..][1..] == ls[2..];
    }
  }

  /** The header block's bytes are the bytes of the five writes, in order. */
  lemma EncodeHeaderPieces(status: nat, message: string, contentLength: nat, contentType: string, date: string)
    ensures Encode(HeaderText(status, message, contentLength, contentType, date)) ==
      Encode("HTTP/1.0 " + Decimal(status) + " " + message + "\r\n") +
      Encode("Content-Length: " + Decimal(contentLength) + "\r\n") +
      Encode("Content-Type: " + contentType + "\r\n") +
      Encode("Date: " + date + "\r\n") +
      Encode("\r\n")
  {
    var a := "HTTP/1.0 " + Decimal(status) + " " + message + "\r\n";
    var b := "Content-Length: " + Decimal(contentLength) + "\r\n";
    var c := "Content-Type: " + contentType + "\r\n";
    var d := "Date: " + date + "\r\n";
    HeaderTextPieces(status, message, contentLength, contentType, date);
    EncodeAppend(a, b);
    EncodeAppend(a + b, c);
    EncodeAppend(a + b + c, d);
    EncodeAppend(a + b + c + d, "\r\n");
  }

  const LineBreaks: set<char> := {'\r', '\n'}

  /** `BufferedReader.readLine` applied until the end: a line ends at LF, at
      CR, or at CR LF; a last line without an end is still a line. */
  function ReadLines(s: string): seq<string>
    decreases |s|
  {
    if s == [] then []
    else
      var n := Span(s, LineBreaks);
      if n == |s| then [s]
      else
        var skip := if s[n] == '\r' && n + 1 < |s| && s[n + 1] == '\n' then 2 else 1;
        [s[..n]] + ReadLines(s[n + skip..])
  }

  predicate NoLineBreak(s: string)
  {
    forall k :: 0 <= k < |s| ==> s[k] !in LineBreaks
  }

  lemma {:induction false} SpanOfLine(line: string, rest: string)
    requires NoLineBreak(line)
    requires rest == [] || rest[0] in LineBreaks
    ensures Span(line + rest, LineBreaks) == |line|
    decreases |line|
  {
    if line != [] {
      assert (line + rest)[1..] == line[1..] + rest;
      SpanOfLine(line[1..], rest);
    }
  }

  /** Lines written with CR LF ends are read back one for one. */
  lemma {:induction false} ReadLinesOfCrlf(lines: seq<string>)
    requires forall k :: 0 <= k < |lines| ==> NoLineBreak(lines[k])
    ensures ReadLines(CrlfTerminated(lines)) == lines
    decreases |lines|
  {
    if lines != [] {
      var l := lines[0];
      var tail := CrlfTerminated(lines[1..]);
      var s := l + "\r\n" + tail;
      assert s == l + ("\r\n" + tail);
      SpanOfLine(l, "\r\n" + tail);
      assert s[|l|] == '\r' && s[|l| + 1] == '\n';
      assert s[..|l|] == l && s[|l| + 2..] == tail;
      ReadLinesOfCrlf(lines[1..]);
      assert lines == [l] + lines[1..];
    }
  }

  /** A client reading the header block line by line sees the status line,
      Content-Length, Content-Type and Date, then the empty line that ends
      the head, provided the free-text fields hold no line break. */
  lemma HeaderReadsBack(status: nat, message: string, contentLength: nat, contentType: string, date: string)
    requires NoLineBreak(message) && NoLineBreak(contentType) && NoLineBreak(date)
    ensures ReadLines(HeaderText(status, message, contentLength, contentType, date)) ==
      HeaderLines(status, message, contentLength, contentType, date) + [""]
  {
    var ls := HeaderLines(status, message, contentLength, contentType, date) + [""];
    var code, len := Decimal(status), Decimal(contentLength);
    assert NoLineBreak(code) && NoLineBreak(len);
    forall k | 0 <= k < |ls| ensures NoLineBreak(ls[k]) {
      if k == 0 {
        assert ls[0] == "HTTP/1.0 " + code + " " + message;
      }
    }
    ReadLinesOfCrlf(ls);
  }

  /** A response as the server writes it: status line fields, the announced
      length and type, then the body bytes. */
  datatype Response = Response(status: nat, message: string, contentLength: nat, contentType: string, body: seq<byte>)

  /** The bytes of one response on the wire. */
  function Wire(r: Response, date: string): seq<byte>
  {
    Encode(HeaderText(r.status, r.message, r.contentLength, r.contentType, date)) + r.body
  }

  /** The bytes of several responses, one after the other. */
  function WireAll(rs: seq<Response>, date: string): seq<byte>
    decreases |rs|
  {
    if rs == [] then [] else WireAll(rs[..|rs| - 1], date) + Wire(rs[|rs| - 1], date)
  }

  /** Sending one more response appends its header bytes, then its body. */
  lemma WireAllAppend(rs: seq<Response>, r: Response, date: string)
    ensures WireAll(rs + [r], date) ==
      WireAll(rs, date) + Encode(HeaderText(r.status, r.message, r.contentLength, r.contentType, date)) + r.body
  {
    assert (rs + [r])[..|rs|] == rs;
  }
}
