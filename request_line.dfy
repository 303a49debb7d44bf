/** Reading one request line: the default `java.util.StringTokenizer`
    split, the three-token shape `METHOD PATH VERSION`, the case-insensitive
    `GET` test and the one-line keep-alive test. */
module RequestLines {
  import opened Util

  /** The default delimiters of `StringTokenizer`: space, tab, newline,
      carriage return and form feed. */
  const Delimiters: set<char> := {' ', '\t', '\n', '\r', '\U{000C}'}

  /** A token is a non-empty run of non-delimiters. */
  predicate IsToken(t: string)
  {
    |t| > 0 && forall k :: 0 <= k < |t| ==> t[k] !in Delimiters
  }

  /** The tokens of `s`, in order: maximal runs of non-delimiters, with the
      empty runs between adjacent delimiters dropped. */
  function Tokens(s: string): (ts: seq<string>)
    ensures forall k :: 0 <= k < |ts| ==> IsToken(ts[k])
    ensures |ts| <= |s|
    decreases |s|
  {
    if s == [] then []
    else if s[0] in Delimiters then Tokens(s[1..])
    else
      var n := Span(s, Delimiters);
      [s[..n]] + Tokens(s[n..])
  }

  /** Tokens written back with one space between them. */
  function Join(ts: seq<string>): string
    decreases |ts|
  {
    if ts == [] then []
    else if |ts| == 1 then ts[0]
    else ts[0] + " " + Join(ts[1..])
  }

  lemma {:induction false} SpanOfToken(t: string, rest: string)
    requires IsToken(t)
    requires rest == [] || rest[0] in Delimiters
    ensures Span(t + rest, Delimiters) == |t|
    decreases |t|
  {
    if |t| > 1 {
      assert (t + rest)[1..] == t[1..] + rest;
      SpanOfToken(t[1..], rest);
    }
  }

  /** Splitting a space-joined list of tokens gives the list back. */
  lemma {:induction false} TokensOfJoin(ts: seq<string>)
    requires forall k :: 0 <= k < |ts| ==> IsToken(ts[k])
    ensures Tokens(Join(ts)) == ts
    decreases |ts|
  {
    if ts != [] {
      var t := ts[0];
      var rest: string := if |ts| == 1 then [] else " " + Join(ts[1..]);
      var s := t + rest;
      assert Join(ts) == s;
      SpanOfToken(t, rest);
      assert s[..|t|] == t && s[|t|..] == rest;
      if |ts| > 1 {
        assert rest[1..] == Join(ts[1..]);
        TokensOfJoin(ts[1..]);
        assert ts == [t] + ts[1..];
      }
    }
  }

  /** A delimiter in front of a line does not change its tokens. */
  lemma {:induction false} TokensSkipDelimiter(c: char, s: string)
    requires c in Delimiters
    ensures Tokens([c] + s) == Tokens(s)
  {
    assert ([c] + s)[1..] == s;
  }

  /** A token on its own splits into itself. */
  lemma TokensOfToken(t: string)
    requires IsToken(t)
    ensures Tokens(t) == [t]
  {
    SpanOfToken(t, []);
    assert t + [] == t;
    assert t[|t|..] == [];
  }

  /** A delimiter anywhere in a line separates the tokens before it from the
      tokens after it; with `TokensOfToken` and `Tokens([]) == []` this fixes
      the tokens of every line. */
  lemma {:induction false} TokensSplit(a: string, d: char, b: string)
    requires d in Delimiters
    ensures Tokens(a + [d] + b) == Tokens(a) + Tokens(b)
    decreases |a|
  {
    var s := a + [d] + b;
    if a == [] {
      assert s == [d] + b;
      TokensSkipDelimiter(d, b);
    } else if a[0] in Delimiters {
      assert s[1..] == a[1..] + [d] + b;
      TokensSplit(a[1..], d, b);
    } else {
      var n := Span(a, Delimiters);
      assert s == a + ([d] + b);
      SpanAppend(a, [d] + b, Delimiters);
      assert s[..n] == a[..n];
      assert s[n..] == a[n..] + [d] + b;
      TokensSplit(a[n..], d, b);
    }
  }

  /** A request line that has exactly three tokens. */
  datatype RequestLine = RequestLine(verb: string, path: string, version: string)

  /** The request line's three tokens, or None when the token count is not 3
      (the server then answers 400 Bad Request). */
  function Parse(line: string): (r: Option<RequestLine>)
    ensures r.Some? <==> |Tokens(line)| == 3
    ensures r.Some? ==> IsToken(r.value.verb) && IsToken(r.value.path) && IsToken(r.value.version)
    ensures r.Some? ==> [r.value.verb, r.value.path, r.value.version] == Tokens(line)
  {
    var ts := Tokens(line);
    if |ts| != 3 then None else Some(RequestLine(ts[0], ts[1], ts[2]))
  }

  /** A request line sent with single spaces parses back into its three parts. */
  lemma ParseJoin(verb: string, path: string, version: string)
    requires IsToken(verb) && IsToken(path) && IsToken(version)
    ensures Parse(Join([verb, path, version])) == Some(RequestLine(verb, path, version))
  {
    TokensOfJoin([verb, path, version]);
  }

  /** Upper-casing of the ASCII letters, the only ones that can spell `GET`. */
  function AsciiUpper(s: string): (r: string)
    ensures |r| == |s|
    ensures forall k :: 0 <= k < |s| ==> r[k] == if 'a' <= s[k] <= 'z' then (s[k] as int - 32) as char else s[k]
  {
    seq(|s|, k requires 0 <= k < |s| => if 'a' <= s[k] <= 'z' then (s[k] as int - 32) as char else s[k])
  }

  /** `method.toUpperCase()` followed by `equalsIgnoreCase("GET")`. */
  predicate IsGet(verb: string)
  {
    AsciiUpper(verb) == "GET"
  }

  /** The method test accepts exactly the eight spellings of `get` in mixed case. */
  lemma IsGetCases(verb: string)
    ensures IsGet(verb) <==>
      |verb| == 3 && verb[0] in {'G', 'g'} && verb[1] in {'E', 'e'} && verb[2] in {'T', 't'}
  {
    if |verb| == 3 && verb[0] in {'G', 'g'} && verb[1] in {'E', 'e'} && verb[2] in {'T', 't'} {
      assert AsciiUpper(verb) == "GET";
    }
    if IsGet(verb) {
      var u := AsciiUpper(verb);
      assert u[0] == 'G' && u[1] == 'E' && u[2] == 'T';
    }
  }

  /** The line after an `HTTP/1.1` request keeps the connection open only if
      it is present and contains `keep-alive` (case-sensitive). */
  predicate KeepsAlive(header: Option<string>)
  {
    header.Some? && Contains(header.value, "keep-alive")
  }
}
