/**
 * How a client delimits what the server writes: a response ends its head at
 * the first blank line (CR LF CR LF) and is followed by as many body bytes as
 * its `Content-Length` line announces. The lemmas show that every response
 * the server formats is framed that way, and that the session cookie, which
 * is written after the whole response, lands beyond the announced body
 * rather than among the header lines.
 */
module Framing {
  import opened Wrappers
  import opened Bytes
  import opened Response
  import opened Parser
  import opened Handler

  /** A header line: not empty, and free of CR and LF. */
  predicate Clean(line: Bytes) {
    line != [] && CR !in line && LF !in line
  }

  predicate AllClean(lines: seq<Bytes>) {
    forall i :: 0 <= i < |lines| ==> Clean(lines[i])
  }

  lemma HeadEndsInBreak(lines: seq<Bytes>)
    requires lines != []
    ensures |Head(lines)| >= 2 && Head(lines)[|Head(lines)| - 2] == CR && Head(lines)[|Head(lines)| - 1] == LF
    decreases |lines|
  {
    if |lines| > 1 {
      HeadEndsInBreak(lines[1..]);
    }
  }

  /** Header lines without breaks contain no blank line before the one that ends the head. */
  lemma {:induction false} HeadHasNoBlankLine(lines: seq<Bytes>, tail: Bytes)
    requires lines != [] && AllClean(lines)
    ensures forall j :: 0 <= j < |Head(lines)| - 2 ==> !TerminatorAt(Head(lines) + tail, j)
    decreases |lines|
  {
    var l0, rest := lines[0], lines[1..];
    var inner := Head(rest) + tail;
    var s := Head(lines) + tail;
    assert s == l0 + CRLF + inner by {
      AppendAssociative(l0 + CRLF, Head(rest), tail);
    }
    assert s[|l0| + 2..] == inner;
    if rest != [] {
      HeadHasNoBlankLine(rest, tail);
      assert inner[0] == rest[0][0] && rest[0][0] in rest[0];
    }
    forall j | 0 <= j < |Head(lines)| - 2
      ensures !TerminatorAt(s, j)
    {
      if j < |l0| {
        assert s[j] == l0[j] && l0[j] in l0;
      } else if j == |l0| {
        assert rest != [];
        assert s[j + 2] == inner[0];
      } else if j == |l0| + 1 {
        assert s[j] == LF;
      } else {
        var k := j - |l0| - 2;
        assert TerminatorAt(s, j) <==> TerminatorAt(inner, k);
      }
    }
  }

  /**
   * A response whose header lines are free of breaks: its first blank line is
   * the one after the header lines, and everything after it is the body.
   */
  lemma ReplyFraming(lines: seq<Bytes>, body: Bytes)
    requires lines != [] && AllClean(lines)
    ensures var r := Reply(lines, body);
      && FindTerminator(r) == Some(|Head(lines)| - 2)
      && r[..|Head(lines)| + 2] == Head(lines) + CRLF
      && r[|Head(lines)| + 2..] == body
  {
    var r := Reply(lines, body);
    var k := |Head(lines)| - 2;
    HeadEndsInBreak(lines);
    HeadHasNoBlankLine(lines, CRLF + body);
    assert r == Head(lines) + (CRLF + body);
    assert TerminatorAt(r, k);
    FindTerminatorFirst(r);
    assert FindTerminator(r).value == k;
  }

  lemma DecimalIsClean(n: nat)
    ensures Clean(Decimal(n))
  {
    var d := Decimal(n);
    forall i | 0 <= i < |d|
      ensures d[i] != CR && d[i] != LF
    {
      assert IsDigit(d[i]);
    }
  }

  lemma CleanAppend(a: Bytes, b: Bytes)
    requires Clean(a) && CR !in b && LF !in b
    ensures Clean(a + b)
  {
  }

  /** The fixed header lines. */
  lemma ConstantLinesClean()
    ensures Clean(HTTP_11) && Clean(SPACE) && Clean(OK) && Clean(CONTENT_LENGTH) && Clean(DATE)
    ensures Clean(HTML_TYPE) && Clean(JSON_TYPE) && Clean(CLOSE)
  {
    PiecesClean();
    MimePiecesClean();
    CleanAppend(CONTENT_TYPE, TEXT_HTML);
    CleanAppend(CONTENT_TYPE + TEXT_HTML, CHARSET);
    CleanAppend(CONTENT_TYPE, APPLICATION_JSON);
  }

  lemma PiecesClean()
    ensures Clean(HTTP_11) && Clean(SPACE) && Clean(OK) && Clean(CONTENT_LENGTH) && Clean(DATE) && Clean(CLOSE)
  {
    StatusPiecesClean();
    LengthClean();
    CloseClean();
  }

  lemma StatusPiecesClean()
    ensures Clean(HTTP_11) && Clean(SPACE) && Clean(OK) && Clean(DATE)
  {
  }

  lemma LengthClean()
    ensures Clean(CONTENT_LENGTH)
  {
  }

  lemma CloseClean()
    ensures Clean(CLOSE)
  {
  }

  lemma MimePiecesClean()
    ensures Clean(CONTENT_TYPE) && Clean(TEXT_HTML) && Clean(CHARSET) && Clean(APPLICATION_JSON)
  {
    ContentTypeClean();
    TextHtmlClean();
    CharsetClean();
    ApplicationJsonClean();
  }

  lemma ContentTypeClean()
    ensures Clean(CONTENT_TYPE)
  {
  }

  lemma TextHtmlClean()
    ensures Clean(TEXT_HTML)
  {
  }

  lemma CharsetClean()
    ensures Clean(CHARSET)
  {
  }

  lemma ApplicationJsonClean()
    ensures Clean(APPLICATION_JSON)
  {
  }

  lemma StatusLineClean(code: nat, reason: Bytes)
    requires CR !in reason && LF !in reason
    ensures Clean(StatusLine(code, reason))
  {
    ConstantLinesClean();
    DecimalIsClean(code);
    CleanAppend(HTTP_11, Decimal(code));
    CleanAppend(HTTP_11 + Decimal(code), SPACE);
    CleanAppend(HTTP_11 + Decimal(code) + SPACE, reason);
  }

  lemma LengthAndDateClean(body: Bytes, date: Bytes)
    requires CR !in date && LF !in date
    ensures Clean(ContentLengthLine(body)) && Clean(DateLine(date))
  {
    ConstantLinesClean();
    DecimalIsClean(|body|);
    CleanAppend(CONTENT_LENGTH, Decimal(|body|));
    CleanAppend(DATE, date);
  }

  lemma FiveClean(a: Bytes, b: Bytes, c: Bytes, d: Bytes, e: Bytes)
    requires Clean(a) && Clean(b) && Clean(c) && Clean(d) && Clean(e)
    ensures AllClean([a, b, c, d, e])
  {
  }

  lemma HtmlErrorLinesClean(code: nat, title: Bytes, body: Bytes, date: Bytes)
    requires CR !in title && LF !in title && CR !in date && LF !in date
    ensures AllClean(HtmlErrorLines(code, title, body, date))
  {
    ConstantLinesClean();
    StatusLineClean(code, title);
    LengthAndDateClean(body, date);
    FiveClean(StatusLine(code, title), ContentLengthLine(body), HTML_TYPE, DateLine(date), CLOSE);
  }

  /** Whatever is written after a framed response starts after its body. */
  lemma ReplyThenMore(lines: seq<Bytes>, body: Bytes, more: Bytes)
    requires lines != [] && AllClean(lines)
    ensures var r := Reply(lines, body) + more;
      && FindTerminator(r) == Some(|Head(lines)| - 2)
      && r[|Head(lines)| + 2..] == body + more
  {
    ReplyFraming(lines, body);
    FindTerminatorAppend(Reply(lines, body), more);
    DropAppend(Reply(lines, body), more, |Head(lines)| + 2);
  }

  /**
   * `send_html_error`: the bytes after the first blank line are exactly the
   * error page, whose length the `Content-Length` line among the header lines
   * announces.
   */
  lemma HtmlErrorFraming(code: nat, title: Bytes, message: Bytes, date: Bytes)
    requires CR !in title && LF !in title && CR !in date && LF !in date
    ensures var body := HtmlErrorBody(title, message);
      var lines := HtmlErrorLines(code, title, body, date);
      var r := HtmlErrorReply(code, title, message, date);
      && ContentLengthLine(body) in lines
      && FindTerminator(r) == Some(|Head(lines)| - 2)
      && r[|Head(lines)| + 2..] == body
  {
    var body := HtmlErrorBody(title, message);
    HtmlErrorLinesClean(code, title, body, date);
    ReplyFraming(HtmlErrorLines(code, title, body, date), body);
  }

  /** `send_json`: the bytes after the first blank line are exactly the JSON text. */
  lemma JsonFraming(json: Bytes, date: Bytes)
    requires CR !in date && LF !in date
    ensures var lines := JsonLines(json, date);
      var r := JsonReply(json, date);
      && ContentLengthLine(json) in lines
      && FindTerminator(r) == Some(|Head(lines)| - 2)
      && r[|Head(lines)| + 2..] == json
  {
    ConstantLinesClean();
    StatusLineClean(200, OK);
    LengthAndDateClean(json, date);
    FiveClean(StatusLine(200, OK), JSON_TYPE, ContentLengthLine(json), DateLine(date), CLOSE);
    ReplyFraming(JsonLines(json, date), json);
  }

  lemma NotAllowedTitleClean()
    ensures CR !in METHOD_NOT_ALLOWED && LF !in METHOD_NOT_ALLOWED
  {
  }

  /**
   * The session cookie is not a header of the routed response: for a request
   * with an unknown method and no `cookie` header, the response head ends
   * where the 405 reply's head ends, and the `Set-Cookie` line follows the
   * error page that the `Content-Length` line covers.
   */
  lemma CookieFollowsBody(req: Request, entries: map<Files.Path, Files.Node>, faulty: set<Files.Path>, env: Env)
    requires RouteOf(req.verb, req.path, req.headers) == NotAllowed
    requires COOKIE_KEY !in req.headers
    requires CR !in env.date && LF !in env.date
    ensures var body := HtmlErrorBody(METHOD_NOT_ALLOWED, ONLY_ALLOWED);
      var lines := HtmlErrorLines(405, METHOD_NOT_ALLOWED, body, env.date);
      var r := Respond(Ok(req), entries, faulty, env).reply;
      && ContentLengthLine(body) in lines
      && FindTerminator(r) == Some(|Head(lines)| - 2)
      && r[|Head(lines)| + 2..] == body + CookieLine(SESSION_COOKIE)
  {
    var body := HtmlErrorBody(METHOD_NOT_ALLOWED, ONLY_ALLOWED);
    var lines := HtmlErrorLines(405, METHOD_NOT_ALLOWED, body, env.date);
    NotAllowedTitleClean();
    HtmlErrorLinesClean(405, METHOD_NOT_ALLOWED, body, env.date);
    ReplyThenMore(lines, body, CookieLine(SESSION_COOKIE));
    assert RouteReply(NotAllowed, req, entries, faulty, env).reply == Reply(lines, body);
    assert CookieReply(req.headers) == CookieLine(SESSION_COOKIE);
  }
}
