/**
 * What the server writes back: the exact bytes of its error, JSON, file,
 * page and cookie responses, and the four per-method request handlers, which
 * consult the file system through `resolve_safe_path` and append one
 * response to the connection.
 */
module Response {
  import opened Wrappers
  import opened Bytes
  import opened Streams
  import opened Files
  import opened Utils

  /**
   * The collaborators the handlers consult that are outside the model:
   * `http_date()`, `chrono::Utc::now()` as serde_json writes it,
   * `env::current_dir()`, `mime_guess` and serde_json's parse-then-pretty-print
   * (None when the text is not JSON).
   */
  datatype Env = Env(
    date: Bytes,
    clock: Bytes,
    cwd: Path,
    mime: Path -> Bytes,
    prettyJson: Bytes -> Option<Bytes>)

  // ---------------------------------------------------------------- wire format

  const HTTP_11: Bytes := "HTTP/1.1 "
  const SPACE: Bytes := " "
  const OK: Bytes := "OK"
  const CONTENT_LENGTH: Bytes := "Content-Length: "
  const CONTENT_TYPE: Bytes := "Content-Type: "
  const DATE: Bytes := "Date: "
  const SET_COOKIE: Bytes := "Set-Cookie: "
  const TEXT_HTML: Bytes := "text/html; "
  const CHARSET: Bytes := "charset=UTF-8"
  const APPLICATION_JSON: Bytes := "application/json"
  const HTML_TYPE: Bytes := CONTENT_TYPE + TEXT_HTML + CHARSET
  const JSON_TYPE: Bytes := CONTENT_TYPE + APPLICATION_JSON
  const CLOSE: Bytes := "Connection: close"
  const ERROR_OPEN: Bytes := "<html><body><h1>"
  const ERROR_MIDDLE: Bytes := "</h1><p>"
  const ERROR_CLOSE: Bytes := "</p></body></html>"

  // Titles and messages of the error pages.
  const BAD_REQUEST: Bytes := "Bad Request"
  const NOT_FOUND: Bytes := "Not Found"
  const SERVER_ERROR: Bytes := "Internal Server Error"
  const ERROR: Bytes := "Error"
  const PAGE_MISSING: Bytes := "404 - File not found"
  const READ_FAILED: Bytes := "Error reading the file"
  const WRITE_FAILED: Bytes := "Could not write to file."
  const INVALID_PATH: Bytes := "Invalid path."
  const NO_SUCH_FILE: Bytes := "File does not exist."
  const DELETE_FAILED: Bytes := "File could not be deleted."
  const ROOT: Bytes := "/"
  const INDEX: Bytes := "/index.html"

  /** Header lines, each ended by CRLF. */
  function Head(lines: seq<Bytes>): Bytes {
    if lines == [] then [] else lines[0] + CRLF + Head(lines[1..])
  }

  /** A response: its status and header lines, an empty line, then the body. */
  function Reply(lines: seq<Bytes>, body: Bytes): Bytes {
    Head(lines) + CRLF + body
  }

  function StatusLine(code: nat, reason: Bytes): Bytes {
    HTTP_11 + Decimal(code) + SPACE + reason
  }

  function ContentLengthLine(body: Bytes): Bytes {
    CONTENT_LENGTH + Decimal(|body|)
  }

  function DateLine(date: Bytes): Bytes {
    DATE + date
  }

  function HtmlErrorBody(title: Bytes, message: Bytes): Bytes {
    ERROR_OPEN + title + ERROR_MIDDLE + message + ERROR_CLOSE
  }

  function HtmlErrorLines(code: nat, title: Bytes, body: Bytes, date: Bytes): seq<Bytes> {
    [StatusLine(code, title), ContentLengthLine(body), HTML_TYPE, DateLine(date), CLOSE]
  }

  /** `send_html_error`. */
  function HtmlErrorReply(code: nat, title: Bytes, message: Bytes, date: Bytes): Bytes {
    var body := HtmlErrorBody(title, message);
    Reply(HtmlErrorLines(code, title, body, date), body)
  }

  function JsonLines(json: Bytes, date: Bytes): seq<Bytes> {
    [StatusLine(200, OK), JSON_TYPE, ContentLengthLine(json), DateLine(date), CLOSE]
  }

  /** `send_json`. */
  function JsonReply(json: Bytes, date: Bytes): Bytes {
    Reply(JsonLines(json, date), json)
  }

  /** `send_cookie`: a bare `Set-Cookie` line and nothing else. */
  function CookieLine(cookie: Bytes): Bytes {
    SET_COOKIE + cookie + CRLF
  }

  /** `send_404_page`. */
  function NotFoundReply(date: Bytes): Bytes {
    HtmlErrorReply(404, NOT_FOUND, PAGE_MISSING, date)
  }

  function FileLines(contents: Bytes, contentType: Bytes, date: Bytes): seq<Bytes> {
    [StatusLine(200, OK), ContentLengthLine(contents), CONTENT_TYPE + contentType, DateLine(date), CLOSE]
  }

  /** The 200 response `handle_get_request` writes for a file it could read. */
  function FileReply(contents: Bytes, contentType: Bytes, date: Bytes): Bytes {
    Reply(FileLines(contents, contentType, date), contents)
  }

  function PageLines(page: Bytes, date: Bytes): seq<Bytes> {
    [StatusLine(200, OK), ContentLengthLine(page), HTML_TYPE, DateLine(date), CLOSE]
  }

  /** The 200 response `handle_post_request` writes around the page it built. */
  function PageReply(page: Bytes, date: Bytes): Bytes {
    Reply(PageLines(page, date), page)
  }

  // ---------------------------------------------------------------- escaping

  function EscapeByte(c: Byte): Bytes {
    if c == '&' then "&amp;" else if c == '<' then "&lt;" else if c == '>' then "&gt;" else [c]
  }

  /** `html_escape::encode_text`: `&`, `<` and `>` become character references. */
  function EscapeText(s: Bytes): Bytes {
    if s == [] then [] else EscapeByte(s[0]) + EscapeText(s[1..])
  }

  /** Decodes the three references `EscapeText` produces, and nothing else. */
  function UnescapeText(s: Bytes): Bytes {
    if s == [] then []
    else if "&amp;" <= s then "&" + UnescapeText(s[5..])
    else if "&lt;" <= s then "<" + UnescapeText(s[4..])
    else if "&gt;" <= s then ">" + UnescapeText(s[4..])
    else [s[0]] + UnescapeText(s[1..])
  }

  lemma UnescapeStep(c: Byte, rest: Bytes)
    ensures UnescapeText(EscapeByte(c) + rest) == [c] + UnescapeText(rest)
  {
    var s := EscapeByte(c) + rest;
    if c == '&' {
      assert s[5..] == rest;
    } else if c == '<' {
      assert s[1] == 'l' && !("&amp;" <= s);
      assert s[4..] == rest;
    } else if c == '>' {
      assert s[1] == 'g' && !("&amp;" <= s) && !("&lt;" <= s);
      assert s[4..] == rest;
    } else {
      assert s[0] == c && s[1..] == rest;
    }
  }

  /** Escaped text decodes back to the original text. */
  lemma {:induction false} EscapeRoundTrip(s: Bytes)
    ensures UnescapeText(EscapeText(s)) == s
  {
    if s != [] {
      EscapeRoundTrip(s[1..]);
      UnescapeStep(s[0], EscapeText(s[1..]));
      assert EscapeText(s) == EscapeByte(s[0]) + EscapeText(s[1..]);
      assert s == [s[0]] + s[1..];
    }
  }

  /** Escaped text cannot open or close an HTML tag. */
  lemma {:induction false} EscapeHasNoTags(s: Bytes)
    ensures '<' !in EscapeText(s) && '>' !in EscapeText(s)
  {
    if s != [] {
      EscapeHasNoTags(s[1..]);
      assert EscapeText(s) == EscapeByte(s[0]) + EscapeText(s[1..]);
    }
  }

  function HexDigit(d: nat): Byte
    requires d < 16
  {
    if d < 10 then Digit(d) else ('a' as int + d - 10) as char
  }

  /** How serde_json writes one byte inside a string literal. */
  function JsonByte(c: Byte): Bytes {
    if c == '"' then "\\\""
    else if c == '\\' then "\\\\"
    else if c == '\n' then "\\n"
    else if c == '\r' then "\\r"
    else if c == '\t' then "\\t"
    else if c as int == 0x08 then "\\b"
    else if c as int == 0x0C then "\\f"
    else if c as int < 0x20 then "\\u00" + [HexDigit(c as int / 16), HexDigit(c as int % 16)]
    else [c]
  }

  function JsonEscape(s: Bytes): Bytes {
    if s == [] then [] else JsonByte(s[0]) + JsonEscape(s[1..])
  }

  /** A JSON string literal holding `s`. */
  function JsonString(s: Bytes): Bytes {
    "\"" + JsonEscape(s) + "\""
  }

  /** Plain text is written as it is. */
  lemma {:induction false} JsonEscapePlain(s: Bytes)
    requires forall i :: 0 <= i < |s| ==> s[i] as int >= 0x20 && s[i] != '"' && s[i] != '\\'
    ensures JsonEscape(s) == s
  {
    if s != [] {
      JsonEscapePlain(s[1..]);
    }
  }

  /** No control byte survives escaping. */
  lemma {:induction false} JsonEscapeNoControl(s: Bytes)
    ensures forall i :: 0 <= i < |JsonEscape(s)| ==> JsonEscape(s)[i] as int >= 0x20
  {
    if s != [] {
      JsonEscapeNoControl(s[1..]);
      var c := s[0];
      assert c as int < 0x20 ==> HexDigit(c as int / 16) as int >= 0x20 && HexDigit(c as int % 16) as int >= 0x20;
      var e := JsonEscape(s);
      assert e == JsonByte(c) + JsonEscape(s[1..]);
      forall i | 0 <= i < |e| ensures e[i] as int >= 0x20 {
        if i >= |JsonByte(c)| {
          assert e[i] == JsonEscape(s[1..])[i - |JsonByte(c)|];
        }
      }
    }
  }

  // ---------------------------------------------------------------- JSON documents

  /** `json!({"status": "ok", "time": Utc::now()})` written compactly. */
  function StatusJson(clock: Bytes): Bytes {
    "{\"status\":\"ok\",\"time\":" + JsonString(clock) + "}"
  }

  const UPLOAD_JSON: Bytes := "{\"upload\":\"received\"}"

  /** `json!({"status": "ok", "message": msg})`; serde_json orders the keys. */
  function PutJson(p: Path): Bytes {
    "{\"message\":" + JsonString("File " + Display(p) + " was successfully updated.") + ",\"status\":\"ok\"}"
  }

  function DeleteJson(p: Path): Bytes {
    "{\"deleted\":" + JsonString(Display(p)) + "}"
  }

  // ---------------------------------------------------------------- POST bodies

  const COLON_SPACE: Bytes := ": "
  const NEWLINE: Bytes := "\n"

  function PairLine(key: Bytes, value: Bytes): Bytes {
    EscapeText(key) + COLON_SPACE + EscapeText(value) + NEWLINE
  }

  /** One `key: value` line for a form pair, or nothing for a pair without `=`. */
  function FormLine(pair: Bytes): Bytes {
    match SplitOnce(pair, '=')
    case None => []
    case Some((key, value)) => PairLine(key, value)
  }

  /** The line each pair contributes, in the order of the pairs. */
  function FormLines(pairs: seq<Bytes>): (r: seq<Bytes>)
    ensures |r| == |pairs|
    ensures forall i :: 0 <= i < |pairs| ==> r[i] == FormLine(pairs[i])
  {
    seq(|pairs|, i requires 0 <= i < |pairs| => FormLine(pairs[i]))
  }

  /** The text the form branch of `handle_post_request` puts inside `<pre>`. */
  function FormData(body: Bytes): Bytes {
    Concat(FormLines(Split(body, '&')))
  }

  /** The `for pair in body.split('&')` loop that builds `form_data`. */
  method BuildFormData(body: Bytes) returns (form: Bytes)
    ensures form == FormData(body)
  {
    var pairs := Split(body, '&');
    ghost var lines := FormLines(pairs);
    form := [];
    for i := 0 to |pairs|
      invariant form == Concat(lines[..i])
    {
      assert lines[..i + 1][..i] == lines[..i];
      assert lines[i] == FormLine(pairs[i]);
      match SplitOnce(pairs[i], '=') {
        case Some((key, value)) =>
          form := form + PairLine(key, value);
        case None =>
      }
    }
    assert lines[..|pairs|] == lines;
  }

  lemma FormLinesAppend(p: seq<Bytes>, q: seq<Bytes>)
    ensures FormLines(p + q) == FormLines(p) + FormLines(q)
  {
    var a, b, ab := FormLines(p), FormLines(q), FormLines(p + q);
    forall i | 0 <= i < |ab|
      ensures ab[i] == (a + b)[i]
    {
      if i < |p| {
        assert (p + q)[i] == p[i];
      } else {
        assert (p + q)[i] == q[i - |p|];
      }
    }
  }

  /** Pairs are handled one after the other: the lines of `a&b` are those of `a`, then those of `b`. */
  lemma FormDataAppend(a: Bytes, b: Bytes)
    ensures FormData(a + "&" + b) == FormData(a) + FormData(b)
  {
    SplitAppend(a, b, '&');
    FormLinesAppend(Split(a, '&'), Split(b, '&'));
    ConcatAppend(FormLines(Split(a, '&')), FormLines(Split(b, '&')));
  }

  /** A body without `&` is one pair. */
  lemma FormDataSingle(pair: Bytes)
    requires '&' !in pair
    ensures FormData(pair) == FormLine(pair)
  {
    SplitWithout(pair, '&');
    var lines := FormLines([pair]);
    assert lines[..0] == [];
    assert Concat(lines) == Concat(lines[..0]) + lines[0];
  }

  /**
   * A pair splits at its first `=`: the key has no `=`, the value keeps any
   * later `=`, and both are escaped.
   */
  lemma FormDataPair(key: Bytes, value: Bytes)
    requires '=' !in key && '&' !in key && '&' !in value
    ensures FormData(key + "=" + value) == PairLine(key, value)
  {
    var pair := key + "=" + value;
    assert '&' !in pair;
    FormDataSingle(pair);
    SplitOnceAt(key, value, '=');
  }

  /** A pair without `=` contributes no line. */
  lemma FormDataSkips(pair: Bytes)
    requires '=' !in pair && '&' !in pair
    ensures FormData(pair) == []
  {
    FormDataSingle(pair);
  }

  /** `body.trim_start().starts_with('{')`. */
  predicate LooksLikeJson(body: Bytes) {
    var t := TrimStart(body);
    t != [] && t[0] == '{'
  }

  const JSON_PAGE_OPEN: Bytes := ERROR_OPEN + "Received JSON Data:</h1><pre>"
  const DATA_PAGE_OPEN: Bytes := ERROR_OPEN + "Received Data:</h1><pre>"
  const FORM_PAGE_OPEN: Bytes := ERROR_OPEN + "Received Form Data:</h1><pre>"
  const PAGE_CLOSE: Bytes := "</pre></body></html>"

  function JsonPage(pretty: Bytes): Bytes {
    JSON_PAGE_OPEN + pretty + PAGE_CLOSE
  }

  function DataPage(body: Bytes): Bytes {
    DATA_PAGE_OPEN + EscapeText(body) + PAGE_CLOSE
  }

  function FormPage(form: Bytes): Bytes {
    FORM_PAGE_OPEN + form + PAGE_CLOSE
  }

  /** The page `handle_post_request` builds for a body. */
  function PostPage(body: Bytes, prettyJson: Bytes -> Option<Bytes>): Bytes {
    if LooksLikeJson(body) then
      match prettyJson(body)
      case Some(pretty) => JsonPage(pretty)
      case None => DataPage(body)
    else FormPage(FormData(body))
  }

  // ---------------------------------------------------------------- handler outcomes

  /** What a handler writes and the file system it leaves behind. */
  datatype Outcome = Outcome(reply: Bytes, entries: map<Path, Node>)

  /** `/` is served as `/index.html`. */
  function GetTarget(path: Bytes): Bytes {
    if path == ROOT then INDEX else path
  }

  /** The response of `handle_get_request`. */
  function GetReply(entries: map<Path, Node>, faulty: set<Path>, env: Env, path: Bytes): Bytes {
    var resolved := ResolveSafePath(entries, env.cwd, GetTarget(path));
    if resolved.Some? && IsFile(entries, resolved.value) then
      match ReadFile(entries, faulty, resolved.value)
      case Some(contents) => FileReply(contents, env.mime(resolved.value), env.date)
      case None => HtmlErrorReply(500, SERVER_ERROR, READ_FAILED, env.date)
    else NotFoundReply(env.date)
  }

  /** The response and file system after `handle_put_request`. */
  function PutOutcome(entries: map<Path, Node>, faulty: set<Path>, env: Env, path: Bytes, body: Bytes): Outcome {
    match ResolveSafePath(entries, env.cwd, path)
    case None => Outcome(HtmlErrorReply(400, BAD_REQUEST, INVALID_PATH, env.date), entries)
    case Some(p) =>
      if CanWrite(entries, faulty, p) then Outcome(JsonReply(PutJson(p), env.date), entries[p := File(body)])
      else Outcome(HtmlErrorReply(500, SERVER_ERROR, WRITE_FAILED, env.date), entries)
  }

  /** The response and file system after `handle_delete_request`. */
  function DeleteOutcome(entries: map<Path, Node>, faulty: set<Path>, env: Env, path: Bytes): Outcome {
    match ResolveSafePath(entries, env.cwd, path)
    case None => Outcome(HtmlErrorReply(400, BAD_REQUEST, INVALID_PATH, env.date), entries)
    case Some(p) =>
      if !IsFile(entries, p) then Outcome(HtmlErrorReply(404, NOT_FOUND, NO_SUCH_FILE, env.date), entries)
      else if p in faulty then Outcome(HtmlErrorReply(500, ERROR, DELETE_FAILED, env.date), entries)
      else Outcome(JsonReply(DeleteJson(p), env.date), entries - {p})
  }

  // ---------------------------------------------------------------- properties of the handlers

  /** A request for `/` is answered exactly like one for `/index.html`. */
  lemma GetRootIsIndex(entries: map<Path, Node>, faulty: set<Path>, env: Env)
    ensures GetReply(entries, faulty, env, "/") == GetReply(entries, faulty, env, "/index.html")
  {
    var index: Bytes := "/index.html";
    assert index != "/" by { assert |index| != 1; }
  }

  /**
   * GET serves the bytes of the resolved file, answers 404 when the path does
   * not resolve to a regular file, and 500 when the file cannot be read.
   */
  lemma GetCases(entries: map<Path, Node>, faulty: set<Path>, env: Env, path: Bytes)
    ensures var resolved := ResolveSafePath(entries, env.cwd, GetTarget(path));
      var reply := GetReply(entries, faulty, env, path);
      && (resolved.None? || !IsFile(entries, resolved.value) ==> reply == NotFoundReply(env.date))
      && (resolved.Some? && IsFile(entries, resolved.value) && resolved.value !in faulty ==>
            reply == FileReply(entries[resolved.value].contents, env.mime(resolved.value), env.date))
      && (resolved.Some? && IsFile(entries, resolved.value) && resolved.value in faulty ==>
            reply == HtmlErrorReply(500, SERVER_ERROR, READ_FAILED, env.date))
  {
  }

  /**
   * PUT never creates or removes a path: at most the resolved path changes,
   * and only when the write succeeds, in which case it holds the body.
   */
  lemma PutOnlyOverwrites(entries: map<Path, Node>, faulty: set<Path>, env: Env, path: Bytes, body: Bytes)
    ensures var o := PutOutcome(entries, faulty, env, path, body);
      && o.entries.Keys == entries.Keys
      && (forall q :: q in entries && o.entries[q] != entries[q] ==>
            Some(q) == ResolveSafePath(entries, env.cwd, path) && o.entries[q] == File(body))
      && (ResolveSafePath(entries, env.cwd, path).None? ==>
            o.reply == HtmlErrorReply(400, BAD_REQUEST, INVALID_PATH, env.date))
  {
  }

  /**
   * DELETE removes at most one path, the resolved one, and only a regular
   * file; a missing path is a 400 and a directory a 404.
   */
  lemma DeleteOnlyRemovesTarget(entries: map<Path, Node>, faulty: set<Path>, env: Env, path: Bytes)
    ensures var o := DeleteOutcome(entries, faulty, env, path);
      var resolved := ResolveSafePath(entries, env.cwd, path);
      && o.entries.Keys <= entries.Keys
      && (forall q :: q in o.entries ==> o.entries[q] == entries[q])
      && (o.entries != entries <==> resolved.Some? && IsFile(entries, resolved.value) && resolved.value !in faulty)
      && (o.entries != entries ==> o.entries == entries - {resolved.value})
      && (resolved.None? ==> o.reply == HtmlErrorReply(400, BAD_REQUEST, INVALID_PATH, env.date))
      && (resolved.Some? && !IsFile(entries, resolved.value) ==>
            o.reply == HtmlErrorReply(404, NOT_FOUND, NO_SUCH_FILE, env.date))
  {
    var resolved := ResolveSafePath(entries, env.cwd, path);
    if resolved.Some? && IsFile(entries, resolved.value) && resolved.value !in faulty {
      assert resolved.value !in entries - {resolved.value};
    }
  }

  /**
   * A body that opens with white space and `{` and that serde_json reads is
   * answered with its pretty-printed form, which goes into the page as it is:
   * unlike the other two pages, nothing in it is HTML-escaped.
   */
  lemma PostJsonReflected(spaces: Bytes, rest: Bytes, prettyJson: Bytes -> Option<Bytes>)
    requires forall i :: 0 <= i < |spaces| ==> IsSpace(spaces[i])
    requires prettyJson(spaces + "{" + rest).Some?
    ensures PostPage(spaces + "{" + rest, prettyJson)
      == JSON_PAGE_OPEN + prettyJson(spaces + "{" + rest).value + PAGE_CLOSE
  {
    var t: Bytes := "{" + rest;
    assert spaces + "{" + rest == spaces + t;
    TrimSpaces(spaces, t);
  }

  /**
   * A body that opens with white space and `{` but that serde_json refuses is
   * echoed HTML-escaped on the data page.
   */
  lemma PostDataPage(spaces: Bytes, rest: Bytes, prettyJson: Bytes -> Option<Bytes>)
    requires forall i :: 0 <= i < |spaces| ==> IsSpace(spaces[i])
    requires prettyJson(spaces + "{" + rest).None?
    ensures PostPage(spaces + "{" + rest, prettyJson)
      == DATA_PAGE_OPEN + EscapeText(spaces + "{" + rest) + PAGE_CLOSE
  {
    var t: Bytes := "{" + rest;
    assert spaces + "{" + rest == spaces + t;
    TrimSpaces(spaces, t);
  }

  /**
   * A body whose first byte after any leading white space is not `{` (or
   * that is all white space) is read as a form, whatever serde_json says.
   */
  lemma PostFormPage(spaces: Bytes, t: Bytes, prettyJson: Bytes -> Option<Bytes>)
    requires forall i :: 0 <= i < |spaces| ==> IsSpace(spaces[i])
    requires t == [] || (!IsSpace(t[0]) && t[0] != '{')
    ensures PostPage(spaces + t, prettyJson) == FORM_PAGE_OPEN + FormData(spaces + t) + PAGE_CLOSE
  {
    TrimSpaces(spaces, t);
  }

  /** A form line is escaped text and fixed separators. */
  lemma FormLineHasNoTags(pair: Bytes)
    ensures '<' !in FormLine(pair) && '>' !in FormLine(pair)
  {
    match SplitOnce(pair, '=') {
      case None =>
      case Some((key, value)) =>
        EscapeHasNoTags(key);
        EscapeHasNoTags(value);
    }
  }

  /** No `<` or `>` of the body reaches the form text. */
  lemma FormDataHasNoTags(body: Bytes)
    ensures '<' !in FormData(body) && '>' !in FormData(body)
  {
    var pairs := Split(body, '&');
    var lines := FormLines(pairs);
    forall i | 0 <= i < |lines|
      ensures '<' !in lines[i] && '>' !in lines[i]
    {
      FormLineHasNoTags(pairs[i]);
    }
    ConcatExcludes(lines, '<');
    ConcatExcludes(lines, '>');
  }

  /**
   * Unless serde_json reads it, the body cannot inject markup: the page is a
   * fixed opening, a text without `<` or `>`, and the fixed closing.
   */
  lemma PostPageHasNoBodyTags(body: Bytes, prettyJson: Bytes -> Option<Bytes>) returns (open: Bytes, middle: Bytes)
    requires !LooksLikeJson(body) || prettyJson(body).None?
    ensures open == DATA_PAGE_OPEN || open == FORM_PAGE_OPEN
    ensures PostPage(body, prettyJson) == open + middle + PAGE_CLOSE
    ensures '<' !in middle && '>' !in middle
  {
    if LooksLikeJson(body) {
      open, middle := DATA_PAGE_OPEN, EscapeText(body);
      EscapeHasNoTags(body);
    } else {
      open, middle := FORM_PAGE_OPEN, FormData(body);
      FormDataHasNoTags(body);
    }
  }

  // ---------------------------------------------------------------- writers

  method SendHtmlError(s: Stream, code: nat, title: Bytes, message: Bytes, date: Bytes)
    modifies s`written
    ensures s.written == old(s.written) + HtmlErrorReply(code, title, message, date)
  {
    var body := HtmlErrorBody(title, message);
    s.Write(Head(HtmlErrorLines(code, title, body, date)) + CRLF + body);
  }

  method SendJson(s: Stream, json: Bytes, date: Bytes)
    modifies s`written
    ensures s.written == old(s.written) + JsonReply(json, date)
  {
    s.Write(JsonReply(json, date));
  }

  method SendCookie(s: Stream, cookie: Bytes)
    modifies s`written
    ensures s.written == old(s.written) + CookieLine(cookie)
  {
    s.Write(SET_COOKIE + cookie + CRLF);
  }

  method Send404Page(s: Stream, date: Bytes)
    modifies s`written
    ensures s.written == old(s.written) + NotFoundReply(date)
  {
    SendHtmlError(s, 404, NOT_FOUND, PAGE_MISSING, date);
  }

  method HandleGetRequest(s: Stream, fs: FileSystem, env: Env, path: Bytes)
    modifies s`written
    ensures s.written == old(s.written) + GetReply(fs.entries, fs.faulty, env, path)
  {
    var target := if path == ROOT then INDEX else path;
    var resolved := ResolveSafePath(fs.entries, env.cwd, target);
    if resolved.Some? && IsFile(fs.entries, resolved.value) {
      var contents := fs.Read(resolved.value);
      match contents {
        case Some(data) =>
          ghost var before := s.written;
          var lines := FileLines(data, env.mime(resolved.value), env.date);
          var head := Head(lines) + CRLF;
          s.Write(head);
          s.Write(data);
          AppendAssociative(before, head, data);
          assert head + data == FileReply(data, env.mime(resolved.value), env.date);
        case None =>
          SendHtmlError(s, 500, SERVER_ERROR, READ_FAILED, env.date);
      }
    } else {
      Send404Page(s, env.date);
    }
  }

  method HandlePostRequest(s: Stream, env: Env, path: Bytes, body: Bytes)
    modifies s`written
    ensures s.written == old(s.written) + PageReply(PostPage(body, env.prettyJson), env.date)
  {
    var page;
    if LooksLikeJson(body) {
      match env.prettyJson(body) {
        case Some(pretty) => page := JsonPage(pretty);
        case None => page := DataPage(body);
      }
    } else {
      var form := BuildFormData(body);
      page := FormPage(form);
    }
    s.Write(PageReply(page, env.date));
  }

  method HandlePutRequest(s: Stream, fs: FileSystem, env: Env, path: Bytes, body: Bytes)
    modifies s`written, fs`entries
    ensures var o := PutOutcome(old(fs.entries), fs.faulty, env, path, body);
      s.written == old(s.written) + o.reply && fs.entries == o.entries
  {
    var resolved := ResolveSafePath(fs.entries, env.cwd, path);
    match resolved {
      case Some(p) =>
        var ok := fs.Write(p, body);
        if !ok {
          SendHtmlError(s, 500, SERVER_ERROR, WRITE_FAILED, env.date);
        } else {
          SendJson(s, PutJson(p), env.date);
        }
      case None =>
        SendHtmlError(s, 400, BAD_REQUEST, INVALID_PATH, env.date);
    }
  }

  method HandleDeleteRequest(s: Stream, fs: FileSystem, env: Env, path: Bytes)
    modifies s`written, fs`entries
    ensures var o := DeleteOutcome(old(fs.entries), fs.faulty, env, path);
      s.written == old(s.written) + o.reply && fs.entries == o.entries
  {
    var resolved := ResolveSafePath(fs.entries, env.cwd, path);
    match resolved {
      case Some(p) =>
        if IsFile(fs.entries, p) {
          var ok := fs.Remove(p);
          if ok {
            SendJson(s, DeleteJson(p), env.date);
          } else {
            SendHtmlError(s, 500, ERROR, DELETE_FAILED, env.date);
          }
        } else {
          SendHtmlError(s, 404, NOT_FOUND, NO_SUCH_FILE, env.date);
        }
      case None =>
        SendHtmlError(s, 400, BAD_REQUEST, INVALID_PATH, env.date);
    }
  }
}
