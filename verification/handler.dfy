/**
 * `handle_connection`: one request per connection. The request is parsed
 * with a 10 MiB body limit, routed on its upper-cased method and exact path,
 * answered by the matching handler and followed by a session cookie when the
 * client sent none; a request that fails to parse is answered with 400.
 */
module Handler {
  import opened Wrappers
  import opened Bytes
  import opened Streams
  import opened Files
  import opened Utils
  import opened Response
  import opened Parser
  import opened ParserProperties

  const MAX_BODY_SIZE: nat := 10 * 1024 * 1024

  const GET: Bytes := "GET"
  const POST: Bytes := "POST"
  const PUT: Bytes := "PUT"
  const DELETE: Bytes := "DELETE"
  const OPTIONS: Bytes := "OPTIONS"
  const STATUS_PATH: Bytes := "/api/status"
  const UPLOAD_PATH: Bytes := "/upload"
  const CONTENT_TYPE_KEY: Bytes := "content-type"
  const MULTIPART: Bytes := "multipart/form-data"
  const COOKIE_KEY: Bytes := "cookie"
  const SESSION_COOKIE: Bytes := "session_id=abc123; HttpOnly; Path=/"
  const METHOD_NOT_ALLOWED: Bytes := "Method Not Allowed"
  const ONLY_ALLOWED: Bytes := "Only GET, POST, PUT, DELETE, " + "OPTIONS are allowed."
  const PARSE_FAILED: Bytes := "Error parsing the request."

  const ALLOWED_METHODS: Bytes := "GET, POST, PUT, DELETE, OPTIONS"
  const NO_CONTENT: Bytes := "HTTP/1.1 204 No Content"
  const ALLOW: Bytes := "Allow: "
  const ALLOW_ORIGIN: Bytes := "Access-Control-Allow-Origin: *"
  const ALLOW_METHODS: Bytes := "Access-Control-Allow-Methods: "
  const ALLOW_HEADERS: Bytes := "Access-Control-Allow-Headers: "
  const CONTENT_TYPE_NAME: Bytes := "Content-Type"
  /** The fixed answer to OPTIONS: 204 with the allowed methods and the CORS headers. */
  const OPTIONS_REPLY: Bytes :=
    NO_CONTENT + CRLF + ALLOW + ALLOWED_METHODS + CRLF + ALLOW_ORIGIN + CRLF
    + ALLOW_METHODS + ALLOWED_METHODS + CRLF + ALLOW_HEADERS + CONTENT_TYPE_NAME + CRLF + CRLF

  /** The arms of the routing `match`. */
  datatype Route = Status | Upload | Get | Post | Put | Delete | Options | NotAllowed

  /** `content-type` is present and starts with `multipart/form-data`. */
  predicate Multipart(headers: map<Bytes, Bytes>) {
    CONTENT_TYPE_KEY in headers && MULTIPART <= headers[CONTENT_TYPE_KEY]
  }

  /** The arm `match (method.to_uppercase().as_str(), path.as_str())` takes; the first that matches wins. */
  function RouteOf(verb: Bytes, path: Bytes, headers: map<Bytes, Bytes>): Route {
    var m := ToUpper(verb);
    if m == GET && path == STATUS_PATH then Status
    else if m == POST && path == UPLOAD_PATH && Multipart(headers) then Upload
    else if m == GET then Get
    else if m == POST then Post
    else if m == PUT then Put
    else if m == DELETE then Delete
    else if m == OPTIONS then Options
    else NotAllowed
  }

  /** What the chosen arm writes, and the file system it leaves. */
  function RouteReply(route: Route, req: Request, entries: map<Path, Node>, faulty: set<Path>, env: Env): Outcome {
    match route
    case Status => Outcome(JsonReply(StatusJson(env.clock), env.date), entries)
    case Upload => Outcome(JsonReply(UPLOAD_JSON, env.date), entries)
    case Get => Outcome(GetReply(entries, faulty, env, req.path), entries)
    case Post => Outcome(PageReply(PostPage(req.body, env.prettyJson), env.date), entries)
    case Put => PutOutcome(entries, faulty, env, req.path, req.body)
    case Delete => DeleteOutcome(entries, faulty, env, req.path)
    case Options => Outcome(OPTIONS_REPLY, entries)
    case NotAllowed => Outcome(HtmlErrorReply(405, METHOD_NOT_ALLOWED, ONLY_ALLOWED, env.date), entries)
  }

  function ParseFailedReply(date: Bytes): Bytes {
    HtmlErrorReply(400, BAD_REQUEST, PARSE_FAILED, date)
  }

  /** The session cookie, unless the request carried a `cookie` header. */
  function CookieReply(headers: map<Bytes, Bytes>): Bytes {
    if COOKIE_KEY in headers then [] else CookieLine(SESSION_COOKIE)
  }

  /** What `handle_connection` writes after `parse_request` has returned `outcome`. */
  function Respond(outcome: Result<Request, ParseError>, entries: map<Path, Node>, faulty: set<Path>, env: Env): Outcome {
    match outcome
    case Err(_) => Outcome(ParseFailedReply(env.date), entries)
    case Ok(req) =>
      var routed := RouteReply(RouteOf(req.verb, req.path, req.headers), req, entries, faulty, env);
      Outcome(routed.reply + CookieReply(req.headers), routed.entries)
  }

  /**
   * One whole `handle_connection` on a connection with `chunks` pending: what
   * the parser writes, then what the handler writes.
   */
  function Serve(chunks: seq<Chunk>, end: End, entries: map<Path, Node>, faulty: set<Path>, env: Env): Outcome {
    var p := ParseSpec(chunks, end, MAX_BODY_SIZE);
    var o := Respond(p.outcome, entries, faulty, env);
    Outcome(ErrorReply(p.outcome, env.date) + o.reply, o.entries)
  }

  /** `handle_connection(stream)`. */
  method HandleConnection(s: Stream, fs: FileSystem, env: Env)
    modifies s`incoming, s`written, fs`entries
    ensures var p := ParseSpec(old(s.incoming), s.end, MAX_BODY_SIZE);
      var o := Serve(old(s.incoming), s.end, old(fs.entries), fs.faulty, env);
      && s.written == old(s.written) + o.reply
      && fs.entries == o.entries
      && s.incoming == old(s.incoming)[p.consumed..]
  {
    ghost var before, chunks, entries := s.written, s.incoming, fs.entries;
    var parsed := ParseRequest(s, MAX_BODY_SIZE, env.date);
    ghost var afterParse := s.written;
    ghost var o := Respond(parsed, entries, fs.faulty, env);
    match parsed {
      case Ok(req) =>
        ghost var routed := RouteReply(RouteOf(req.verb, req.path, req.headers), req, entries, fs.faulty, env);
        assert o == Outcome(routed.reply + CookieReply(req.headers), routed.entries);
        Dispatch(s, fs, env, req, RouteOf(req.verb, req.path, req.headers));
        ghost var afterRoute := s.written;
        if COOKIE_KEY !in req.headers {
          SendCookie(s, SESSION_COOKIE);
        }
        AppendAssociative(afterParse, routed.reply, CookieReply(req.headers));
      case Err(_) =>
        SendHtmlError(s, 400, BAD_REQUEST, PARSE_FAILED, env.date);
    }
    assert s.written == afterParse + o.reply && fs.entries == o.entries;
    AppendAssociative(before, afterParse[|before|..], o.reply);
  }

  /** The body of the routing `match`: runs the arm `route` for `req`. */
  method Dispatch(s: Stream, fs: FileSystem, env: Env, req: Request, route: Route)
    modifies s`written, fs`entries
    ensures var o := RouteReply(route, req, old(fs.entries), fs.faulty, env);
      s.written == old(s.written) + o.reply && fs.entries == o.entries
  {
    match route {
      case Status => SendJson(s, StatusJson(env.clock), env.date);
      case Upload => SendJson(s, UPLOAD_JSON, env.date);
      case Get => HandleGetRequest(s, fs, env, req.path);
      case Post => HandlePostRequest(s, env, req.path, req.body);
      case Put => HandlePutRequest(s, fs, env, req.path, req.body);
      case Delete => HandleDeleteRequest(s, fs, env, req.path);
      case Options => s.Write(OPTIONS_REPLY);
      case NotAllowed => SendHtmlError(s, 405, METHOD_NOT_ALLOWED, ONLY_ALLOWED, env.date);
    }
  }

  // ---------------------------------------------------------------- the routing table

  /** Each arm, and the exact condition under which it is taken. */
  lemma RouteTable(verb: Bytes, path: Bytes, headers: map<Bytes, Bytes>)
    ensures var m, r := ToUpper(verb), RouteOf(verb, path, headers);
      && (r == Status <==> m == GET && path == STATUS_PATH)
      && (r == Upload <==> m == POST && path == UPLOAD_PATH && Multipart(headers))
      && (r == Get <==> m == GET && path != STATUS_PATH)
      && (r == Post <==> m == POST && !(path == UPLOAD_PATH && Multipart(headers)))
      && (r == Put <==> m == PUT)
      && (r == Delete <==> m == DELETE)
      && (r == Options <==> m == OPTIONS)
      && (r == NotAllowed <==> m !in {GET, POST, PUT, DELETE, OPTIONS})
  {
    assert GET[0] == 'G' && POST[0] == 'P' && PUT[0] == 'P' && DELETE[0] == 'D' && OPTIONS[0] == 'O';
    assert POST[1] == 'O' && PUT[1] == 'U';
  }

  /** The method is matched whatever its case; `get` is routed like `GET`. */
  lemma MethodCaseIgnored(verb: Bytes, path: Bytes, headers: map<Bytes, Bytes>)
    ensures RouteOf(ToLower(verb), path, headers) == RouteOf(verb, path, headers)
  {
    UpperIgnoresCase(verb);
  }

  /** The path is matched exactly: `/API/STATUS` is an ordinary GET. */
  lemma PathCaseMatters(headers: map<Bytes, Bytes>)
    ensures RouteOf(GET, "/API/STATUS", headers) == Get
  {
    var upper: Bytes := "/API/STATUS";
    assert upper[1] != STATUS_PATH[1];
    assert ToUpper(GET) == GET;
  }

  // ---------------------------------------------------------------- whole connections

  /**
   * A well-formed request within the limits is routed and answered, then
   * followed by the session cookie exactly when it carried no `cookie`
   * header; the parser writes nothing.
   */
  lemma ServeAccepted(chunks: seq<Chunk>, end: End, entries: map<Path, Node>, faulty: set<Path>, env: Env,
                      head: Bytes, body: Bytes)
    requires Flatten(chunks) == head + body
    requires |head| >= 4 && FindTerminator(head) == Some(|head| - 4)
    requires |body| == ContentLength(DecodeHead(head).headers)
    requires |body| <= MAX_BODY_SIZE && HeadFits(head, body, MAX_BODY_SIZE)
    ensures var h := DecodeHead(head);
      var req := Request(h.verb, h.path, h.headers, Utf8OrEmpty(body));
      var routed := RouteReply(RouteOf(h.verb, h.path, h.headers), req, entries, faulty, env);
      var o := Serve(chunks, end, entries, faulty, env);
      && o.entries == routed.entries
      && (COOKIE_KEY in h.headers ==> o.reply == routed.reply)
      && (COOKIE_KEY !in h.headers ==> o.reply == routed.reply + CookieLine(SESSION_COOKIE))
  {
    AcceptsWellFormed(chunks, end, MAX_BODY_SIZE, head, body);
    var h := DecodeHead(head);
    var req := Request(h.verb, h.path, h.headers, Utf8OrEmpty(body));
    var routed := RouteReply(RouteOf(h.verb, h.path, h.headers), req, entries, faulty, env);
    EmptyAppend(routed.reply + CookieReply(h.headers));
    assert routed.reply + [] == routed.reply;
  }

  /** A failed parse: whatever the parser wrote, then the handler's 400; no file changes. */
  lemma ServeRejected(chunks: seq<Chunk>, end: End, entries: map<Path, Node>, faulty: set<Path>, env: Env, e: ParseError)
    requires ParseSpec(chunks, end, MAX_BODY_SIZE).outcome == Err(e)
    ensures Serve(chunks, end, entries, faulty, env)
         == Outcome(ErrorReply(Err(e), env.date) + ParseFailedReply(env.date), entries)
  {
  }

  /**
   * A head that outgrows its allowance is answered twice: the parser's 413,
   * then the handler's 400 for the failed parse.
   */
  lemma ServeOversizedHead(chunks: seq<Chunk>, end: End, entries: map<Path, Node>, faulty: set<Path>, env: Env)
    requires |Flatten(chunks)| > MAX_BODY_SIZE + HEADER_ALLOWANCE
    requires FindTerminator(Flatten(chunks)[..MAX_BODY_SIZE + HEADER_ALLOWANCE]).None?
    ensures Serve(chunks, end, entries, faulty, env)
         == Outcome(TooLargeReply(env.date) + ParseFailedReply(env.date), entries)
  {
    RejectsOversizedHead(chunks, end, MAX_BODY_SIZE);
    ServeRejected(chunks, end, entries, faulty, env, TooLarge);
  }

  /**
   * A body cut short by the peer is answered twice: the parser's 400
   * "Incomplete body", then the handler's 400 for the failed parse.
   */
  lemma ServeTruncatedBody(chunks: seq<Chunk>, entries: map<Path, Node>, faulty: set<Path>, env: Env,
                           head: Bytes, body: Bytes)
    requires Flatten(chunks) == head + body
    requires |head| >= 4 && FindTerminator(head) == Some(|head| - 4)
    requires |body| < ContentLength(DecodeHead(head).headers)
    requires |body| <= MAX_BODY_SIZE && HeadFits(head, body, MAX_BODY_SIZE)
    ensures Serve(chunks, Eof, entries, faulty, env)
         == Outcome(IncompleteReply(env.date) + ParseFailedReply(env.date), entries)
  {
    RejectsTruncatedBody(chunks, Eof, MAX_BODY_SIZE, head, body);
    ServeIncomplete(chunks, entries, faulty, env);
  }

  lemma ServeIncomplete(chunks: seq<Chunk>, entries: map<Path, Node>, faulty: set<Path>, env: Env)
    requires ParseSpec(chunks, Eof, MAX_BODY_SIZE).outcome == Err(IncompleteBody)
    ensures Serve(chunks, Eof, entries, faulty, env)
         == Outcome(IncompleteReply(env.date) + ParseFailedReply(env.date), entries)
  {
    ServeRejected(chunks, Eof, entries, faulty, env, IncompleteBody);
  }

  /** A peer that closes or fails before the blank line gets the handler's 400 alone. */
  lemma ServeUnfinishedHead(chunks: seq<Chunk>, end: End, entries: map<Path, Node>, faulty: set<Path>, env: Env)
    requires FindTerminator(Flatten(chunks)).None?
    requires |Flatten(chunks)| <= MAX_BODY_SIZE + HEADER_ALLOWANCE
    ensures Serve(chunks, end, entries, faulty, env) == Outcome(ParseFailedReply(env.date), entries)
  {
    SilentOnUnfinishedHead(chunks, end, MAX_BODY_SIZE);
    var e := ParseSpec(chunks, end, MAX_BODY_SIZE).outcome.error;
    ServeRejected(chunks, end, entries, faulty, env, e);
    EmptyAppend(ParseFailedReply(env.date));
  }

  /** Only a parsed PUT or DELETE can change the file system. */
  lemma OnlyPutAndDeleteWrite(outcome: Result<Request, ParseError>, entries: map<Path, Node>, faulty: set<Path>, env: Env)
    requires Respond(outcome, entries, faulty, env).entries != entries
    ensures outcome.Ok?
    ensures RouteOf(outcome.value.verb, outcome.value.path, outcome.value.headers) in {Put, Delete}
  {
  }

  /**
   * A successful PUT is visible to the next GET of the same path: it is served
   * the uploaded body, with the MIME type of the resolved file.
   */
  lemma GetAfterPut(put: Request, get: Request, entries: map<Path, Node>, faulty: set<Path>, env: Env)
    requires ToUpper(put.verb) == PUT && ToUpper(get.verb) == GET
    requires get.path == put.path && put.path != ROOT && put.path != STATUS_PATH
    requires ResolveSafePath(entries, env.cwd, put.path).Some?
    requires CanWrite(entries, faulty, ResolveSafePath(entries, env.cwd, put.path).value)
    ensures var p := ResolveSafePath(entries, env.cwd, put.path).value;
      var after := Respond(Ok(put), entries, faulty, env).entries;
      Respond(Ok(get), after, faulty, env).reply
      == FileReply(put.body, env.mime(p), env.date) + CookieReply(get.headers)
  {
    var p := ResolveSafePath(entries, env.cwd, put.path).value;
    var after := entries[p := File(put.body)];
    assert RouteOf(put.verb, put.path, put.headers) == Put;
    assert Respond(Ok(put), entries, faulty, env).entries == after;
    assert ResolveSafePath(after, env.cwd, GetTarget(get.path)) == Some(p);
    WriteThenRead(entries, faulty, p, put.body, p);
    assert RouteOf(get.verb, get.path, get.headers) == Get;
  }
}
