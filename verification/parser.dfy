/**
 * `parse_request`: reads one HTTP/1.1 request from a connection. The head is
 * read in chunks until the first blank line (CR LF CR LF), then decoded
 * (request line, headers); then the body is read up to the length the
 * `Content-Length` header announces. Oversized requests and bodies of the
 * wrong length are answered with an HTML error before the error is returned.
 *
 * The functions below say what one call does to a connection whose pending
 * data is a given sequence of chunks; the method `ParseRequest` performs the
 * reads and writes and is proved to agree with them.
 */
module Parser {
  import opened Wrappers
  import opened Bytes
  import opened Streams
  import opened Response

  /** Slack the head may take on top of the body limit before 413 is sent. */
  const HEADER_ALLOWANCE: nat := 8192

  const CONTENT_LENGTH_KEY: Bytes := "content-length"

  /** The request line and headers of a request. */
  datatype RequestHead = RequestHead(verb: Bytes, path: Bytes, headers: map<Bytes, Bytes>)

  /** The `(method, path, headers, body)` tuple `parse_request` returns. */
  datatype Request = Request(verb: Bytes, path: Bytes, headers: map<Bytes, Bytes>, body: Bytes)

  /**
   * Why parsing failed. The server itself returns the unit error; the reason
   * is kept here so that properties can speak about each failure path.
   */
  datatype ParseError =
    | PeerClosed      // the peer closed before the head was complete
    | ReadError       // a read failed
    | TooLarge        // the head or the body grew past its limit (413 sent)
    | IncompleteBody  // the body length differs from Content-Length (400 sent)

  /**
   * What one call does: its result and how many chunks it takes off the
   * connection. What it writes back follows from the result (`ErrorReply`).
   */
  datatype Parse = Parse(outcome: Result<Request, ParseError>, consumed: nat)

  // ---------------------------------------------------------------- the end of the head

  predicate TerminatorAt(s: Bytes, i: nat) {
    i + 4 <= |s| && s[i] == CR && s[i + 1] == LF && s[i + 2] == CR && s[i + 3] == LF
  }

  /** `buffer.windows(4).position(|w| w == b"\r\n\r\n")`. */
  function FindTerminator(s: Bytes): (r: Option<nat>)
    ensures r.Some? ==> TerminatorAt(s, r.value)
    decreases |s|
  {
    if |s| < 4 then None
    else if TerminatorAt(s, 0) then Some(0)
    else match FindTerminator(s[1..])
      case None => None
      case Some(i) => Some(i + 1)
  }

  /** `FindTerminator` finds the first terminator, and finds one whenever there is one. */
  lemma {:induction false} FindTerminatorFirst(s: Bytes)
    ensures FindTerminator(s).Some? ==> forall j :: 0 <= j < FindTerminator(s).value ==> !TerminatorAt(s, j)
    ensures FindTerminator(s).None? <==> forall j :: 0 <= j < |s| ==> !TerminatorAt(s, j)
    decreases |s|
  {
    if |s| >= 4 && !TerminatorAt(s, 0) {
      FindTerminatorFirst(s[1..]);
      assert forall j :: 1 <= j < |s| ==> (TerminatorAt(s, j) <==> TerminatorAt(s[1..], j - 1));
    }
  }

  /** Data arriving after the first terminator does not move it. */
  lemma FindTerminatorAppend(a: Bytes, b: Bytes)
    requires FindTerminator(a).Some?
    ensures FindTerminator(a + b) == FindTerminator(a)
  {
    var i := FindTerminator(a).value;
    FindTerminatorFirst(a);
    FindTerminatorFirst(a + b);
    assert forall j :: 0 <= j <= i ==> (TerminatorAt(a + b, j) <==> TerminatorAt(a, j));
  }

  /** A prefix of bytes without a terminator has none either. */
  lemma FindTerminatorNone(a: Bytes, b: Bytes)
    requires FindTerminator(a + b).None?
    ensures FindTerminator(a).None?
  {
    FindTerminatorFirst(a);
    FindTerminatorFirst(a + b);
    assert forall j :: 0 <= j < |a| ==> (TerminatorAt(a, j) ==> TerminatorAt(a + b, j));
  }

  // ---------------------------------------------------------------- decoding the head

  /** The method (or empty) and the path (or `/`) from the request line's words. */
  function RequestLine(line: Bytes): (Bytes, Bytes) {
    var words := Words(line);
    (if |words| > 0 then words[0] else [], if |words| > 1 then words[1] else ROOT)
  }

  /** A header line split at its first `:`, the name trimmed and lower-cased, the value trimmed. */
  function HeaderField(line: Bytes): Option<(Bytes, Bytes)> {
    match SplitOnce(line, ':')
    case None => None
    case Some((key, value)) => Some((ToLower(Trim(key)), Trim(value)))
  }

  /** `HashMap::insert` of a line's field, if it has one. */
  function Put(headers: map<Bytes, Bytes>, field: Option<(Bytes, Bytes)>): map<Bytes, Bytes> {
    if field.None? then headers else headers[field.value.0 := field.value.1]
  }

  /** The map built by inserting the fields in order: a later field overwrites an earlier one. */
  function Insert(fields: seq<Option<(Bytes, Bytes)>>): map<Bytes, Bytes> {
    if fields == [] then map[] else Put(Insert(fields[..|fields| - 1]), fields[|fields| - 1])
  }

  lemma InsertStep(fields: seq<Option<(Bytes, Bytes)>>, i: nat)
    requires i < |fields|
    ensures Insert(fields[..i + 1]) == Put(Insert(fields[..i]), fields[i])
  {
    assert fields[..i + 1][..i] == fields[..i];
  }

  function Fields(lines: seq<Bytes>): (r: seq<Option<(Bytes, Bytes)>>)
    ensures |r| == |lines|
  {
    seq(|lines|, i requires 0 <= i < |lines| => HeaderField(lines[i]))
  }

  /** The header map of a head whose header lines are `lines`. */
  function HeadersOf(lines: seq<Bytes>): map<Bytes, Bytes> {
    Insert(Fields(lines))
  }

  /** The head, from its first byte through the blank line, decoded. */
  function DecodeHead(head: Bytes): RequestHead
    requires head != []
  {
    var lines := Lines(head);
    var (verb, path) := RequestLine(lines[0]);
    RequestHead(verb, path, HeadersOf(lines[1..]))
  }

  /** `content-length` parsed as a `usize`, or 0 when it is absent or does not parse. */
  function ContentLength(headers: map<Bytes, Bytes>): nat {
    if CONTENT_LENGTH_KEY in headers then ParseUsize(headers[CONTENT_LENGTH_KEY]).GetOr(0) else 0
  }

  // ---------------------------------------------------------------- what one call does

  const PAYLOAD_TOO_LARGE: Bytes := "Payload Too Large"
  const TOO_LARGE_MESSAGE: Bytes := "The request is too large."
  const INCOMPLETE_MESSAGE: Bytes := "Incomplete body"

  function TooLargeReply(date: Bytes): Bytes {
    HtmlErrorReply(413, PAYLOAD_TOO_LARGE, TOO_LARGE_MESSAGE, date)
  }

  function IncompleteReply(date: Bytes): Bytes {
    HtmlErrorReply(400, BAD_REQUEST, INCOMPLETE_MESSAGE, date)
  }

  /** What the call writes before returning: only the two checked errors write anything. */
  function ErrorReply(outcome: Result<Request, ParseError>, date: Bytes): Bytes {
    match outcome
    case Err(TooLarge) => TooLargeReply(date)
    case Err(IncompleteBody) => IncompleteReply(date)
    case _ => []
  }

  function Shift(p: Parse, k: nat): Parse {
    p.(consumed := p.consumed + k)
  }

  /** The end of the call once the body loop stops: the length check. */
  function Complete(head: RequestHead, contentLength: nat, body: Bytes): (p: Parse)
    ensures p.consumed == 0
    ensures p.outcome.Ok? <==> |body| == contentLength
    ensures !p.outcome.Ok? ==> p.outcome == Err(IncompleteBody)
    ensures p.outcome.Ok? ==> p.outcome.value == Request(head.verb, head.path, head.headers, Utf8OrEmpty(body))
  {
    if |body| != contentLength then Parse(Err(IncompleteBody), 0)
    else Parse(Ok(Request(head.verb, head.path, head.headers, Utf8OrEmpty(body))), 0)
  }

  /** The body loop, with `body` read so far and `chunks` still pending. */
  function ReadBody(head: RequestHead, contentLength: nat, body: Bytes, chunks: seq<Chunk>, end: End,
                    maxBodySize: nat): (p: Parse)
    ensures p.consumed <= |chunks|
    decreases |chunks|
  {
    if |body| >= contentLength then Complete(head, contentLength, body)
    else if chunks == [] then
      if end == Failed then Parse(Err(ReadError), 0) else Complete(head, contentLength, body)
    else
      var more := body + chunks[0];
      if |more| > maxBodySize then Parse(Err(TooLarge), 1)
      else Shift(ReadBody(head, contentLength, more, chunks[1..], end, maxBodySize), 1)
  }

  /** Once the head is complete: decode it and read the body. */
  function Finish(buffer: Bytes, chunks: seq<Chunk>, end: End, maxBodySize: nat): (p: Parse)
    requires FindTerminator(buffer).Some?
    ensures p.consumed <= |chunks|
  {
    var headerEnd := FindTerminator(buffer).value + 4;
    var head := DecodeHead(buffer[..headerEnd]);
    ReadBody(head, ContentLength(head.headers), buffer[headerEnd..], chunks, end, maxBodySize)
  }

  /** The head loop, with `buffer` read so far and `chunks` still pending. */
  function ReadHead(buffer: Bytes, chunks: seq<Chunk>, end: End, maxBodySize: nat): (p: Parse)
    ensures p.consumed <= |chunks|
    decreases |chunks|
  {
    if FindTerminator(buffer).Some? then Finish(buffer, chunks, end, maxBodySize)
    else if chunks == [] then Parse(Err(if end == Eof then PeerClosed else ReadError), 0)
    else
      var more := buffer + chunks[0];
      if |more| > maxBodySize + HEADER_ALLOWANCE then Parse(Err(TooLarge), 1)
      else Shift(ReadHead(more, chunks[1..], end, maxBodySize), 1)
  }

  /** One call of `parse_request` on a connection with `chunks` pending, then `end`. */
  function ParseSpec(chunks: seq<Chunk>, end: End, maxBodySize: nat): (p: Parse)
    ensures p.consumed <= |chunks|
  {
    ReadHead([], chunks, end, maxBodySize)
  }

  // ---------------------------------------------------------------- the method

  /**
   * `parse_request(stream, max_body_size)`. Every 413 and 400 is written
   * before the error is returned; a failed read and a close before the head
   * is complete return the error silently.
   */
  method ParseRequest(s: Stream, maxBodySize: nat, date: Bytes) returns (r: Result<Request, ParseError>)
    modifies s`incoming, s`written
    ensures var p := ParseSpec(old(s.incoming), s.end, maxBodySize);
      r == p.outcome && s.written == old(s.written) + ErrorReply(p.outcome, date) && s.incoming == old(s.incoming)[p.consumed..]
  {
    var buffer, failure := ReceiveHead(s, maxBodySize, date);
    if failure.Some? {
      return Err(failure.value);
    }
    var headerEnd := FindTerminator(buffer).value + 4;
    var verb, path, headers := DecodeRequestHead(buffer[..headerEnd]);
    var contentLength := ContentLength(headers);
    r := ReceiveBody(s, RequestHead(verb, path, headers), contentLength, buffer[headerEnd..], maxBodySize, date);
  }

  /**
   * The head loop of `parse_request`: reads until the buffer holds CR LF CR LF,
   * or fails (and has then written whatever the failure writes).
   */
  method ReceiveHead(s: Stream, maxBodySize: nat, date: Bytes) returns (buffer: Bytes, failure: Option<ParseError>)
    modifies s`incoming, s`written
    ensures var p := ParseSpec(old(s.incoming), s.end, maxBodySize);
      failure.Some? ==>
        && p.outcome == Err(failure.value)
        && s.written == old(s.written) + ErrorReply(p.outcome, date)
        && s.incoming == old(s.incoming)[p.consumed..]
    ensures failure.None? ==>
      && FindTerminator(buffer).Some?
      && s.written == old(s.written)
      && |s.incoming| <= |old(s.incoming)|
      && s.incoming == old(s.incoming)[|old(s.incoming)| - |s.incoming|..]
      && ParseSpec(old(s.incoming), s.end, maxBodySize)
         == Shift(Finish(buffer, s.incoming, s.end, maxBodySize), |old(s.incoming)| - |s.incoming|)
  {
    ghost var chunks := s.incoming;
    ghost var spec := ParseSpec(chunks, s.end, maxBodySize);
    ghost var k := 0;
    buffer := [];
    while FindTerminator(buffer).None?
      invariant k <= |chunks| && s.incoming == chunks[k..]
      invariant s.written == old(s.written)
      invariant spec == Shift(ReadHead(buffer, chunks[k..], s.end, maxBodySize), k)
      decreases |s.incoming|
    {
      var read := s.Read();
      match read {
        case Broken =>
          return buffer, Some(ReadError);
        case Closed =>
          return buffer, Some(PeerClosed);
        case Data(chunk) =>
          assert chunks[k..][1..] == chunks[k + 1..];
          buffer := buffer + chunk;
          k := k + 1;
          if |buffer| > maxBodySize + HEADER_ALLOWANCE {
            assert spec == Parse(Err(TooLarge), k);
            SendHtmlError(s, 413, PAYLOAD_TOO_LARGE, TOO_LARGE_MESSAGE, date);
            return buffer, Some(TooLarge);
          }
      }
    }
    failure := None;
  }

  /** The request line and the header loop of `parse_request`. */
  method DecodeRequestHead(head: Bytes) returns (verb: Bytes, path: Bytes, headers: map<Bytes, Bytes>)
    requires head != []
    ensures RequestHead(verb, path, headers) == DecodeHead(head)
  {
    var lines := Lines(head);
    verb, path := RequestLine(lines[0]).0, RequestLine(lines[0]).1;
    ghost var fields := Fields(lines[1..]);
    headers := map[];
    for i := 1 to |lines|
      invariant headers == Insert(fields[..i - 1])
    {
      var field := HeaderField(lines[i]);
      if field.Some? {
        headers := headers[field.value.0 := field.value.1];
      }
      assert fields[i - 1] == field;
      InsertStep(fields, i - 1);
    }
    assert fields[..|lines| - 1] == fields;
  }

  /** The body loop of `parse_request` and the final length check. */
  method ReceiveBody(s: Stream, head: RequestHead, contentLength: nat, body: Bytes, maxBodySize: nat, date: Bytes)
    returns (r: Result<Request, ParseError>)
    modifies s`incoming, s`written
    ensures var p := ReadBody(head, contentLength, body, old(s.incoming), s.end, maxBodySize);
      r == p.outcome && s.written == old(s.written) + ErrorReply(p.outcome, date) && s.incoming == old(s.incoming)[p.consumed..]
  {
    ghost var chunks := s.incoming;
    ghost var spec := ReadBody(head, contentLength, body, chunks, s.end, maxBodySize);
    ghost var k := 0;
    var received := body;
    while |received| < contentLength
      invariant k <= |chunks| && s.incoming == chunks[k..]
      invariant s.written == old(s.written)
      invariant spec == Shift(ReadBody(head, contentLength, received, chunks[k..], s.end, maxBodySize), k)
      decreases |s.incoming|
    {
      var read := s.Read();
      match read {
        case Broken =>
          return Err(ReadError);
        case Closed =>
          break;
        case Data(chunk) =>
          assert chunks[k..][1..] == chunks[k + 1..];
          received := received + chunk;
          k := k + 1;
          if |received| > maxBodySize {
            SendHtmlError(s, 413, PAYLOAD_TOO_LARGE, TOO_LARGE_MESSAGE, date);
            return Err(TooLarge);
          }
      }
    }
    if |received| != contentLength {
      SendHtmlError(s, 400, BAD_REQUEST, INCOMPLETE_MESSAGE, date);
      return Err(IncompleteBody);
    }
    r := Ok(Request(head.verb, head.path, head.headers, Utf8OrEmpty(received)));
  }
}
