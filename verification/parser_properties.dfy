/**
 * What `parse_request` guarantees, stated over the bytes the peer sends
 * rather than over the way they happen to be split into reads.
 */
module ParserProperties {
  import opened Wrappers
  import opened Bytes
  import opened Streams
  import opened Parser

  /** The bytes carried by a sequence of reads, in order. */
  function Flatten(chunks: seq<Chunk>): (r: Bytes)
    ensures |r| >= |chunks|
  {
    if chunks == [] then [] else chunks[0] + Flatten(chunks[1..])
  }

  lemma FlattenStep(chunks: seq<Chunk>, n: nat)
    requires n < |chunks|
    ensures Flatten(chunks[..n + 1]) == chunks[0] + Flatten(chunks[1..][..n])
  {
    assert chunks[..n + 1][0] == chunks[0];
    assert chunks[..n + 1][1..] == chunks[1..][..n];
  }

  // ---------------------------------------------------------------- what a success is made of

  lemma {:induction false} ReadBodyOk(head: RequestHead, contentLength: nat, body: Bytes, chunks: seq<Chunk>,
                                      end: End, maxBodySize: nat)
    requires ReadBody(head, contentLength, body, chunks, end, maxBodySize).outcome.Ok?
    ensures var p := ReadBody(head, contentLength, body, chunks, end, maxBodySize);
      var data := body + Flatten(chunks[..p.consumed]);
      && |data| == contentLength
      && p.outcome.value == Request(head.verb, head.path, head.headers, Utf8OrEmpty(data))
    decreases |chunks|
  {
    var p := ReadBody(head, contentLength, body, chunks, end, maxBodySize);
    if |body| >= contentLength || chunks == [] {
      assert chunks[..0] == [];
      assert body + Flatten(chunks[..p.consumed]) == body;
    } else {
      var more := body + chunks[0];
      var q := ReadBody(head, contentLength, more, chunks[1..], end, maxBodySize);
      ReadBodyOk(head, contentLength, more, chunks[1..], end, maxBodySize);
      FlattenStep(chunks, q.consumed);
      AppendAssociative(body, chunks[0], Flatten(chunks[1..][..q.consumed]));
    }
  }

  /**
   * `data` is a head that ends at its first CR LF CR LF, then exactly
   * Content-Length body bytes, and `r` is that head decoded with that body.
   */
  predicate Explains(data: Bytes, r: Request) {
    && FindTerminator(data).Some?
    && var headerEnd := FindTerminator(data).value + 4;
       var head := DecodeHead(data[..headerEnd]);
       && |data[headerEnd..]| == ContentLength(head.headers)
       && r == Request(head.verb, head.path, head.headers, Utf8OrEmpty(data[headerEnd..]))
  }

  /** `Finish` decodes the buffer up to and including its terminator and reads the body after it. */
  lemma FinishUnfold(buffer: Bytes, chunks: seq<Chunk>, end: End, maxBodySize: nat)
    requires FindTerminator(buffer).Some?
    ensures var headerEnd := FindTerminator(buffer).value + 4;
      var h := DecodeHead(buffer[..headerEnd]);
      && ReadHead(buffer, chunks, end, maxBodySize) == Finish(buffer, chunks, end, maxBodySize)
      && Finish(buffer, chunks, end, maxBodySize)
         == ReadBody(h, ContentLength(h.headers), buffer[headerEnd..], chunks, end, maxBodySize)
  {
  }

  /** Bytes arriving after a complete head extend its body and leave the head as it was. */
  lemma ExplainsAppend(buffer: Bytes, rest: Bytes, r: Request)
    requires FindTerminator(buffer).Some?
    requires var headerEnd := FindTerminator(buffer).value + 4;
      var head := DecodeHead(buffer[..headerEnd]);
      var body := buffer[headerEnd..] + rest;
      |body| == ContentLength(head.headers) && r == Request(head.verb, head.path, head.headers, Utf8OrEmpty(body))
    ensures Explains(buffer + rest, r)
  {
    var headerEnd := FindTerminator(buffer).value + 4;
    var data := buffer + rest;
    FindTerminatorAppend(buffer, rest);
    TakeAppend(buffer, rest, headerEnd);
    DropAppend(buffer, rest, headerEnd);
  }

  lemma FinishOk(buffer: Bytes, chunks: seq<Chunk>, end: End, maxBodySize: nat)
    requires FindTerminator(buffer).Some?
    requires Finish(buffer, chunks, end, maxBodySize).outcome.Ok?
    ensures var p := Finish(buffer, chunks, end, maxBodySize);
      Explains(buffer + Flatten(chunks[..p.consumed]), p.outcome.value)
  {
    var p := Finish(buffer, chunks, end, maxBodySize);
    var headerEnd := FindTerminator(buffer).value + 4;
    var head := DecodeHead(buffer[..headerEnd]);
    var contentLength := ContentLength(head.headers);
    var body := buffer[headerEnd..];
    assert p == ReadBody(head, contentLength, body, chunks, end, maxBodySize) by {
      FinishUnfold(buffer, chunks, end, maxBodySize);
    }
    var rest := Flatten(chunks[..p.consumed]);
    assert |body + rest| == contentLength && p.outcome.value == Request(head.verb, head.path, head.headers, Utf8OrEmpty(body + rest)) by {
      ReadBodyOk(head, contentLength, body, chunks, end, maxBodySize);
    }
    ExplainsAppend(buffer, rest, p.outcome.value);
  }

  /** Reading one more chunk moves it from what is pending to what is buffered. */
  lemma FlattenShift(buffer: Bytes, chunks: seq<Chunk>, n: nat)
    requires n < |chunks|
    ensures buffer + Flatten(chunks[..n + 1]) == (buffer + chunks[0]) + Flatten(chunks[1..][..n])
  {
    FlattenStep(chunks, n);
    AppendAssociative(buffer, chunks[0], Flatten(chunks[1..][..n]));
  }

  lemma {:induction false} ReadHeadOk(buffer: Bytes, chunks: seq<Chunk>, end: End, maxBodySize: nat)
    requires ReadHead(buffer, chunks, end, maxBodySize).outcome.Ok?
    ensures var p := ReadHead(buffer, chunks, end, maxBodySize);
      Explains(buffer + Flatten(chunks[..p.consumed]), p.outcome.value)
    decreases |chunks|
  {
    var p := ReadHead(buffer, chunks, end, maxBodySize);
    if FindTerminator(buffer).Some? {
      assert p == Finish(buffer, chunks, end, maxBodySize);
      FinishOk(buffer, chunks, end, maxBodySize);
    } else {
      var more := buffer + chunks[0];
      var q := ReadHead(more, chunks[1..], end, maxBodySize);
      assert p == Shift(q, 1);
      ReadHeadOk(more, chunks[1..], end, maxBodySize);
      FlattenShift(buffer, chunks, q.consumed);
    }
  }

  /**
   * A successful call has read a head that ends at the first CR LF CR LF of
   * the data it consumed, followed by exactly Content-Length body bytes; the
   * request is that head decoded, with that body (or "" when it is not UTF-8).
   */
  lemma SuccessShape(chunks: seq<Chunk>, end: End, maxBodySize: nat)
    requires ParseSpec(chunks, end, maxBodySize).outcome.Ok?
    ensures var p := ParseSpec(chunks, end, maxBodySize);
      Explains(Flatten(chunks[..p.consumed]), p.outcome.value)
  {
    var p := ParseSpec(chunks, end, maxBodySize);
    ReadHeadOk([], chunks, end, maxBodySize);
    EmptyAppend(Flatten(chunks[..p.consumed]));
  }

  // ---------------------------------------------------------------- well-formed requests are accepted

  /** Once the buffer holds a terminator, it holds the whole head and the start of the body. */
  lemma HeadFound(buffer: Bytes, rest: Bytes, head: Bytes, body: Bytes)
    requires buffer + rest == head + body
    requires |head| >= 4 && FindTerminator(head) == Some(|head| - 4)
    requires FindTerminator(buffer).Some?
    ensures FindTerminator(buffer).value + 4 == |head| <= |buffer|
    ensures buffer[..|head|] == head && buffer[|head|..] + rest == body
  {
    FindTerminatorAppend(head, body);
    FindTerminatorAppend(buffer, rest);
    SplitAppendAt(head, body);
    TakeAppend(buffer, rest, |head|);
    DropAppend(buffer, rest, |head|);
  }

  /** Without a terminator yet, some data is still pending and the next read keeps within the total. */
  lemma HeadPending(buffer: Bytes, chunks: seq<Chunk>, head: Bytes, body: Bytes)
    requires buffer + Flatten(chunks) == head + body
    requires FindTerminator(head + body).Some?
    requires FindTerminator(buffer).None?
    ensures chunks != []
    ensures (buffer + chunks[0]) + Flatten(chunks[1..]) == head + body
    ensures |buffer + chunks[0]| <= |head + body|
  {
    assert buffer != head + body;
    assert Flatten(chunks) != [];
    AppendAssociative(buffer, chunks[0], Flatten(chunks[1..]));
  }

  /** A buffer that holds the whole head already holds its terminator. */
  lemma HeadInBuffer(buffer: Bytes, rest: Bytes, head: Bytes, body: Bytes)
    requires buffer + rest == head + body
    requires |head| >= 4 && FindTerminator(head) == Some(|head| - 4)
    ensures |head| <= |buffer| ==> FindTerminator(buffer) == Some(|head| - 4)
  {
    if |head| <= |buffer| {
      var tail := buffer[|head|..];
      assert buffer == head + tail by {
        assert buffer == (buffer + rest)[..|buffer|];
        assert (head + body)[..|buffer|] == head + body[..|buffer| - |head|];
      }
      FindTerminatorAppend(head, tail);
    }
  }

  /**
   * The head loop never stops with 413 on this request: either the head and
   * the at most 511 further bytes of the read that completes it, or the whole
   * request, fit the head-phase limit.
   */
  predicate HeadFits(head: Bytes, body: Bytes, maxBodySize: nat) {
    |head| + 511 <= maxBodySize + HEADER_ALLOWANCE || |head| + |body| <= maxBodySize + HEADER_ALLOWANCE
  }

  /** The head loop stops as soon as the buffer holds the head, and the body loop starts on what follows it. */
  lemma HeadDone(buffer: Bytes, chunks: seq<Chunk>, end: End, maxBodySize: nat, head: Bytes)
    requires FindTerminator(buffer).Some? && FindTerminator(buffer).value + 4 == |head| <= |buffer|
    requires buffer[..|head|] == head
    ensures var h := DecodeHead(head);
      ReadHead(buffer, chunks, end, maxBodySize)
      == Shift(ReadBody(h, ContentLength(h.headers), buffer[|head|..], chunks, end, maxBodySize), 0)
  {
    FinishUnfold(buffer, chunks, end, maxBodySize);
    var h := DecodeHead(head);
    var r := ReadBody(h, ContentLength(h.headers), buffer[|head|..], chunks, end, maxBodySize);
    assert Shift(r, 0) == r;
  }

  /** Reading a head that is all there: the head loop hands over to the body loop with the rest. */
  lemma {:induction false} HeadPhase(buffer: Bytes, chunks: seq<Chunk>, end: End, maxBodySize: nat,
                                     head: Bytes, body: Bytes)
    returns (n: nat, got: Bytes)
    requires buffer + Flatten(chunks) == head + body
    requires |head| >= 4 && FindTerminator(head) == Some(|head| - 4)
    requires HeadFits(head, body, maxBodySize)
    ensures n <= |chunks| && got + Flatten(chunks[n..]) == body
    ensures var h := DecodeHead(head);
      ReadHead(buffer, chunks, end, maxBodySize)
      == Shift(ReadBody(h, ContentLength(h.headers), got, chunks[n..], end, maxBodySize), n)
    decreases |chunks|
  {
    if FindTerminator(buffer).Some? {
      HeadFound(buffer, Flatten(chunks), head, body);
      n, got := 0, buffer[|head|..];
      assert chunks[0..] == chunks;
      HeadDone(buffer, chunks, end, maxBodySize, head);
    } else {
      FindTerminatorAppend(head, body);
      HeadPending(buffer, chunks, head, body);
      HeadInBuffer(buffer, Flatten(chunks), head, body);
      var more := buffer + chunks[0];
      assert |more| <= maxBodySize + HEADER_ALLOWANCE by {
        assert |buffer| < |head| && |chunks[0]| <= 512;
      }
      assert ReadHead(buffer, chunks, end, maxBodySize) == Shift(ReadHead(more, chunks[1..], end, maxBodySize), 1);
      var m, g := HeadPhase(more, chunks[1..], end, maxBodySize, head, body);
      n, got := m + 1, g;
      assert chunks[1..][m..] == chunks[m + 1..];
    }
  }

  /** The body loop on a body that is all there and fits. */
  lemma {:induction false} ReadBodyAll(h: RequestHead, got: Bytes, chunks: seq<Chunk>, end: End,
                                       maxBodySize: nat, body: Bytes)
    requires got + Flatten(chunks) == body && |body| <= maxBodySize
    ensures ReadBody(h, |body|, got, chunks, end, maxBodySize)
      == Parse(Ok(Request(h.verb, h.path, h.headers, Utf8OrEmpty(body))), |chunks|)
    decreases |chunks|
  {
    if |got| >= |body| {
      assert |Flatten(chunks)| == 0;
      assert got == body;
    } else {
      assert Flatten(chunks) != [];
      var more := got + chunks[0];
      AppendAssociative(got, chunks[0], Flatten(chunks[1..]));
      ReadBodyAll(h, more, chunks[1..], end, maxBodySize, body);
    }
  }

  /**
   * A head ending at its first CR LF CR LF, followed by exactly as many body
   * bytes as its Content-Length says, is accepted however the peer splits it
   * into reads, as long as the body is within the limit and the head within
   * the head-phase limit (HeadFits). Nothing is written and every read is used.
   */
  lemma AcceptsWellFormed(chunks: seq<Chunk>, end: End, maxBodySize: nat, head: Bytes, body: Bytes)
    requires Flatten(chunks) == head + body
    requires |head| >= 4 && FindTerminator(head) == Some(|head| - 4)
    requires |body| == ContentLength(DecodeHead(head).headers)
    requires |body| <= maxBodySize && HeadFits(head, body, maxBodySize)
    ensures var h := DecodeHead(head);
      ParseSpec(chunks, end, maxBodySize)
      == Parse(Ok(Request(h.verb, h.path, h.headers, Utf8OrEmpty(body))), |chunks|)
  {
    var h := DecodeHead(head);
    EmptyAppend(Flatten(chunks));
    var n, got := HeadPhase([], chunks, end, maxBodySize, head, body);
    var r := ReadBody(h, ContentLength(h.headers), got, chunks[n..], end, maxBodySize);
    assert ParseSpec(chunks, end, maxBodySize) == Shift(r, n);
    ReadBodyAll(h, got, chunks[n..], end, maxBodySize, body);
  }

  // ---------------------------------------------------------------- rejections

  lemma {:induction false} ReadBodyShort(h: RequestHead, contentLength: nat, got: Bytes, chunks: seq<Chunk>, end: End,
                                         maxBodySize: nat, body: Bytes)
    requires got + Flatten(chunks) == body && |body| < contentLength && |body| <= maxBodySize
    ensures ReadBody(h, contentLength, got, chunks, end, maxBodySize)
      == if end == Eof then Parse(Err(IncompleteBody), |chunks|)
         else Parse(Err(ReadError), |chunks|)
    decreases |chunks|
  {
    if chunks == [] {
      assert got == body;
    } else {
      var more := got + chunks[0];
      AppendAssociative(got, chunks[0], Flatten(chunks[1..]));
      ReadBodyShort(h, contentLength, more, chunks[1..], end, maxBodySize, body);
    }
  }

  /**
   * The body loop when the announced length is over the limit and the peer
   * sends more than the limit: the loop stops with 413.
   */
  lemma {:induction false} ReadBodyTooLarge(h: RequestHead, contentLength: nat, got: Bytes, chunks: seq<Chunk>, end: End,
                                            maxBodySize: nat)
    requires maxBodySize < contentLength
    requires |got| <= maxBodySize < |got + Flatten(chunks)|
    ensures ReadBody(h, contentLength, got, chunks, end, maxBodySize).outcome == Err(TooLarge)
    decreases |chunks|
  {
    assert Flatten(chunks) != [];
    var more := got + chunks[0];
    if |more| <= maxBodySize {
      AppendAssociative(got, chunks[0], Flatten(chunks[1..]));
      ReadBodyTooLarge(h, contentLength, more, chunks[1..], end, maxBodySize);
    }
  }

  /**
   * A body shorter than Content-Length is answered with 400 "Incomplete body"
   * once the peer closes; if the connection fails instead, the read error is
   * returned and nothing is written.
   */
  lemma RejectsTruncatedBody(chunks: seq<Chunk>, end: End, maxBodySize: nat, head: Bytes, body: Bytes)
    requires Flatten(chunks) == head + body
    requires |head| >= 4 && FindTerminator(head) == Some(|head| - 4)
    requires |body| < ContentLength(DecodeHead(head).headers)
    requires |body| <= maxBodySize && HeadFits(head, body, maxBodySize)
    ensures ParseSpec(chunks, end, maxBodySize)
      == if end == Eof then Parse(Err(IncompleteBody), |chunks|)
         else Parse(Err(ReadError), |chunks|)
  {
    var h := DecodeHead(head);
    EmptyAppend(Flatten(chunks));
    var n, got := HeadPhase([], chunks, end, maxBodySize, head, body);
    var r := ReadBody(h, ContentLength(h.headers), got, chunks[n..], end, maxBodySize);
    assert ParseSpec(chunks, end, maxBodySize) == Shift(r, n);
    ReadBodyShort(h, ContentLength(h.headers), got, chunks[n..], end, maxBodySize, body);
  }

  // ---------------------------------------------------------------- bytes beyond Content-Length

  /** The first read of a head that stays within the limit becomes the buffer. */
  lemma FirstRead(first: Chunk, rest: seq<Chunk>, end: End, maxBodySize: nat)
    requires |first| <= maxBodySize + HEADER_ALLOWANCE
    ensures ParseSpec([first] + rest, end, maxBodySize) == Shift(ReadHead(first, rest, end, maxBodySize), 1)
  {
    var chunks := [first] + rest;
    assert chunks[0] == first && chunks[1..] == rest;
    EmptyAppend(first);
  }

  /** A body loop that already holds at least the announced length reads nothing more. */
  lemma BodyAlreadyRead(h: RequestHead, contentLength: nat, body: Bytes, chunks: seq<Chunk>, end: End,
                        maxBodySize: nat)
    requires |body| >= contentLength
    ensures ReadBody(h, contentLength, body, chunks, end, maxBodySize) == Complete(h, contentLength, body)
  {
  }

  /**
   * A first read holding a whole head and at least as many further bytes as
   * it announces: the call ends after that read with the length check.
   */
  lemma HeadInFirstRead(first: Chunk, rest: seq<Chunk>, end: End, maxBodySize: nat, head: Bytes, extra: Bytes)
    requires first == head + extra
    requires |head| >= 4 && FindTerminator(head) == Some(|head| - 4)
    requires |extra| >= ContentLength(DecodeHead(head).headers)
    requires |first| <= maxBodySize + HEADER_ALLOWANCE
    ensures var h := DecodeHead(head);
      ParseSpec([first] + rest, end, maxBodySize) == Shift(Complete(h, ContentLength(h.headers), extra), 1)
  {
    var h := DecodeHead(head);
    FirstRead(first, rest, end, maxBodySize);
    FindTerminatorAppend(head, extra);
    SplitAppendAt(head, extra);
    HeadDone(first, rest, end, maxBodySize, head);
    BodyAlreadyRead(h, ContentLength(h.headers), extra, rest, end, maxBodySize);
  }

  /**
   * A first read that ends exactly at the blank line of a head announcing no
   * body: the request is accepted with an empty body after that one read, and
   * whatever the peer sends afterwards is never read.
   */
  lemma UnannouncedBytesLaterAccepted(first: Chunk, rest: seq<Chunk>, end: End, maxBodySize: nat)
    requires FindTerminator(first) == Some(|first| - 4)
    requires ContentLength(DecodeHead(first).headers) == 0
    requires |first| <= maxBodySize + HEADER_ALLOWANCE
    ensures var h := DecodeHead(first);
      ParseSpec([first] + rest, end, maxBodySize) == Parse(Ok(Request(h.verb, h.path, h.headers, [])), 1)
  {
    var empty: Bytes := [];
    assert first == first + empty;
    HeadInFirstRead(first, rest, end, maxBodySize, first, empty);
    assert Utf8OrEmpty(empty) == empty;
  }

  /**
   * A first read holding a complete head together with more bytes than its
   * Content-Length announces: the body loop does not run and the length check
   * answers 400 "Incomplete body" after that one read.
   */
  lemma UnannouncedBytesInSameReadRejected(first: Chunk, rest: seq<Chunk>, end: End, maxBodySize: nat,
                                           head: Bytes, extra: Bytes)
    requires first == head + extra
    requires |head| >= 4 && FindTerminator(head) == Some(|head| - 4)
    requires |extra| > ContentLength(DecodeHead(head).headers)
    requires |first| <= maxBodySize + HEADER_ALLOWANCE
    ensures ParseSpec([first] + rest, end, maxBodySize) == Parse(Err(IncompleteBody), 1)
  {
    HeadInFirstRead(first, rest, end, maxBodySize, head, extra);
  }

  /** A first read that ends exactly at the blank line hands an empty body to the body loop. */
  lemma HeadIsFirstRead(first: Chunk, later: seq<Chunk>, end: End, maxBodySize: nat)
    requires FindTerminator(first) == Some(|first| - 4)
    requires |first| <= maxBodySize + HEADER_ALLOWANCE
    ensures var h := DecodeHead(first);
      ParseSpec([first] + later, end, maxBodySize) == Shift(ReadBody(h, ContentLength(h.headers), [], later, end, maxBodySize), 1)
  {
    FirstRead(first, later, end, maxBodySize);
    assert first[..|first|] == first;
    HeadDone(first, later, end, maxBodySize, first);
    assert first[|first|..] == [];
  }

  /** A body loop that starts empty and whose next read reaches the announced length stops after that read. */
  lemma BodyInNextRead(h: RequestHead, contentLength: nat, second: Chunk, rest: seq<Chunk>, end: End, maxBodySize: nat)
    requires 0 < contentLength <= |second| <= maxBodySize
    ensures ReadBody(h, contentLength, [], [second] + rest, end, maxBodySize) == Shift(Complete(h, contentLength, second), 1)
  {
    var later := [second] + rest;
    assert later[0] == second && later[1..] == rest;
    EmptyAppend(second);
    BodyAlreadyRead(h, contentLength, second, rest, end, maxBodySize);
  }

  lemma TwoReads(first: Chunk, second: Chunk, rest: seq<Chunk>)
    ensures [first, second] + rest == [first] + ([second] + rest)
  {
  }

  /**
   * Bytes beyond a stated length are read when they arrive with the rest of
   * the body: a head that ends with its read, then a read that carries more
   * than the announced body, is answered 400 "Incomplete body" after both reads.
   */
  lemma BodyOvershootInLaterRead(first: Chunk, second: Chunk, rest: seq<Chunk>, end: End, maxBodySize: nat)
    requires FindTerminator(first) == Some(|first| - 4)
    requires |first| <= maxBodySize + HEADER_ALLOWANCE
    requires 0 < ContentLength(DecodeHead(first).headers) < |second| <= maxBodySize
    ensures ParseSpec([first, second] + rest, end, maxBodySize) == Parse(Err(IncompleteBody), 2)
  {
    var h := DecodeHead(first);
    TwoReads(first, second, rest);
    HeadIsFirstRead(first, [second] + rest, end, maxBodySize);
    BodyInNextRead(h, ContentLength(h.headers), second, rest, end, maxBodySize);
  }

  lemma {:induction false} OversizedHeadPhase(buffer: Bytes, chunks: seq<Chunk>, end: End, maxBodySize: nat,
                                              data: Bytes)
    requires buffer + Flatten(chunks) == data
    requires |buffer| <= maxBodySize + HEADER_ALLOWANCE < |data|
    requires FindTerminator(data[..maxBodySize + HEADER_ALLOWANCE]).None?
    ensures ReadHead(buffer, chunks, end, maxBodySize).outcome == Err(TooLarge)
    decreases |chunks|
  {
    var limit := maxBodySize + HEADER_ALLOWANCE;
    assert data[..limit] == buffer + data[|buffer|..limit];
    FindTerminatorNone(buffer, data[|buffer|..limit]);
    assert Flatten(chunks) != [];
    var more := buffer + chunks[0];
    if |more| <= limit {
      AppendAssociative(buffer, chunks[0], Flatten(chunks[1..]));
      OversizedHeadPhase(more, chunks[1..], end, maxBodySize, data);
    }
  }

  /**
   * When the first `max_body_size + 8192` bytes hold no CR LF CR LF and more
   * bytes follow, the call answers 413 and fails.
   */
  lemma RejectsOversizedHead(chunks: seq<Chunk>, end: End, maxBodySize: nat)
    requires |Flatten(chunks)| > maxBodySize + HEADER_ALLOWANCE
    requires FindTerminator(Flatten(chunks)[..maxBodySize + HEADER_ALLOWANCE]).None?
    ensures ParseSpec(chunks, end, maxBodySize).outcome == Err(TooLarge)
  {
    EmptyAppend(Flatten(chunks));
    OversizedHeadPhase([], chunks, end, maxBodySize, Flatten(chunks));
  }

  lemma {:induction false} UnfinishedHeadPhase(buffer: Bytes, chunks: seq<Chunk>, end: End, maxBodySize: nat,
                                               data: Bytes)
    requires buffer + Flatten(chunks) == data
    requires FindTerminator(data).None? && |data| <= maxBodySize + HEADER_ALLOWANCE
    ensures ReadHead(buffer, chunks, end, maxBodySize)
      == Parse(Err(if end == Eof then PeerClosed else ReadError), |chunks|)
    decreases |chunks|
  {
    FindTerminatorNone(buffer, Flatten(chunks));
    if chunks != [] {
      var more := buffer + chunks[0];
      AppendAssociative(buffer, chunks[0], Flatten(chunks[1..]));
      UnfinishedHeadPhase(more, chunks[1..], end, maxBodySize, data);
    }
  }

  /**
   * A peer that stops before the blank line gets no answer: the call fails
   * silently (closed or read error) after using every read.
   */
  lemma SilentOnUnfinishedHead(chunks: seq<Chunk>, end: End, maxBodySize: nat)
    requires FindTerminator(Flatten(chunks)).None?
    requires |Flatten(chunks)| <= maxBodySize + HEADER_ALLOWANCE
    ensures ParseSpec(chunks, end, maxBodySize)
      == Parse(Err(if end == Eof then PeerClosed else ReadError), |chunks|)
  {
    EmptyAppend(Flatten(chunks));
    UnfinishedHeadPhase([], chunks, end, maxBodySize, Flatten(chunks));
  }

  // ---------------------------------------------------------------- the header map

  /** Among fields, the last one with a key decides its value. */
  lemma {:induction false} InsertLastWins(fields: seq<Option<(Bytes, Bytes)>>, i: nat, key: Bytes, value: Bytes)
    requires i < |fields| && fields[i] == Some((key, value))
    requires forall j :: i < j < |fields| ==> fields[j].None? || fields[j].value.0 != key
    ensures key in Insert(fields) && Insert(fields)[key] == value
    decreases |fields|
  {
    var init := fields[..|fields| - 1];
    if i < |fields| - 1 {
      assert init[i] == fields[i];
      assert forall j :: i < j < |init| ==> init[j] == fields[j];
      InsertLastWins(init, i, key, value);
    }
  }

  /** Every key of the map comes from a field, the last one with that key. */
  lemma {:induction false} InsertSource(fields: seq<Option<(Bytes, Bytes)>>, key: Bytes) returns (i: nat)
    requires key in Insert(fields)
    ensures i < |fields| && fields[i] == Some((key, Insert(fields)[key]))
    ensures forall j :: i < j < |fields| ==> fields[j].None? || fields[j].value.0 != key
    decreases |fields|
  {
    var last := |fields| - 1;
    var init := fields[..last];
    if fields[last].Some? && fields[last].value.0 == key {
      i := last;
    } else {
      i := InsertSource(init, key);
      assert forall j :: 0 <= j < last ==> init[j] == fields[j];
    }
  }

  /** A header's value is the one on the last line that names it. */
  lemma HeaderLastWins(lines: seq<Bytes>, i: nat, key: Bytes, value: Bytes)
    requires i < |lines| && HeaderField(lines[i]) == Some((key, value))
    requires forall j :: i < j < |lines| ==> HeaderField(lines[j]).None? || HeaderField(lines[j]).value.0 != key
    ensures key in HeadersOf(lines) && HeadersOf(lines)[key] == value
  {
    var fields := Fields(lines);
    assert fields[i] == Some((key, value));
    assert forall j :: i < j < |fields| ==> fields[j].None? || fields[j].value.0 != key;
    InsertLastWins(fields, i, key, value);
  }

  /** Every entry of the header map comes from a line, the last one naming that key. */
  lemma HeaderSource(lines: seq<Bytes>, key: Bytes) returns (i: nat)
    requires key in HeadersOf(lines)
    ensures i < |lines| && HeaderField(lines[i]) == Some((key, HeadersOf(lines)[key]))
    ensures forall j :: i < j < |lines| ==> HeaderField(lines[j]).None? || HeaderField(lines[j]).value.0 != key
  {
    var fields := Fields(lines);
    i := InsertSource(fields, key);
    assert fields[i] == HeaderField(lines[i]);
    assert forall j :: i < j < |lines| ==> fields[j] == HeaderField(lines[j]);
  }

  /** A header line splits at its first colon: the value keeps any later colons. */
  lemma HeaderLine(name: Bytes, value: Bytes)
    requires ':' !in name
    ensures HeaderField(name + ":" + value) == Some((ToLower(Trim(name)), Trim(value)))
  {
    var line := name + ":" + value;
    FindPrefix(name + ":", value, ':');
    assert Find(name + ":", ':') == Some(|name|) by {
      assert (name + ":")[|name|] == ':';
    }
    assert line[..|name|] == name && line[|name| + 1..] == value;
  }

  /** The method and the path are the first two words of the request line. */
  lemma RequestLineWords(verb: Bytes, path: Bytes, version: Bytes)
    requires verb != [] && forall i :: 0 <= i < |verb| ==> !IsSpace(verb[i])
    requires path != [] && forall i :: 0 <= i < |path| ==> !IsSpace(path[i])
    ensures RequestLine(verb + [' '] + path + [' '] + version) == (verb, path)
  {
    var sp: Bytes := [' '];
    var tail := sp + version;
    var afterVerb := sp + (path + tail);
    AppendAssociative(verb + sp + path, sp, version);
    AppendAssociative(verb + sp, path, tail);
    AppendAssociative(verb, sp, path + tail);
    WordsCons(verb, afterVerb);
    WordsSkipsSpace(' ', path + tail);
    WordsCons(path, tail);
  }
}
