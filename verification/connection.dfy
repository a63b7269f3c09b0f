/**
 * `handle_http_connection`: the per-connection entry point run on a worker.
 * The peer's address (0.0.0.0 when the socket cannot report one) is checked
 * against the shared rate limiter; a limited client is answered with 429 and
 * nothing it sent is read, any other client is handed to `handle_connection`.
 */
module Connection {
  import opened Wrappers
  import opened Bytes
  import opened Streams
  import opened Files
  import opened Response
  import opened Parser
  import opened RateLimiting
  import opened Handler

  const TOO_MANY_REQUESTS: Bytes := "Too Many Requests"
  const PLEASE_WAIT: Bytes := "Too many requests. " + "Please wait a moment."

  /** The address the limiter keys on: the peer's, or 0.0.0.0 when it is unknown. */
  function Identity(peer: Option<IpAddr>): IpAddr {
    if peer.Some? then peer.value else UNSPECIFIED
  }

  /** The whole reply to a client the limiter refuses. */
  function RefusedReply(date: Bytes): Bytes {
    HtmlErrorReply(429, TOO_MANY_REQUESTS, PLEASE_WAIT, date)
  }

  /**
   * `handle_http_connection(stream, rate_limiter)` at instant `now`. It
   * always returns `Ok`: write errors are discarded and a failed parse is
   * answered, not propagated.
   */
  method HandleHttpConnection(s: Stream, limiter: RateLimiter, fs: FileSystem, env: Env, now: nat)
    returns (r: Result<(), Bytes>)
    requires limiter.Valid() && limiter.clock <= now
    modifies s`incoming, s`written, fs`entries, limiter`log, limiter`clock
    ensures r.Ok?
    ensures limiter.Valid() && limiter.clock == now
    ensures var ip := Identity(s.peer);
      var v := Check(Entry(old(limiter.log), ip), now, limiter.window, limiter.maxRequests);
      && limiter.log == old(limiter.log)[ip := v.times]
      && (v.limited ==>
            && s.written == old(s.written) + RefusedReply(env.date)
            && s.incoming == old(s.incoming)
            && fs.entries == old(fs.entries))
      && (!v.limited ==>
            var o := Serve(old(s.incoming), s.end, old(fs.entries), fs.faulty, env);
            && s.written == old(s.written) + o.reply
            && fs.entries == o.entries
            && s.incoming == old(s.incoming)[ParseSpec(old(s.incoming), s.end, MAX_BODY_SIZE).consumed..])
  {
    var ip := Identity(s.peer);
    var limited := limiter.IsRateLimited(ip, now);
    if limited {
      SendHtmlError(s, 429, TOO_MANY_REQUESTS, PLEASE_WAIT, env.date);
      return Ok(());
    }
    HandleConnection(s, fs, env);
    r := Ok(());
  }
}
