# http-rust request path, in Dafny

This project models the request path of `http-rust`, a small threaded HTTP/1.1
file server. It covers one accepted connection from admission to the last
byte written:

- **Admission.** `handle_http_connection` takes the peer's address, or
  0.0.0.0 when the socket cannot report one. It asks the shared sliding-window
  rate limiter whether that address has used up its requests. A refused client
  gets a 429 page and nothing it sent is read.
- **Parsing.** `parse_request` reads 512-byte chunks until the blank line that
  ends the head (CR LF CR LF). While the head is being read, the buffer may
  grow to `max_body_size + 8192` bytes. Once the head is complete, the body
  loop checks only the body against `max_body_size`. Past either limit the
  parser answers 413 itself. The comment at src/server/parser.rs:24 speaks of
  limiting the total request (headers plus body), but the code does not: a
  9000-byte head followed by `max_body_size` body bytes is accepted
  (`ParserProperties.AcceptsWellFormed` needs only `HeadFits`: the head plus
  the at most 511 further bytes of its last read, or the whole request, fits
  `max_body_size + 8192`, true here once `max_body_size >= 1319`). The
  parser then decodes the request line and the headers: names are trimmed and
  lower-cased, the last duplicate wins, and lines without `:` are skipped.
  It reads body bytes until it holds at least `Content-Length` of them, and
  answers 400 itself when the count read differs from that length.
- **Routing.** `handle_connection` upper-cases the method and routes on
  (method, exact path):
  - `GET /api/status` and a multipart `POST /upload` get JSON replies;
  - GET, POST, PUT and DELETE go to the file handlers under `<cwd>/public`,
    whose paths are confined by `resolve_safe_path`;
  - OPTIONS gets a fixed 204;
  - any other method gets 405.
  After the routed reply it appends a `Set-Cookie` line unless the request
  had a `cookie` header. On any parse failure it writes a 400 page. So a
  request the parser already answered with 413 or 400 gets a second response.
- **Replies.** The file handlers and the `send_*` writers format the HTTP
  responses byte for byte.

Modelling choices:

- **Bytes.** `Byte` is a `char` below 256, so wire text can be written as
  string literals. Rust strings are their UTF-8 bytes.
- **Connection.** `Streams.Stream` is a class. It holds the chunks still to
  be read (each 1 to 512 bytes), how the data ends (an orderly close or a read
  error), and an append-only log of what the server wrote.
- **File system.** `Files.FileSystem` is a class with a map from paths (lists
  of components) to files or directories. A set of paths on which I/O fails
  stands for permission and device errors.
- **Parser.** The parser is a `while`-loop method. It is proved equal to the
  recursive specification `Parser.ParseSpec`, which gives the outcome and how
  many chunks were consumed. The lemmas are stated about that function.
- **Rate limiter.** The limiter is a class whose map from addresses to
  admitted instants the method reassigns. `Instant::now()` is a parameter
  `now`, measured in nanoseconds.
- **Outside collaborators.** These are fields of `Response.Env`: the date
  string (`http_date`), the `chrono` time in the status JSON, the working
  directory, `mime_guess`, and serde_json's parse-and-pretty-print.

Four behaviours of the code that one might expect to be otherwise; the model
follows the code:

- **Double response.** `handle_connection` writes its 400 on every `Err`,
  including the failures for which the parser has already written a reply.
  So a 413 or an "Incomplete body" 400 is followed by a second response, 400
  (`Handler.ServeOversizedHead`, `Handler.ServeTruncatedBody`).
- **Early close.** A peer that closes before the head ends is not dropped
  silently: it still gets the handler's 400 (`Handler.ServeUnfinishedHead`).
- **Bytes beyond `Content-Length`.** Without a `Content-Length` the announced
  length is 0. Bytes after the head are not taken as the body. What happens
  to them depends on how the reads split the data:
  - Bytes that arrive in the same read as the end of the head fail the final
    length check with a 400 (`ParserProperties.UnannouncedBytesInSameReadRejected`).
  - Bytes that arrive only in later reads are never read. The request is
    accepted with an empty body (`ParserProperties.UnannouncedBytesLaterAccepted`).

  With a stated `Content-Length`, the body loop keeps reading until it holds
  at least that many bytes. Surplus bytes in the read that completes the body
  give a 400. That read may be the head's own read or a later one
  (`ParserProperties.BodyOvershootInLaterRead`). Only bytes in reads after the
  body is already complete are never read.
- **POST reflects JSON unescaped.** A body that serde_json reads is answered
  with its pretty-printed form exactly as it is, so markup inside a JSON
  string reaches the page (`Response.PostJsonReflected`). The data page and
  the form page escape the body and carry none of its `<` or `>`
  (`Response.PostPageHasNoBodyTags`).

## Model

| member | source | states |
|---|---|---|
| Bytes.ToLower | src/server/parser.rs:43 | header names are lower-cased letter by letter: same length, each byte mapped by ASCII lower-casing |
| Bytes.ToUpper | src/server/handler.rs:21 | the method is upper-cased letter by letter: same length, each byte mapped by ASCII upper-casing |
| Bytes.UpperIgnoresCase | src/server/handler.rs:21 | upper-casing after lower-casing equals upper-casing, so routing ignores the method's case |
| Bytes.TrimStart | src/server/response.rs:53 | the result is a suffix of the input, every dropped byte is whitespace, and the result does not start with whitespace |
| Bytes.TrimEnd | src/server/parser.rs:43 | the result is a prefix of the input, every dropped byte is whitespace, and the result does not end with whitespace |
| Bytes.TrimKeeps | src/server/parser.rs:43 | trimming a text without surrounding whitespace returns it unchanged |
| Bytes.TrimSpaces | src/server/response.rs:53 | `trim_start` removes exactly a leading run of white space |
| Bytes.Find | src/server/parser.rs:42 | the index found holds the character and no earlier index does; None exactly when the character is absent |
| Bytes.FindPrefix | src/server/parser.rs:42 | the first occurrence in a prefix that has one is the first occurrence in the whole text |
| Bytes.SplitOnce | src/server/parser.rs:42 | `split_once(':')`: None exactly when there is no separator; otherwise the text is left + separator + right, with no separator in left |
| Bytes.SplitOnceAt | src/server/response.rs:67 | a text whose first part has no separator splits back into exactly that part and the rest |
| Bytes.Split | src/server/response.rs:66 | `split('&')` gives at least one piece and no piece holds the separator |
| Bytes.SplitWithout | src/server/response.rs:66 | a text without the separator is a single piece |
| Bytes.JoinSplit | src/server/response.rs:66 | joining the pieces with the separator gives back the text |
| Bytes.SplitJoin | src/server/response.rs:66 | splitting the join of separator-free pieces gives back the pieces |
| Bytes.SplitAppend | src/server/response.rs:66 | splitting a + separator + b gives the pieces of a followed by the pieces of b |
| Bytes.Lines | src/server/parser.rs:33 | `lines()` yields at least one line for non-empty text |
| Bytes.LinesCons | src/server/parser.rs:33 | a line ended by LF is the first line, with one trailing CR removed, followed by the lines of the rest |
| Bytes.WordLength | src/server/parser.rs:36 | the first word's length: every byte before it is non-whitespace and the byte at it (if any) is whitespace |
| Bytes.Words | src/server/parser.rs:36 | `split_whitespace()` yields no empty word |
| Bytes.WordsSkipsSpace | src/server/parser.rs:36 | leading whitespace does not change the words |
| Bytes.WordsCons | src/server/parser.rs:36 | a run of non-whitespace followed by whitespace or the end is the first word |
| Bytes.Decimal | src/server/response.rs:178 | the decimal rendering of a length is non-empty and all digits |
| Bytes.DigitsValueOfDecimal | src/server/response.rs:178 | the digits of a rendered number read back as that number |
| Bytes.ParseUsize | src/server/parser.rs:49 | `parse::<usize>()` succeeds only on an optional `+` then at least one digit, and its value is then the value of those digits, below 2^64 |
| Bytes.ParseDigits | src/server/parser.rs:49 | every non-empty digit string, with or without a leading `+` and with any leading zeros, parses to its value when that is below 2^64 and is refused otherwise |
| Bytes.ParseDecimal | src/server/parser.rs:47-50 | a rendered length below 2^64 parses back to itself, so a `Content-Length` the server would write is understood |
| Bytes.AsciiIsUtf8 | src/server/parser.rs:70 | ASCII bytes are well-formed UTF-8 |
| Bytes.WellFormedUtf8 | src/server/parser.rs:70 | what `String::from_utf8` accepts, as a chain of well-formed sequences; characterised by AsciiIsUtf8, Utf8Concat and Utf8RejectsBadStart |
| Bytes.Utf8Concat | src/server/parser.rs:70 | concatenating well-formed UTF-8 texts gives a well-formed text |
| Bytes.Utf8RejectsBadStart | src/server/parser.rs:70 | a text starting with a continuation byte (80-BF), with C0, C1 or F5-FF, or with ED then A0-BF (a surrogate) is refused |
| Bytes.Utf8OrEmpty | src/server/parser.rs:70 | `from_utf8(..).unwrap_or_default()`: the body when WellFormedUtf8 accepts it, otherwise empty; WellFormedUtf8 itself is characterised by the three lemmas above |
| Streams.Stream.Read | src/server/parser.rs:18-21 | a read delivers the next chunk and consumes it; with nothing left it reports the close or the error and consumes nothing |
| Streams.Stream.Write | src/server/response.rs:183 | a write appends exactly its bytes to what was written |
| Files.ReadFile | src/server/response.rs:16 | reading succeeds exactly on a regular file whose I/O does not fail, and yields its contents; WriteThenRead and RemoveThenRead relate it to the updates |
| Files.WriteThenRead | src/server/response.rs:99 | after a successful write the path reads back as the data written, and every other path reads as before |
| Files.RemoveThenRead | src/server/response.rs:117 | after a successful remove the path no longer reads, and every other path reads as before |
| Files.FileSystem.Read | src/server/response.rs:16 | `fs::read` returns what ReadFile specifies and changes nothing |
| Files.FileSystem.Write | src/server/response.rs:99 | `fs::write` succeeds unless the path fails or is a directory; on success the path holds the data, otherwise nothing changes |
| Files.FileSystem.Remove | src/server/response.rs:117 | `fs::remove_file` succeeds exactly on a regular file whose I/O does not fail, and removes only that path |
| Utils.Components | src/server/utils.rs:7-8 | `components()` on Unix: RootDir for a leading `/`, CurDir for a leading `.` of a relative path, then ParentDir for each `..` and a normal name for each other non-empty segment other than `.`; only the normal names matter, see NormalNamesOfClassify and SanitizeKeepsNames |
| Utils.Sanitize | src/server/utils.rs:7-13 | the kept normal components; SanitizeKeepsNames, SanitizeSafe, SanitizeAppend, SanitizeIgnoresRoot, ParentIsDropped and SanitizeIdempotent state what it keeps |
| Utils.ResolveSafePath | src/server/utils.rs:4-23 | `<cwd>/public` joined with the sanitised path when that exists; ResolveStaysUnderBase states its guarantee |
| Utils.Names | src/server/utils.rs:7-13 | the kept components are all normal names (not empty, `.` or `..`) taken from the input |
| Utils.SanitizeKeepsNames | src/server/utils.rs:7-13 | sanitising keeps exactly the normal components of the `/`-separated path, in order |
| Utils.SanitizeSafe | src/server/utils.rs:7-13 | every sanitised component is a normal name without `/` |
| Utils.SanitizeSegment | src/server/utils.rs:7-13 | one segment is kept exactly when it is a normal name |
| Utils.SanitizeAppend | src/server/utils.rs:7-13 | sanitising a/b is sanitising a followed by sanitising b |
| Utils.SanitizeIgnoresRoot | src/server/utils.rs:7-13 | a leading `/` (RootDir) is dropped, so an absolute request path cannot escape the base |
| Utils.ParentIsDropped | src/server/utils.rs:7-13 | `..` is dropped rather than applied: a/../b sanitises to [a, b] |
| Utils.SanitizeIdempotent | src/server/utils.rs:7-13 | sanitising an already sanitised path changes nothing |
| Utils.ResolveStaysUnderBase | src/server/utils.rs:4-23 | resolution succeeds exactly when base + sanitised path exists; a resolved path starts with `<cwd>/public` and continues with normal names only |
| Response.EscapeText | src/server/response.rs:61 | `html_escape::encode_text`; EscapeRoundTrip and EscapeHasNoTags state that it is reversible and removes every tag character |
| Response.JsonEscape | src/server/response.rs:103-104 | serde_json's string escaping; JsonEscapePlain and JsonEscapeNoControl state what it changes |
| Response.StatusJson | src/server/handler.rs:27-31 | the status object `{"status":"ok","time":…}` with serde_json's sorted key order and the time passed in |
| Response.PutJson | src/server/response.rs:103-104 | `{"message":"File … was successfully updated.","status":"ok"}` with the displayed path JSON-escaped |
| Response.DeleteJson | src/server/response.rs:119 | `{"deleted":…}` with the displayed path JSON-escaped |
| Response.EscapeRoundTrip | src/server/response.rs:61 | unescaping the HTML-escaped text gives back the text |
| Response.EscapeHasNoTags | src/server/response.rs:61 | HTML-escaped text contains no `<` or `>` |
| Response.JsonEscapePlain | src/server/response.rs:103-104 | JSON string escaping leaves text without control characters, quotes or backslashes unchanged |
| Response.JsonEscapeNoControl | src/server/response.rs:103-104 | JSON-escaped text contains no control character |
| Response.FormData | src/server/response.rs:65-71 | the form text of a body; FormDataAppend, FormDataSingle, FormDataPair and FormDataSkips characterise it and BuildFormData is proved equal to it |
| Response.FormLines | src/server/response.rs:66-71 | one formatted line per `&`-piece, each formatted on its own |
| Response.BuildFormData | src/server/response.rs:65-71 | the loop over the pieces builds exactly the form text FormData specifies |
| Response.FormLinesAppend | src/server/response.rs:66-71 | the lines of two lists of pieces are the lines of each, in order |
| Response.FormDataAppend | src/server/response.rs:65-71 | the form text of a&b is the form text of a followed by that of b |
| Response.FormDataSingle | src/server/response.rs:66-71 | a body without `&` is formatted as one pair |
| Response.FormDataPair | src/server/response.rs:67-69 | key=value splits at the first `=` only and gives the escaped `key: value` line |
| Response.FormDataSkips | src/server/response.rs:68 | a piece without `=` contributes nothing |
| Response.PostPage | src/server/response.rs:53-76 | the page POST answers with; every body is white space followed by a text that is empty or starts with something other than white space: PostJsonReflected and PostDataPage give the page when that text starts with `{` (serde_json reading the body or not), PostFormPage when it does not; PostPageHasNoBodyTags and the FormData lemmas describe the escaped text |
| Response.GetReply | src/server/response.rs:10-49 | the whole GET reply; GetRootIsIndex and GetCases state its cases |
| Response.PutOutcome | src/server/response.rs:95-109 | the PUT reply and the new files; PutOnlyOverwrites states what may change |
| Response.DeleteOutcome | src/server/response.rs:112-132 | the DELETE reply and the new files; DeleteOnlyRemovesTarget states what may change |
| Response.GetRootIsIndex | src/server/response.rs:11 | `GET /` is answered exactly like `GET /index.html` |
| Response.GetCases | src/server/response.rs:10-49 | GET serves the resolved regular file with its mime type, 404 when the path does not resolve to a regular file, 500 when reading fails |
| Response.PutOnlyOverwrites | src/server/response.rs:95-109 | PUT creates and removes no path; only the resolved path can change, and then it holds the body; an unresolvable path is a 400 |
| Response.DeleteOnlyRemovesTarget | src/server/response.rs:112-132 | DELETE removes at most the resolved path, and does so exactly when it is a regular file whose I/O does not fail; an unresolvable path is a 400, a directory a 404 |
| Response.PostJsonReflected | src/server/response.rs:53-59 | a body of white space, then `{`, that serde_json reads gives the JSON page around the pretty-printed text, unescaped |
| Response.PostDataPage | src/server/response.rs:53-62 | a body of white space, then `{`, that serde_json refuses gives the data page around the HTML-escaped body |
| Response.PostFormPage | src/server/response.rs:53-76 | a body of white space followed by a text that is empty or does not start with `{` gives the form page of FormData, whatever serde_json says |
| Response.FormDataHasNoTags | src/server/response.rs:65-71 | the form text holds no `<` or `>` |
| Response.PostPageHasNoBodyTags | src/server/response.rs:53-76 | unless serde_json reads the body, the page is a fixed opening, a text with no `<` or `>`, and the fixed closing |
| Response.SendHtmlError | src/server/response.rs:161-184 | writes exactly the error reply: status line, Content-Length of the page, HTML type, date, close, blank line, page |
| Response.SendJson | src/server/response.rs:135-149 | writes exactly the JSON reply |
| Response.SendCookie | src/server/response.rs:152-158 | writes exactly one `Set-Cookie` line |
| Response.Send404Page | src/server/response.rs:187-189 | writes exactly the 404 error reply |
| Response.HandleGetRequest | src/server/response.rs:10-49 | appends exactly GetReply (characterised by GetCases) and leaves the files alone |
| Response.HandlePostRequest | src/server/response.rs:52-92 | appends exactly the 200 page of PostPage, whose form text is built by the `for pair` loop |
| Response.HandlePutRequest | src/server/response.rs:95-109 | the reply and the new files are those of PutOutcome (characterised by PutOnlyOverwrites) |
| Response.HandleDeleteRequest | src/server/response.rs:112-132 | the reply and the new files are those of DeleteOutcome (characterised by DeleteOnlyRemovesTarget) |
| Parser.FindTerminator | src/server/parser.rs:31 | the position found holds CR LF CR LF |
| Parser.FindTerminatorFirst | src/server/parser.rs:17 | the position found is the first blank line; None exactly when there is none |
| Parser.FindTerminatorAppend | src/server/parser.rs:17 | reading more bytes does not move a blank line already buffered |
| Parser.FindTerminatorNone | src/server/parser.rs:17 | no blank line in a buffer means none in any prefix of it |
| Parser.Complete | src/server/parser.rs:65-71 | the request is accepted exactly when the body has the announced length, with the decoded head and the UTF-8 body; otherwise the error is "Incomplete body" |
| Parser.RequestLine | src/server/parser.rs:35-38 | method and path are the first two words, defaulting to empty and `/`; RequestLineWords states it for a well-formed line |
| Parser.HeaderField | src/server/parser.rs:42-43 | a line with `:` gives the trimmed lower-cased name and the trimmed value; HeaderLine states it |
| Parser.DecodeHead | src/server/parser.rs:31-45 | the request line and the header map of the head; HeaderLastWins and HeaderSource characterise the map |
| Parser.ContentLength | src/server/parser.rs:47-50 | the parsed `content-length`, or 0 when it is absent or does not parse; ParseUsize and ParseDigits say what parses |
| Parser.ErrorReply | src/server/parser.rs:59-68 | what the parser writes: 413 for TooLarge, the "Incomplete body" 400 for IncompleteBody, nothing otherwise |
| Parser.ReadHead | src/server/parser.rs:16-29 | the head loop; HeadPhase, OversizedHeadPhase and UnfinishedHeadPhase give its outcomes |
| Parser.Finish | src/server/parser.rs:31-63 | decoding the head and starting the body loop on the bytes after it; FinishUnfold states it |
| Parser.ReadBody | src/server/parser.rs:52-68 | the body loop; ReadBodyOk, ReadBodyAll, ReadBodyShort and ReadBodyTooLarge give its outcomes |
| Parser.ParseSpec | src/server/parser.rs:9-72 | the parse never consumes more chunks than were sent |
| Parser.ParseRequest | src/server/parser.rs:9-72 | the loop method returns ParseSpec's outcome, writes the 413 or 400 page that outcome calls for, and consumes exactly ParseSpec's chunks |
| Parser.ReceiveHead | src/server/parser.rs:16-29 | the head loop either fails as ParseSpec does (writing its reply) or stops at a buffer holding a blank line, having written nothing, with the rest of the parse still to come |
| Parser.DecodeRequestHead | src/server/parser.rs:32-45 | the header loop builds exactly the method, path and header map of DecodeHead |
| Parser.ReceiveBody | src/server/parser.rs:52-71 | the body loop returns ReadBody's outcome, writes its 413 or 400 page and consumes ReadBody's chunks |
| ParserProperties.SuccessShape | src/server/parser.rs:31-71 | an accepted request is explained by the consumed bytes: head up to the first blank line, body exactly `Content-Length` bytes after it |
| ParserProperties.ReadBodyOk | src/server/parser.rs:52-71 | an accepted body is the buffered bytes plus the chunks read, of exactly the announced length |
| ParserProperties.AcceptsWellFormed | src/server/parser.rs:9-72 | a head ending in its only blank line, followed by exactly the announced body, at most `max_body_size` long, parses (whenever HeadFits: the head and the rest of its last read, or the whole request, within `max_body_size + 8192`) to its method, path, headers and body, consuming every chunk |
| ParserProperties.ReadBodyShort | src/server/parser.rs:53-68 | a body shorter than announced ends in "Incomplete body" after a close, or in a read error |
| ParserProperties.ReadBodyTooLarge | src/server/parser.rs:59-62 | a body loop whose peer sends more than the limit ends in 413 |
| ParserProperties.RejectsTruncatedBody | src/server/parser.rs:53-68 | a well-formed head followed by fewer body bytes than announced (at most `max_body_size`, HeadFits as above) ends in "Incomplete body" after a close |
| ParserProperties.HeadInFirstRead | src/server/parser.rs:17-65 | a first read holding a whole head and at least the announced number of further bytes ends the call after that read with the length check |
| ParserProperties.UnannouncedBytesLaterAccepted | src/server/parser.rs:47-71 | a first read ending exactly at the blank line of a head announcing no body is accepted with an empty body, and later data is never read |
| ParserProperties.UnannouncedBytesInSameReadRejected | src/server/parser.rs:52-68 | more bytes than announced in the read that completes the head give 400 "Incomplete body" |
| ParserProperties.BodyOvershootInLaterRead | src/server/parser.rs:52-68 | a head ending with its read, then a read longer than the announced body, gives 400 "Incomplete body" after two reads |
| ParserProperties.RejectsOversizedHead | src/server/parser.rs:25-28 | more than `max + 8192` bytes without a blank line is rejected with 413 |
| ParserProperties.SilentOnUnfinishedHead | src/server/parser.rs:18-21 | a peer that stops before the blank line, within the limit, gets no reply from the parser |
| ParserProperties.HeaderLastWins | src/server/parser.rs:40-45 | a header's value is the one on its last line |
| ParserProperties.HeaderSource | src/server/parser.rs:40-45 | every header in the map comes from a line, the last one with that name |
| ParserProperties.HeaderLine | src/server/parser.rs:42-43 | `Name: value` gives the lower-cased trimmed name and the trimmed value, even when the value holds `:` |
| ParserProperties.RequestLineWords | src/server/parser.rs:35-38 | `VERB PATH VERSION` yields the verb and the path |
| RateLimiting.Entry | src/server/rate_limiter.rs:25 | `entry(ip).or_insert_with(Vec::new)`: the address's list, or empty for a new address |
| RateLimiting.Check | src/server/rate_limiter.rs:26-33 | prune, then refuse when the recent list is full or record `now`; CheckKeepsOrder, RefusedIsNotRecorded, ZeroAdmitsNothing, QuietClientIsAdmitted and WindowBound characterise it |
| RateLimiting.Recent | src/server/rate_limiter.rs:26 | `retain` keeps an instant exactly when it was in the list and is younger than the window, and never lengthens the list |
| RateLimiting.RateLimiter.NewWithLimits | src/server/rate_limiter.rs:13-19 | an empty map, the window in nanoseconds, the given maximum |
| RateLimiting.RateLimiter.IsRateLimited | src/server/rate_limiter.rs:21-34 | the verdict and the address's new list are Check's: recent instants kept, `now` added only when admitted, other addresses untouched |
| RateLimiting.RecentSorted | src/server/rate_limiter.rs:26 | pruning keeps the list in time order |
| RateLimiting.CheckKeepsOrder | src/server/rate_limiter.rs:25-33 | a check keeps each list sorted, no longer than the maximum and not later than now |
| RateLimiting.RefusedIsNotRecorded | src/server/rate_limiter.rs:28-33 | a call is refused exactly when its instant is not recorded |
| RateLimiting.ZeroAdmitsNothing | src/server/rate_limiter.rs:28-29 | with a maximum of 0 every call is refused and nothing is added |
| RateLimiting.QuietClientIsAdmitted | src/server/rate_limiter.rs:26-33 | a client whose earlier calls are all older than the window is admitted, with only this call recorded |
| RateLimiting.Stored | src/server/rate_limiter.rs:21-34 | after a series of calls the list never exceeds the maximum and holds only instants of those calls |
| RateLimiting.RecentLater | src/server/rate_limiter.rs:26 | pruning at an earlier instant and then at now is pruning at now |
| RateLimiting.StoredIsAdmittedInWindow | src/server/rate_limiter.rs:21-34 | within any window the stored list holds exactly the admitted calls |
| RateLimiting.WindowBound | src/server/rate_limiter.rs:21-34 | no window holds more admitted calls than the maximum |
| RateLimiting.FirstTwoAdmitted | src/server/rate_limiter.rs:28-33 | with a maximum of 2, the first two calls within a window are admitted and recorded |
| RateLimiting.ThirdRefused | src/server/rate_limiter.rs:28-29 | a third call in the same window is refused and the list is unchanged |
| RateLimiting.AdmittedAfterExpiry | src/server/rate_limiter.rs:26-33 | once the oldest call leaves the window, the next call is admitted |
| RateLimiting.Scenario | src/server/rate_limiter.rs:13-34 | a limiter of 2 per 60 s answers calls at 0 s, 10 s, 20 s and 61 s with admit, admit, refuse, admit |
| Handler.RouteOf | src/server/handler.rs:21-61 | the route the match arms select; RouteTable, MethodCaseIgnored and PathCaseMatters characterise it |
| Handler.RouteReply | src/server/handler.rs:24-62 | the reply and file update of each route |
| Handler.Respond | src/server/handler.rs:19-77 | the routed reply plus the cookie for a parsed request, the 400 page otherwise; ServeAccepted, ServeRejected and OnlyPutAndDeleteWrite characterise it |
| Handler.Serve | src/server/handler.rs:16-79 | what one connection gets: the parser's reply followed by Respond's; its cases are ServeAccepted, ServeOversizedHead, ServeTruncatedBody and ServeUnfinishedHead |
| Handler.RouteTable | src/server/handler.rs:21-61 | each route is taken exactly when the upper-cased method and the exact path select it, in the order of the match arms |
| Handler.MethodCaseIgnored | src/server/handler.rs:21 | a method's case does not change its route |
| Handler.PathCaseMatters | src/server/handler.rs:26 | `/API/STATUS` is not the status endpoint: it goes to the generic GET |
| Handler.HandleConnection | src/server/handler.rs:16-79 | writes exactly Serve's bytes (parser reply, then the routed or 400 reply, then the cookie), leaves the files as Serve says and consumes ParseSpec's chunks |
| Handler.Dispatch | src/server/handler.rs:24-62 | writes exactly the routed reply and updates the files as that route does |
| Handler.ServeAccepted | src/server/handler.rs:19-67 | a well-formed request (body within 10 MiB, HeadFits) gets its routed reply followed by the session cookie exactly when it carried no `cookie` header |
| Handler.ServeRejected | src/server/handler.rs:70-77 | a failed parse gets the parser's own reply followed by the handler's 400, and no file changes |
| Handler.ServeOversizedHead | src/server/handler.rs:70-77 | an oversized head gets 413 and then a second response, 400 |
| Handler.ServeTruncatedBody | src/server/handler.rs:70-77 | a truncated body (within 10 MiB, HeadFits) gets the "Incomplete body" 400 and then the handler's 400 |
| Handler.ServeUnfinishedHead | src/server/handler.rs:70-77 | a peer that stops before the head ends still gets the handler's 400 |
| Handler.OnlyPutAndDeleteWrite | src/server/handler.rs:44-47 | the files change only for a parsed PUT or DELETE request |
| Handler.GetAfterPut | src/server/handler.rs:44-46 | after a successful PUT, a GET of the same path is served the uploaded body with the resolved file's MIME type |
| Connection.Identity | src/server/connection.rs:12-15 | the peer's address, or 0.0.0.0 when it is unknown |
| Connection.HandleHttpConnection | src/server/connection.rs:8-24 | always Ok; the limiter decides on the peer address or 0.0.0.0; a refused client gets exactly the 429 page with nothing read and no file touched, any other client is served as by HandleConnection |
| Framing.HeadEndsInBreak | src/server/response.rs:168-175 | every response head ends in CR LF |
| Framing.HeadHasNoBlankLine | src/server/response.rs:168-175 | header lines without line breaks put no blank line inside the head |
| Framing.ReplyFraming | src/server/response.rs:168-183 | a response's first blank line ends its header lines and everything after it is the body |
| Framing.HtmlErrorFraming | src/server/response.rs:161-184 | an error reply announces its page's length, and the bytes after the first blank line are exactly that page |
| Framing.JsonFraming | src/server/response.rs:135-149 | a JSON reply announces the JSON's length, and the bytes after the first blank line are exactly the JSON |
| Framing.ReplyThenMore | src/server/handler.rs:65-67 | bytes written after a framed response land after its body, not among its header lines |
| Framing.CookieFollowsBody | src/server/handler.rs:55-67 | for a 405 without a `cookie` header, the `Set-Cookie` line comes after the announced page, so it is not a header of the response |

## Left out

- The worker pool (`thread_pool.rs`), `main.rs`, `config.rs` and `mod.rs` are not part of this model. `rate_limiter.enabled` is never read (src/main.rs:32-35, src/server/connection.rs:17), so a limiter always applies.
- Concurrency is not modelled. The limiter's mutex makes `is_rate_limited` atomic, and `IsRateLimited` is one atomic method call.
- Write and flush errors are discarded by the server. The model's `Write` always succeeds. Logging (`error!`) is not modelled.
- Unicode is handled as ASCII only. Trimming, case mapping and `split_whitespace` use ASCII whitespace and letters.
- `from_utf8_lossy` on the head is not modelled: the raw head bytes are decoded. Only the body's UTF-8 check is modelled.
- The date, the status time, the working directory, MIME guessing and serde_json's parse and pretty-print are parameters in `Response.Env`. The JSON texts are written out with serde_json's default key order, sorted by key (the `preserve_order` feature off), and its string escaping.
- `env::current_dir().unwrap()` (src/server/utils.rs:15) panics when the working directory cannot be read. The worker thread then dies and no reply is written. The model's working directory is always known.
- One date string serves a whole connection, although each `http_date()` call reads the clock again.
- `resolve_safe_path` tests existence against the model's map. Symbolic links, non-UTF-8 names and `Path::exists` errors are not modelled.
- A peer that never sends and never closes blocks the server. The model's stream always ends, with a close or a read error.
- `max_body_size + 8192` cannot overflow for the fixed 10 MiB limit, so it is plain integer addition.
- `Instant` is a natural number of nanoseconds, and `now` is a parameter that never goes backwards.
- Parse errors carry a reason (too large, incomplete body, read error, closed). The source returns `Err(())`. The reason only selects which reply the parser wrote, and the handler ignores it.
- ParserProperties.ReadBodyTooLarge: the body-phase 413 is proved about the body loop, not restated for the whole parse.
- Framing: the framing proof covers the error and JSON replies and the 405-plus-cookie case. It does not cover the file, page and OPTIONS replies, whose headers come from the date, MIME and body parameters.
