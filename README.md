# minigrep and the request matching of the tutorial web server, in Dafny

This project models two small programs from a collection of Rust tutorial
projects.

- **minigrep** (`minigrep/src/lib.rs`) is a line search tool.
  - `Config::new` reads the query and the file name from the command line.
  - The `CASE_INSENSITIVE` environment variable picks the kind of search.
  - `search` returns the lines of a text that contain the query.
  - `case_insensitive_search` does the same after lowercasing both the query and each line.
  - `run` chooses between the two searches.
- **The web server's `match_request`** (`web-server/src/bin/main.rs`) answers every connection.
  - A buffer that starts with the bytes `GET / HTTP/1.1` followed by CRLF gets `HTTP/1.1 200 OK ` and the hello page.
  - Anything else gets `HTTP/1.1 404 NOT FOUND` and the 404 page.

Files:

- `wrappers.dfy` (`Wrappers`): `Option` and `Result`.
- `slices.dfy` (`Slices`):
  - `starts_with` and `contains` on sequences, with an occurrence-based characterisation of `contains`.
  - `IndexOf`, which finds the first occurrence.
  - The iterator `filter`, with the exact positions it keeps.
- `str.dfy` (`Str`): `str::lines` and an ASCII `to_lowercase`, with their round-trip and idempotence lemmas.
- `minigrep.dfy` (`Minigrep`): `Config::new`, the two searches, `run`'s choice between them, and what they promise.
- `minigrep_tests.dfy` (`MinigrepTests`): the two unit tests of `lib.rs` as lemmas.
- `web_server.dfy` (`WebServer`): the server's request matching.
  - `match_request` and the 512-byte buffer `handle_connection` passes to it.
  - A request-line parser after section 3 of RFC 9112.
  - A response formatter and parser after section 4 of RFC 9112. They are the partner definitions that the lemmas about `match_request` are stated against.

Pages, file contents, command-line arguments, the environment and the bytes a connection delivers are all parameters. The model reads no files and opens no sockets.

## Model

| member | source | states |
|---|---|---|
| Slices.StartsWithIffOccursAtStart | web-server/src/bin/main.rs:39 | `starts_with` holds exactly when the prefix occurs at position 0, which fails for any sequence shorter than the prefix |
| Slices.ContainsIffOccurs | minigrep/src/lib.rs:57 | `contains` (the predicate `Slices.Contains`, which tries each start position from the left) holds exactly when the pattern occurs as a contiguous run at some position of the line |
| Slices.Filter | minigrep/src/lib.rs:56-58 | `filter(..).collect()` returns no more elements than it was given, and each of them is accepted by the predicate |
| Slices.FilterSelects | minigrep/src/lib.rs:56-58 | `filter` keeps exactly the accepted elements, unchanged and in their original order: result j is the element at the j-th kept position, the positions increase, and a position is kept iff its element is accepted |
| Str.Lines | minigrep/src/lib.rs:56 | no line that `lines` yields contains a line feed |
| Str.LinesOfLfTerminated | minigrep/src/lib.rs:56 | text written as lines, each followed by `\n`, is split by `lines` back into exactly those lines |
| Str.LinesOfCrlfTerminated | minigrep/src/lib.rs:56 | text written as lines, each followed by `\r\n`, is split back into exactly those lines, with the `\r` removed |
| Str.FinalNewlineOptional | minigrep/src/lib.rs:56 | a final `\n` adds no empty last line |
| Str.ToLowercase | minigrep/src/lib.rs:63-66 | lowercasing keeps the length, leaves no upper-case letter, keeps every other character and maps each upper-case letter to its lower-case form |
| Str.LowercaseIdempotent | minigrep/src/lib.rs:63-66 | lowercasing a lowercased text changes nothing |
| Str.LowercaseSlice | minigrep/src/lib.rs:66 | lowercasing commutes with taking a slice, so it works character by character |
| Minigrep.NewConfig | minigrep/src/lib.rs:14-31 | an error exactly when the query or the file name is missing after the program name, with the same message in both cases; otherwise query = second argument, filename = third, and case-sensitive exactly when `CASE_INSENSITIVE` is absent |
| Minigrep.NewConfigRoundTrip | minigrep/src/lib.rs:16-30 | a command line made of a program name, a configuration's query and file name, and any further arguments parses back to that configuration |
| Minigrep.NewConfigIgnoresVariableValue | minigrep/src/lib.rs:28 | only the presence of `CASE_INSENSITIVE` matters, not its value |
| Minigrep.Search | minigrep/src/lib.rs:54-59 | the result is a subsequence of the text's lines, and every returned line contains the query |
| Minigrep.SearchSelectsMatchingLines | minigrep/src/lib.rs:54-59 | `search` returns exactly the lines that contain the query, unchanged and in their original order |
| Minigrep.CaseInsensitiveSearch | minigrep/src/lib.rs:61-68 | the result is a subsequence of the text's lines, and every returned line's lowercase form contains the lowercased query |
| Minigrep.CaseInsensitiveSelectsMatchingLines | minigrep/src/lib.rs:61-68 | `case_insensitive_search` returns exactly the original (not lowercased) lines whose lowercase form contains the lowercased query, in order |
| Minigrep.SearchNoLongerThanText | minigrep/src/lib.rs:54-68 | neither search returns more lines than the text has |
| Minigrep.CaseInsensitiveIgnoresQueryCase | minigrep/src/lib.rs:63 | two queries that differ only in letter case give the same case-insensitive result |
| Minigrep.ContainsLowercased | minigrep/src/lib.rs:66 | a line that contains the query still contains it once both are lowercased |
| Minigrep.SearchWithinCaseInsensitive | minigrep/src/lib.rs:54-68 | the lines `search` returns are a subsequence of, and so all among, the lines `case_insensitive_search` returns |
| Minigrep.EmptyQueryKeepsEveryLine | minigrep/src/lib.rs:54-68 | the empty query keeps every line in both searches |
| Minigrep.SelectResults | minigrep/src/lib.rs:41-45 | `run`'s results are, in order, lines of the text whose lowercase form contains the lowercased query, and, when the search is case-sensitive, each of them contains the query as written |
| Minigrep.RunSearchesAsConfigured | minigrep/src/lib.rs:14-45 | from a full command line, `run` searches for the second argument, case-insensitively exactly when `CASE_INSENSITIVE` is set |
| MinigrepTests.OneResultLines | minigrep/src/lib.rs:78-82 | the `one_result` text splits into its five lines, the first being `/` |
| MinigrepTests.OneResult | minigrep/src/lib.rs:74-88 | `search("duct", ..)` on the test text yields exactly `["safe, fast, productive."]`; `Duct tape.` is left out |
| MinigrepTests.AsWrittenTestFails | minigrep/src/lib.rs:101-104 | `search("rUsT", ..)`, which the `case_insensitive` test calls, returns no line at all, so not the expected `["Rust:", "Trust Me"]` |
| MinigrepTests.CaseInsensitiveFindsRust | minigrep/src/lib.rs:90-107 | `case_insensitive_search("rUsT", ..)` on the test text yields exactly `["Rust:", "Trust Me"]` |
| WebServer.ParseRequestLine | web-server/src/bin/main.rs:37 | a parsed request line is well-formed, and the buffer starts with its three parts joined by spaces and ended by CRLF |
| WebServer.RequestLineRoundTrip | web-server/src/bin/main.rs:37 | every well-formed request line at the start of a buffer parses back to itself, whatever follows it |
| WebServer.RootRequestBytes | web-server/src/bin/main.rs:37 | the matched byte string is the request line `GET`, `/`, `HTTP/1.1` as sent |
| WebServer.ParseResponse | web-server/src/bin/main.rs:42-47 | a parsed response is well-formed, and the text is exactly its status line, the blank line and its body |
| WebServer.ResponseRoundTrip | web-server/src/bin/main.rs:42-47 | every well-formed response without header fields parses back to itself, whatever its body holds |
| WebServer.HelloIsFormatted | web-server/src/bin/main.rs:42 | the hello head, with its space after `OK`, is the format of status 200 with reason `OK ` |
| WebServer.NotFoundIsFormatted | web-server/src/bin/main.rs:47 | the 404 head is the format of status 404 with reason `NOT FOUND` |
| WebServer.MatchRequest | web-server/src/bin/main.rs:35-49 | read as HTTP, the answer is exactly one of the two responses: 200 `OK ` with the hello page when the buffer starts with the request bytes, 404 `NOT FOUND` with the 404 page otherwise; the page is the body, unmodified |
| WebServer.ServesHelloExactlyForRoot | web-server/src/bin/main.rs:37-39 | the buffer matches exactly when its request line parses as `GET / HTTP/1.1` |
| WebServer.OtherRequestsNotFound | web-server/src/bin/main.rs:39-48 | any other method, target or version gets the 404 page, whatever follows the request line |
| WebServer.DecidedByPrefix | web-server/src/bin/main.rs:37-39 | two buffers that agree on their first 16 bytes get the same answer |
| WebServer.TrailingBytesIgnored | web-server/src/bin/main.rs:37-39 | bytes after the first 16 do not change the answer |
| WebServer.ShortBufferNotFound | web-server/src/bin/main.rs:39-47 | a buffer shorter than 16 bytes gets the 404 page |
| WebServer.BodyFollowsFirstBlankLine | web-server/src/bin/main.rs:42-47 | the chosen page is exactly what follows the first `\r\n\r\n` of the answer |
| WebServer.ReceivedBuffer | web-server/src/bin/main.rs:53-54 | the buffer is 512 bytes: the bytes received, then zeros |
| WebServer.PaddingDoesNotDecide | web-server/src/bin/main.rs:53-56 | the zero padding neither makes nor breaks a match, so the hello page is served exactly when the received bytes start with the request line, even when fewer than 16 arrived |

## Left out

- The thread pool of the web server (`web-server/src/lib.rs`: `ThreadPool`, `Worker`, `Message`, `Drop`) is left out. It is concurrency (threads, a shared channel, `join`), and its guarantees depend on scheduling.
- `main` of the web server is left out: it is a TCP accept loop.
- `handle_connection`'s socket read, write and flush are left out. Only the buffer the read leaves behind is modelled, by `ReceivedBuffer`.
- `get_page`'s file reads, and its panics on a missing file, are left out. The pages are parameters.
- `minigrep/src/main.rs` is left out: process exit codes, `env::args` and error printing.
- `run`'s file opening, its reading into a `String` and its printing of each result are left out; they are I/O. `run`'s I/O errors are not modelled.
- The UTF-8 encoding of the response (`as_bytes`) is left out. Responses are modelled as character strings.
- WebServer.ParseResponse: it reads only responses without header fields, which is what `match_request` sends. Section 4 of RFC 9112 allows header fields between the status line and the blank line.
- WebServer.ParseRequestLine: method, target and version are split at spaces but not checked against the token, request-target and HTTP-version grammars of RFC 9112.
- Str.ToLowercase: ASCII letters only. Rust's `to_lowercase` applies full Unicode case mapping, which depends on context and on the standard library's tables.
- Minigrep.SearchWithinCaseInsensitive: it holds under the ASCII lowercasing of this model. It is not shown for full Unicode lowercasing.
- Str.Lines: follows `lines` as Rust defined it when this code was written. It splits at `\n` and drops one trailing `\r` from every line, the last one included. Current Rust drops a `\r` only when a `\n` follows it.
- Minigrep.NewConfig: the environment is a map from names to strings. `env::var` also fails when the value is not valid Unicode, and the source then searches case-sensitively. The model does not capture that case.

## Findings

| source | as written | input that shows it | evidently intended | confidence | as-written member | corrected member |
|---|---|---|---|---|---|---|
| minigrep/src/lib.rs:101-104 | the `case_insensitive` test calls `search`, which matches case-sensitively; setting `CASE_INSENSITIVE` at line 93 does not affect `search` | query `"rUsT"` on the test's five-line text: no line contains `rUsT`, so `search` returns `[]`, not `["Rust:", "Trust Me"]` | the test should call `case_insensitive_search`, which returns `["Rust:", "Trust Me"]` | not executed | MinigrepTests.AsWrittenTestFails | MinigrepTests.CaseInsensitiveFindsRust |
