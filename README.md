# serena, the live-reload file server, in Dafny

serena serves the files of one directory over HTTP. Every HTML page it
serves has a small script appended. The script opens a Server-Sent Events
stream on `/__serena`. A background thread watches the directory and
broadcasts a signal whenever a file is written, removed or renamed, or the
directory had to be rescanned. Each open stream turns each signal into a
`data: reload` frame, and the browser reloads the page.

The model covers the decisions and traces of that core:

- **Routing** (modules `Handlers` and `Server`). A request goes to the event
  stream, to file transfer, or (in the binary only) to 404. There are two
  copies of this routing, one in the handlers and one in the binary, and they
  differ. Both are modelled, and a lemma states exactly where they differ.
- **File transfer** (module `Handlers`).
  - Building the file path: leading `/` and `.` are trimmed, the rest is
    joined under the root, and a directory gets `index.html` appended.
  - The case-sensitive `html` extension test.
  - Script injection into HTML pages.
  - The 404/500 error mapping and the optional content-type header.

  The file system is a value: which paths are directories, which can be
  opened, and the text of those that can be read. The content-type lookup is
  a function parameter.
- **One event-stream session** (module `Handlers`). The keep-alive loop and
  the forwarding loop are methods over finite traces of send results and
  receive outcomes. Each is proved equal to a specification function, and
  lemmas give the shape of those functions. Module `Sse` is the client-side
  parser from section 9.2.5 ("Parsing an event stream") of the WHATWG HTML
  Living Standard, cut down to comments, the `data` field and dispatch.
  Against this parser the model proves two things about the frames:
  - a keep-alive frame dispatches nothing, and a reload frame dispatches
    exactly one message;
  - however the two loops' frames interleave on their shared channel, the
    client dispatches one `reload` message per forwarded signal.
- **The file watcher** (module `FileWatching`).
  - `FileWatcher` is a class with the source's two optional fields, its
    constructor, `Subscribe`, and `Drop`. `Drop` records the order of its
    steps, including the case where the join reports a panicked thread.
  - The watch thread's receive loop is a method over a finite trace of
    received items. It is proved to signal exactly at the write, remove,
    rename and rescan events, in order, whatever the send outcomes.
- **Paths** (module `Paths`). The part of `std::path` the handlers rely on:
  `join`, `file_name` and `extension` on Unix paths held as strings.

Where the design intent and the code differ, the model follows the code:

- A lagged broadcast receiver ends forwarding, like a closed channel. It is
  not treated as one more signal (src/handlers.rs:152-154).
- The two loops of a session are independent. Each stops on its own failed
  send, and nothing makes the other stop.
- The handlers' router sends `/__serena` without a subscription to file
  transfer. The binary's router answers 404 (src/main.rs:58-65). The binary
  uses its own router.
- If setting up the OS watcher fails, the `unwrap` calls at
  src/file_watcher.rs:43-44 panic, but only on the watch thread. Startup
  goes on, the server keeps serving, and the watcher keeps its sender. So
  `/__serena` still opens an event stream, but that stream never carries a
  reload.
- `Drop` joins the watch thread and unwraps the result. The join comes back
  only if the thread panicked, and then the `unwrap` panics too, so the
  sender is never cleared after a join (src/file_watcher.rs:34-37).
- Trimming stops at the first character that is not `/` or `.`, so `..`
  components later in a request path survive. The resolved path starts with
  the root as a string, but under a root other than `/` a raw request such
  as `/a/../../etc/passwd` names a file outside the root once the operating
  system follows the `..` components (src/handlers.rs:99-100). Browsers
  normalise such paths before sending them; other clients need not.
- The same trimming removes the leading dot of a hidden first component:
  `/.env` resolves to `<root>/env` and `/.well-known/x` to
  `<root>/well-known/x`, so a dotfile directly under the root cannot be
  served (`LeadingDotsAndSlashesIgnored` with the prefix `/.`).
- src/main.rs:8-11 imports `not_found`, `refresh_events` and `transfer_file`,
  which src/handlers.rs does not declare `pub`. The model treats them as
  reachable from the binary.

## Model

| member | source | states |
|---|---|---|
| Strings.TrimStartMatches | src/handlers.rs:99-100 | the result is a suffix of the input, every removed character is `/` or `.` (a character of the set), and the result is empty or starts with a character outside the set |
| Strings.TrimStartMatchesAbsorbs | src/handlers.rs:99-100 | prepending any mix of trimmed characters does not change the result, and trimming twice is trimming once |
| Paths.Join | src/handlers.rs:100-102 | an absolute part replaces the base; otherwise the result starts with the base, ends with the part, and has at most one separator inserted between them |
| Paths.JoinInsertsSeparator | src/handlers.rs:100-102 | for a relative part, a separator is inserted exactly when the base is non-empty and does not already end with one, which together with `Join`'s contract fixes the joined string |
| Paths.FileName | src/handlers.rs:91 | a file name, when there is one, is a normal component: non-empty, not `.` or `..`, free of separators |
| Paths.FileNameIsLastComponent | src/handlers.rs:91 | a file name, when there is one, is a whole component of the path followed only by separators and `.` components |
| Paths.FileNameFindsComponent | src/handlers.rs:91 | conversely, a normal component followed only by separators and `.` components is the file name |
| Paths.RootHasNoFileName | src/handlers.rs:91 | the empty path and a path of separators only have no file name |
| Paths.ParentHasNoFileName | src/handlers.rs:91 | a path whose last component is `..` (followed only by separators and `.` components) has no file name |
| Paths.PathExtension | src/handlers.rs:91-92 | no extension exactly when there is no file name or the file name has no `.` after its first character; otherwise the extension is the dot-free end of the file name after its last `.` |
| Paths.FileNameOfJoin | src/handlers.rs:102 | joining a normal component onto any base makes that component the file name |
| Paths.Extension | src/handlers.rs:91-92 | no extension exactly when the name is `..` or has no `.` after its first character; otherwise the extension is the dot-free text after the last `.` |
| Sse.FeedConcat | src/handlers.rs:127 | the client's parse of the stream does not depend on how the transport splits it |
| FileWatching.FileWatcher.constructor | src/file_watcher.rs:11-21 | the new watcher holds a sender of capacity 32 and a watch thread for the directory that has its own clone of that sender |
| FileWatching.FileWatcher.Subscribe | src/file_watcher.rs:23-29 | a receiver exactly when the sender field is present, on a channel of the sender's capacity; it reads the watcher and changes nothing |
| FileWatching.FileWatcher.Drop | src/file_watcher.rs:32-39 | the thread is always taken; if the join returns, it happens before the sender is cleared, and afterwards nobody can subscribe; if the thread had panicked, the failed unwrap ends `drop` with the sender still in place |
| FileWatching.WatchForFileChanges | src/file_watcher.rs:41-79 | a failed watcher set-up sends nothing; otherwise every received item is handled, with no early exit, and the signals sent are `SignalPositions` of the trace, whatever the discarded send results |
| FileWatching.SignalPositionsExact | src/file_watcher.rs:49-75 | one signal per write, remove, rename or rescan event and none for other events or receive errors, listed in strictly increasing arrival order and complete |
| FileWatching.SignalPositionsAppend | src/file_watcher.rs:46-79 | handling is compositional: the signals for a trace are those of its first part followed by those of the rest, shifted by the first part's length |
| Handlers.IsRefreshRequest | src/handlers.rs:31-42 | a subscription exactly when the path is `/__serena`, a watcher is configured and its sender is present, and then it is the watcher's `Subscribe()` |
| Handlers.HandleRequest | src/handlers.rs:19-29 | the event stream exactly when the path is `/__serena` and the watcher gives a subscription, with that receiver; every other request, `/__serena` without a subscription included, is a file transfer of the unchanged path under the given root |
| Handlers.Respond | src/handlers.rs:24-27 | only a dispatch to the event stream gets an event body, with status 200 and the event-stream content type; a dispatch to 404 gets the empty 404; a file transfer gets 404 exactly when the resolved file cannot be opened |
| Handlers.NotFound | src/handlers.rs:44-49 | status 404, no headers, empty body |
| Handlers.BuildFilePath | src/handlers.rs:98-105 | the trimmed path joined under the root; when that is a directory, exactly one `index.html` is appended and becomes the file name; otherwise the joined path unchanged; the result starts with the root as a string |
| Handlers.ParentComponentsSurviveTrimming | src/handlers.rs:99-100 | trimming keeps every `..` component after the first kept character: `/<name>/../../<rest>` trims to `<name>/../../<rest>`, and the resolved path starts with the root joined with that text and equals it unless that is a directory; the contract compares strings only, and that the file lies outside the root (for a one-component `<name>` under a root other than `/`) is what the operating system makes of such a path, not something the model states |
| Handlers.LeadingDotsAndSlashesIgnored | src/handlers.rs:99-100 | any number and mix of leading `/` and `.` characters resolve to the same file as the path without them (so `/../x` names `x` under the root) |
| Handlers.DirectoryResolvesToHtml | src/handlers.rs:101-103 | a directory always resolves to a file that the HTML test accepts |
| Handlers.DirectoryRequestResolvesToIndex | src/handlers.rs:98-105 | a directory request and the request for its `index.html` resolve to the same file |
| Handlers.DirectoryRequestServesIndex | src/handlers.rs:51-62 | a directory request and the request for its `index.html` get the same response |
| Handlers.SlashedDirectoryRequestResolvesToIndex | src/handlers.rs:98-105 | a directory request ending in a separator, such as `/docs/`, resolves to the same file as `/docs/index.html` |
| Handlers.SlashedDirectoryRequestServesIndex | src/handlers.rs:51-62 | such a request gets the same response as the request for its `index.html` |
| Handlers.IsHtmlFile | src/handlers.rs:90-96 | a path the test accepts has a file name ending in `.html` with at least one character before the dot; `IsHtmlFileIffSuffix` gives the converse |
| Handlers.IsHtmlFileIffSuffix | src/handlers.rs:90-96 | a path is HTML exactly when its file name ends in `.html` with at least one character before the dot; no file name or no extension means not HTML |
| Handlers.JoinedNameIsHtml | src/handlers.rs:90-96 | for a name joined under any directory, the test depends on the name's `.html` suffix alone |
| Handlers.HtmlTestIsCaseSensitive | src/handlers.rs:92 | `index.HTML` is not HTML |
| Handlers.HiddenNameIsNotHtml | src/handlers.rs:91-95 | a file named `.html` has no extension and is not HTML |
| Handlers.HtmlResponse | src/handlers.rs:64-74 | a readable page gives 200 with no headers, the file text as prefix, the script as suffix and the sum of their lengths; an unreadable one gives 500 with `Failed to read file` |
| Handlers.FileStreamResponse | src/handlers.rs:76-88 | status 200 streaming the file; the content-type header is exactly the lookup's answer, with no header when the lookup gives none |
| Handlers.TransferFile | src/handlers.rs:51-62 | 404 with an empty body exactly when the resolved file cannot be opened; 500 exactly when it is an opened HTML file that cannot be read; a readable HTML page gets 200 with no headers and carries the script; any other file is streamed with status 200 and the looked-up content type |
| Handlers.ScriptTargetsReloadEndpoint | src/handlers.rs:107-114 | the injected script names the endpoint the router recognises |
| Handlers.EventStreamResponse | src/handlers.rs:122-128 | status 200 with an event-stream body and the headers content-type `text/event-stream`, cache-control `no-cache` and connection `keep-alive` |
| Handlers.KeepAlive | src/handlers.rs:131-141 | the steps are `KeepAliveSteps` of the send results, and the loop ends exactly when some send fails |
| Handlers.KeepAliveAlternates | src/handlers.rs:133-139 | the loop alternates a comment frame and a sleep, with a frame first, once per send before the first failure |
| Handlers.KeepAliveSendsComments | src/handlers.rs:135-137 | only `:` comment frames are sent, one per send before the first failure |
| Handlers.MapRefreshEvents | src/handlers.rs:143-158 | the frames are `ForwardFrames` of the trace, and forwarding ends exactly when a send fails or a receive errs, lagged or closed alike |
| Handlers.ForwardFramesShape | src/handlers.rs:145-155 | one `data: reload` frame per signal received before the first outcome that ends forwarding, and nothing else |
| Handlers.ForwardingStopsAtFirstEnd | src/handlers.rs:148-154 | nothing is forwarded after the first failed send or receive error, whatever follows it |
| Handlers.RefreshEvents | src/handlers.rs:116-129 | the response is the event-stream response, and each loop's output depends only on its own trace: neither loop stops the other |
| Handlers.KeepAliveFrameDispatchesNothing | src/handlers.rs:135 | as the event-stream parser reads it, the keep-alive frame leaves the client's state unchanged |
| Handlers.ReloadFrameDispatchesOneMessage | src/handlers.rs:148 | as the event-stream parser reads it, the reload frame dispatches exactly one message, with data `reload` |
| Handlers.ClientSeesOneMessagePerReloadFrame | src/handlers.rs:116-120 | for any interleaving of keep-alive and reload frames on the shared channel, the client dispatches one `reload` message per reload frame and nothing else |
| Handlers.SessionReloadsOncePerForwardedSignal | src/handlers.rs:116-158 | for a whole session, whatever the interleaving of the two loops, the page gets one reload message per signal received before forwarding stopped |
| Server.CreateWatcher | src/main.rs:28-32 | no watcher exactly when automatic reloading is disabled; otherwise a new watcher for the configured directory |
| Server.HandleRequest | src/main.rs:52-69 | the event stream for `/__serena` with a subscription, with that receiver; 404 for `/__serena` without a watcher or without a subscription; a file transfer of the unchanged path for every other path |
| Server.Route | src/main.rs:34-40 | every connection routes with the same root, the configured directory, and passes the path on unchanged |
| Server.RoutersDifferOnlyWithoutSubscription | src/main.rs:58-65 | the two routers disagree exactly on `/__serena` without a subscription: there the binary answers 404 and the handlers transfer the file |
| Server.RoutersRespondAlikeWithoutReloadFile | src/main.rs:65 | when no file `__serena` can be opened under the root, both routers answer `/__serena` without a subscription with the same 404 |
| Server.ReloadEndpointAvailability | src/main.rs:28-40 | with the watcher the binary creates, `/__serena` reaches the event stream exactly when automatic reloading is enabled, and 404 otherwise |

## Left out

- The broadcast channel's queueing, its drop-oldest policy and its lag counting are library behaviour. Receive outcomes are an input trace (`Delivery`), and receivers and senders carry only their capacity.
- Constructing the OS file watcher, its 200 ms debounce and its recursive watch (src/file_watcher.rs:42-44) are calls into the notify library. Its events are an input trace (`Received`).
- Spawning and joining threads are concurrency. `Drop` records the order of its steps.
- FileWatching.FileWatcher.Drop: the join's outcome is a parameter. `Joined` stands for a join that returns normally. The watch loop has no exit, so in the program such a join never returns. The model does not capture that hang.
- Task spawning, the 15-second sleep and their timing are concurrency. Only the order of steps within each loop is modelled. How the two loops' frames interleave is left open, and that is the `Interleaves` predicate.
- Everything hyper does is I/O: the server setup, connections, response building and byte streaming of files. A response is a status, a header list and a body description.
- Opening, reading and directory tests of files are I/O. They are the `FileSystem` value.
- `content_type_from_path` lives in a module that is not part of this model. It is a parameter `string -> Option<string>`. Its answers are assumed to be valid header values: src/handlers.rs:84 unwraps `HeaderValue::from_str` of the answer, so an answer with a control character (such as a newline) would panic the request and send no response, while `FileStreamResponse` and `TransferFile` return 200 with that header.
- Paths.Join, Paths.FileName, Paths.Extension: Unix-style string paths only, with no normalisation, OS strings or non-UTF-8 names. Two paths are the same file exactly when their strings are equal.
- Handlers.DirectoryRequestResolvesToIndex, Handlers.DirectoryRequestServesIndex, Handlers.SlashedDirectoryRequestResolvesToIndex, Handlers.SlashedDirectoryRequestServesIndex: two cases are not stated.
  - A directory request that ends in `/`, compared with `<dir>//index.html`. That doubled separator is a different string, although `std::path` names the same file.
  - An `index.html` that is itself a directory. There the source appends a second `index.html` to the explicit request, so the two responses really do differ.
- Command-line parsing (src/opts.rs) is a clap wrapper. Its only rule, that an unparsable port falls back to 3000, rests on the standard library's integer parser. `Opts.port` is a plain natural number.
- Logging with `println!` and `eprintln!` is output only.
- Sse.Feed: reads only comments, the `data` field and dispatch on a blank line, with LF line endings. The `event`, `id` and `retry` fields and CR endings are not modelled. The server's frames use none of them.
- The sharing of one watcher across connections through `Arc` is not modelled. The watcher is passed to the routers as the same object, which they only read.
- `build_file_path` and `html_response` update a local variable once (a reassignment, a `push_str`). They are modelled as functions of their inputs, so the same inputs always give the same path and the same page body.
