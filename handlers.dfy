/** Request handling: routing a request to the reload event stream or to
    file transfer, resolving the file path, injecting the reload script into
    HTML pages, and the two loops that feed one event-stream connection. */
module Handlers {
  import opened Wrappers
  import opened Strings
  import opened Paths
  import Sse
  import opened FileWatching

  // ---------------------------------------------------------------------
  // Responses and the file system as the handlers see them

  datatype Header = Header(name: string, value: string)

  /** A response body: fixed text, the bytes of a file streamed as they are,
      or the frames of an event stream. */
  datatype Body = Text(text: string) | FileStream(file: string) | Events

  datatype Response = Response(status: nat, headers: seq<Header>, body: Body)

  /** What the handlers learn from the file system: which paths are
      directories, which can be opened, and the text of those that
      `read_to_string` can read. */
  datatype FileSystem = FileSystem(directories: set<string>, openable: set<string>, contents: map<string, string>)

  /** Where `handle_request` sends a request. */
  datatype Dispatch = ToRefreshEvents(receiver: Receiver) | ToTransferFile(path: string, rootDir: string) | ToNotFound

  const RELOAD_PATH := "/__serena"
  const INDEX_FILE := "index.html"
  const TRIMMED: set<char> := {'/', '.'}
  const READ_FAILURE_BODY := "Failed to read file"
  /** A frame is one line followed by an empty line. */
  const FRAME_END := "\n\n"
  const KEEP_ALIVE_FRAME := ":" + FRAME_END
  const RELOAD_LINE := "data: reload"
  const RELOAD_FRAME := RELOAD_LINE + FRAME_END

  /** The script appended to every HTML page: it opens the event stream and
      reloads the page on any message. */
  const INJECTED_SCRIPT := SCRIPT_HEAD + RELOAD_PATH + SCRIPT_TAIL
  const SCRIPT_HEAD := "\n<script>\n    (() => {\n        let eventSource = new EventSource('"
  const SCRIPT_TAIL := "');\n        eventSource.onmessage = () => location.reload();\n    })();\n</script>\n"

  /** The value of the first header called `name`. */
  function HeaderValue(headers: seq<Header>, name: string): (r: Option<string>)
    ensures r.Some? ==> exists k :: 0 <= k < |headers| && headers[k] == Header(name, r.value)
    ensures r.None? <==> forall k :: 0 <= k < |headers| ==> headers[k].name != name
  {
    if headers == [] then None
    else if headers[0].name == name then Some(headers[0].value)
    else HeaderValue(headers[1..], name)
  }

  // ---------------------------------------------------------------------
  // Routing

  function WatcherFrame(watcher: Option<FileWatcher>): (frame: set<object>) {
    if watcher.Some? then {watcher.value} else {}
  }

  /** `is_refresh_request`: a subscription, when the path is the reload
      endpoint and a watcher is configured whose `subscribe` gives one. */
  function IsRefreshRequest(path: string, watcher: Option<FileWatcher>): (r: Option<Receiver>)
    reads WatcherFrame(watcher)
    ensures r.Some? <==> path == RELOAD_PATH && watcher.Some? && watcher.value.sender.Some?
    ensures r.Some? ==> r == watcher.value.Subscribe()
  {
    if path == RELOAD_PATH && watcher.Some? then watcher.value.Subscribe() else None
  }

  /** `handle_request` of this module: the event stream only for the reload
      endpoint with a subscription; every other request, the reload endpoint
      without a watcher included, is a file transfer of the unchanged path. */
  function HandleRequest(path: string, rootDir: string, watcher: Option<FileWatcher>): (d: Dispatch)
    reads WatcherFrame(watcher)
    ensures d.ToRefreshEvents? <==> path == RELOAD_PATH && watcher.Some? && watcher.value.Subscribe().Some?
    ensures d.ToRefreshEvents? ==> Some(d.receiver) == watcher.value.Subscribe()
    ensures !d.ToRefreshEvents? ==> d == ToTransferFile(path, rootDir)
  {
    match IsRefreshRequest(path, watcher)
    case Some(receiver) => ToRefreshEvents(receiver)
    case None => ToTransferFile(path, rootDir)
  }

  /** The response a dispatch produces: only the event stream has an event
      body, a dispatch to 404 always gets the empty 404, and a file transfer
      gets 404 exactly when the resolved file cannot be opened. */
  function Respond(d: Dispatch, fs: FileSystem, contentType: string -> Option<string>): (r: Response)
    ensures r.body == Events <==> d.ToRefreshEvents?
    ensures d.ToRefreshEvents? ==> r.status == 200 && HeaderValue(r.headers, "content-type") == Some("text/event-stream")
    ensures d.ToNotFound? ==> r.status == 404 && r.headers == [] && r.body == Text("")
    ensures d.ToTransferFile? ==> (r.status == 404 <==> BuildFilePath(d.path, d.rootDir, fs) !in fs.openable)
  {
    match d
    case ToRefreshEvents(_) => EventStreamResponse()
    case ToTransferFile(path, rootDir) => TransferFile(path, rootDir, fs, contentType)
    case ToNotFound => NotFound()
  }

  // ---------------------------------------------------------------------
  // File transfer

  /** `not_found`: status 404 with an empty body. */
  function NotFound(): (r: Response)
    ensures r.status == 404 && r.headers == [] && r.body == Text("")
  {
    Response(404, [], Text(""))
  }

  /** `build_file_path`: leading `/` and `.` characters are trimmed from the
      request path, the rest is joined under the root, and a directory gets
      one `index.html` appended. The result starts with the root as a
      string; `..` components after the first character that is kept are
      not removed, so the file it names need not lie inside the root. */
  function BuildFilePath(path: string, rootDir: string, fs: FileSystem): (r: string)
    ensures var joined := Join(rootDir, TrimStartMatches(path, TRIMMED));
      (joined in fs.directories ==> r == Join(joined, INDEX_FILE) && FileName(r) == Some(INDEX_FILE)) &&
      (joined !in fs.directories ==> r == joined)
    ensures |rootDir| <= |r| && r[..|rootDir|] == rootDir
  {
    var rel := TrimStartMatches(path, TRIMMED);
    var filepath := Join(rootDir, rel);
    JoinUnderRoot(rootDir, rel);
    if filepath in fs.directories then
      JoinIndexFile(filepath);
      Join(filepath, INDEX_FILE)
    else
      filepath
  }

  /** A relative part that does not start with a separator is appended to
      the root, which stays a prefix of the joined string. */
  lemma JoinUnderRoot(rootDir: string, rel: string)
    requires rel == [] || rel[0] != SEPARATOR
    ensures |rootDir| <= |Join(rootDir, rel)| && Join(rootDir, rel)[..|rootDir|] == rootDir
  {
  }

  /** Appending `index.html` keeps the directory as a prefix and makes
      `index.html` the file name. */
  lemma JoinIndexFile(dir: string)
    ensures |dir| <= |Join(dir, INDEX_FILE)| && Join(dir, INDEX_FILE)[..|dir|] == dir
    ensures FileName(Join(dir, INDEX_FILE)) == Some(INDEX_FILE)
  {
    assert INDEX_FILE[0] != SEPARATOR;
    FileNameOfJoin(dir, INDEX_FILE);
  }

  /** `is_html_file`: the path's extension is exactly `html`, so its file
      name ends in `.html` with something before the dot. `IsHtmlFileIffSuffix`
      gives the converse. */
  function IsHtmlFile(p: string): (b: bool)
    ensures b ==> FileName(p).Some? && |FileName(p).value| > 5 && FileName(p).value[|FileName(p).value| - 5..] == ".html"
  {
    if PathExtension(p) == Some("html") then
      HtmlExtensionGivesSuffix(FileName(p).value);
      true
    else
      false
  }

  /** The extension test as a statement about the file name: it ends in
      `.html`, with at least one character before the dot. Upper-case
      variants such as `.HTML` do not qualify. */
  lemma IsHtmlFileIffSuffix(p: string)
    ensures IsHtmlFile(p) <==>
      FileName(p).Some? && |FileName(p).value| > 5 &&
      FileName(p).value[|FileName(p).value| - 5..] == ".html"
  {
    if FileName(p).Some? {
      var n := FileName(p).value;
      if |n| > 5 && n[|n| - 5..] == ".html" {
        HtmlSuffixGivesExtension(n);
      }
      if Extension(n) == Some("html") {
        HtmlExtensionGivesSuffix(n);
      }
    }
  }

  lemma HtmlSuffixGivesExtension(n: string)
    requires |n| > 5 && n[|n| - 5..] == ".html"
    ensures Extension(n) == Some("html")
  {
    assert n[|n| - 5] == '.';
    assert n[|n| - 4..] == n[|n| - 5..][1..] == "html";
    ExtensionOfDotSuffix(n, "html");
  }

  lemma HtmlExtensionGivesSuffix(n: string)
    requires Extension(n) == Some("html")
    ensures |n| > 5 && n[|n| - 5..] == ".html"
  {
    var x := "html";
    assert n[|n| - |x| - 1] == '.' && n[|n| - |x|..] == x;
    assert n[|n| - 5..] == [n[|n| - 5]] + n[|n| - 4..];
    assert ".html" == ['.'] + "html";
  }

  /** For a joined name the test depends on that name alone. */
  lemma JoinedNameIsHtml(dir: string, name: string)
    requires IsNormalComponent(name)
    ensures IsHtmlFile(Join(dir, name)) <==> |name| > 5 && name[|name| - 5..] == ".html"
  {
    FileNameOfJoin(dir, name);
    IsHtmlFileIffSuffix(Join(dir, name));
  }

  /** The test is case-sensitive: `index.HTML` is not HTML. */
  lemma HtmlTestIsCaseSensitive(dir: string)
    ensures !IsHtmlFile(Join(dir, "index.HTML"))
  {
    JoinedNameIsHtml(dir, "index.HTML");
  }

  /** A name that is all extension, such as `.html`, has none, so it is not
      HTML either. */
  lemma HiddenNameIsNotHtml(dir: string)
    ensures !IsHtmlFile(Join(dir, ".html"))
  {
    JoinedNameIsHtml(dir, ".html");
  }

  /** The body of an HTML page is the file's text followed by the script. */
  ghost predicate IsInjected(text: string, body: string) {
    |body| == |text| + |INJECTED_SCRIPT| && body[..|text|] == text && body[|text|..] == INJECTED_SCRIPT
  }

  /** `html_response`: the page with the script appended, or 500 when the
      file cannot be read as text. */
  function HtmlResponse(filepath: string, fs: FileSystem): (r: Response)
    ensures filepath in fs.contents ==>
      r.status == 200 && r.headers == [] && r.body.Text? && IsInjected(fs.contents[filepath], r.body.text)
    ensures filepath !in fs.contents ==> r == Response(500, [], Text(READ_FAILURE_BODY))
  {
    if filepath in fs.contents then
      var html := fs.contents[filepath] + INJECTED_SCRIPT;
      Response(200, [], Text(html))
    else
      Response(500, [], Text(READ_FAILURE_BODY))
  }

  /** `file_stream_response`: the file's bytes, with a content type only when
      the lookup finds one. */
  function FileStreamResponse(filepath: string, contentType: string -> Option<string>): (r: Response)
    ensures r.status == 200 && r.body == FileStream(filepath)
    ensures HeaderValue(r.headers, "content-type") == contentType(filepath)
    ensures contentType(filepath).None? ==> r.headers == []
  {
    var headers := if contentType(filepath).Some? then [Header("content-type", contentType(filepath).value)] else [];
    Response(200, headers, FileStream(filepath))
  }

  /** The extension of `index.html` is `html`. */
  lemma IndexFileExtension()
    ensures Extension(INDEX_FILE) == Some("html")
  {
    assert INDEX_FILE[5] == '.';
    assert forall j :: 6 <= j < |INDEX_FILE| ==> INDEX_FILE[j] != '.';
    assert LastIndexOf(INDEX_FILE, '.') == Some(5);
    assert INDEX_FILE[6..] == "html";
  }

  /** A directory is always served through its `index.html`, which is an
      HTML page. */
  lemma DirectoryResolvesToHtml(path: string, rootDir: string, fs: FileSystem)
    requires Join(rootDir, TrimStartMatches(path, TRIMMED)) in fs.directories
    ensures IsHtmlFile(BuildFilePath(path, rootDir, fs))
  {
    JoinIndexFile(Join(rootDir, TrimStartMatches(path, TRIMMED)));
    assert Extension(INDEX_FILE) == Some("html") by {
      IndexFileExtension();
    }
  }

  /** Leading `/` and `.` characters of any number and mix are ignored:
      `/../x`, `./x` and `x` name the same file under the root. */
  lemma LeadingDotsAndSlashesIgnored(prefix: string, path: string, rootDir: string, fs: FileSystem)
    requires forall i :: 0 <= i < |prefix| ==> prefix[i] == '/' || prefix[i] == '.'
    ensures BuildFilePath(prefix + path, rootDir, fs) == BuildFilePath(path, rootDir, fs)
  {
    TrimStartMatchesAbsorbs(prefix, path, TRIMMED);
  }

  /** `index.html` begins with a character that is never trimmed. */
  lemma IndexFileIsNotTrimmed()
    ensures TrimStartMatches(INDEX_FILE, TRIMMED) == INDEX_FILE
  {
    assert INDEX_FILE[0] == 'i';
    TrimStartMatchesKeeps(INDEX_FILE, TRIMMED);
  }

  /** A request for `index.html` below a path that trims away entirely
      names `index.html` at the root. */
  lemma TrimIndexRequestAtRoot(path: string)
    requires TrimStartMatches(path, TRIMMED) == []
    ensures TrimStartMatches(path + "/" + INDEX_FILE, TRIMMED) == INDEX_FILE
  {
    assert forall i :: 0 <= i < |path + "/"| ==> (path + "/")[i] in TRIMMED;
    TrimStartMatchesAbsorbs(path + "/", INDEX_FILE, TRIMMED);
    IndexFileIsNotTrimmed();
  }

  /** Otherwise trimming `<path>/index.html` trims `<path>` and keeps the
      rest. */
  lemma TrimIndexRequestBelowRoot(path: string)
    requires TrimStartMatches(path, TRIMMED) != []
    ensures TrimStartMatches(path + "/" + INDEX_FILE, TRIMMED) == TrimStartMatches(path, TRIMMED) + "/" + INDEX_FILE
  {
    TrimStartMatchesKeepsTail(path, "/", TRIMMED);
    TrimStartMatchesKeepsTail(path + "/", INDEX_FILE, TRIMMED);
  }

  /** Joining two relative parts one after the other is joining them with a
      separator in between. */
  lemma JoinTwice(rootDir: string, rel: string, name: string)
    requires rel != [] && rel[0] != SEPARATOR && rel[|rel| - 1] != SEPARATOR
    requires name != [] && name[0] != SEPARATOR
    ensures Join(Join(rootDir, rel), name) == Join(rootDir, rel + [SEPARATOR] + name)
  {
    var pre := JoinPrefix(rootDir);
    var j := Join(rootDir, rel);
    JoinAppendsToPrefix(rootDir, rel);
    assert j[|j| - 1] == rel[|rel| - 1];
    JoinAppendsToPrefix(j, name);
    assert JoinPrefix(j) == j + [SEPARATOR];
    var whole := rel + [SEPARATOR] + name;
    assert whole[0] == rel[0];
    JoinAppendsToPrefix(rootDir, whole);
    assert pre + rel + [SEPARATOR] + name == pre + whole;
  }

  /** Joining `index.html` after a relative part is joining both at once. */
  lemma JoinIndexAfter(rootDir: string, rel: string)
    requires rel == [] || (rel[0] != '/' && rel[|rel| - 1] != '/')
    ensures Join(Join(rootDir, rel), INDEX_FILE) == Join(rootDir, if rel == [] then INDEX_FILE else rel + "/" + INDEX_FILE)
  {
    assert INDEX_FILE[0] != '/';
    if rel != [] {
      JoinTwice(rootDir, rel, INDEX_FILE);
      assert rel + "/" + INDEX_FILE == rel + [SEPARATOR] + INDEX_FILE;
    }
  }

  /** A directory request resolves to the same file as the request for its
      `index.html` (for a request that does not end in a separator, and when
      `index.html` is not itself a directory). */
  lemma DirectoryRequestResolvesToIndex(path: string, rootDir: string, fs: FileSystem)
    requires var rel := TrimStartMatches(path, TRIMMED); rel == [] || rel[|rel| - 1] != '/'
    requires Join(rootDir, TrimStartMatches(path, TRIMMED)) in fs.directories
    requires Join(Join(rootDir, TrimStartMatches(path, TRIMMED)), INDEX_FILE) !in fs.directories
    ensures BuildFilePath(path + "/" + INDEX_FILE, rootDir, fs) == BuildFilePath(path, rootDir, fs)
  {
    var rel := TrimStartMatches(path, TRIMMED);
    if rel == [] {
      TrimIndexRequestAtRoot(path);
    } else {
      TrimIndexRequestBelowRoot(path);
    }
    JoinIndexAfter(rootDir, rel);
    var target := Join(rootDir, if rel == [] then INDEX_FILE else rel + "/" + INDEX_FILE);
    assert Join(rootDir, TrimStartMatches(path + "/" + INDEX_FILE, TRIMMED)) == target;
    assert BuildFilePath(path, rootDir, fs) == target;
  }

  /** Hence requesting a directory gives the same response as requesting its
      `index.html` directly. */
  lemma DirectoryRequestServesIndex(path: string, rootDir: string, fs: FileSystem, contentType: string -> Option<string>)
    requires var rel := TrimStartMatches(path, TRIMMED); rel == [] || rel[|rel| - 1] != '/'
    requires Join(rootDir, TrimStartMatches(path, TRIMMED)) in fs.directories
    requires Join(Join(rootDir, TrimStartMatches(path, TRIMMED)), INDEX_FILE) !in fs.directories
    ensures TransferFile(path, rootDir, fs, contentType) == TransferFile(path + "/" + INDEX_FILE, rootDir, fs, contentType)
  {
    DirectoryRequestResolvesToIndex(path, rootDir, fs);
  }

  /** Joining after a relative part that ends in a separator is plain
      concatenation. */
  lemma JoinAfterSeparator(rootDir: string, rel: string, name: string)
    requires rel != [] && rel[0] != SEPARATOR && rel[|rel| - 1] == SEPARATOR
    requires name != [] && name[0] != SEPARATOR
    ensures Join(Join(rootDir, rel), name) == Join(rootDir, rel + name)
  {
    var pre := JoinPrefix(rootDir);
    var j := Join(rootDir, rel);
    JoinAppendsToPrefix(rootDir, rel);
    assert j[|j| - 1] == rel[|rel| - 1];
    JoinAppendsToPrefix(j, name);
    assert JoinPrefix(j) == j;
    var whole := rel + name;
    assert whole[0] == rel[0];
    JoinAppendsToPrefix(rootDir, whole);
    assert pre + rel + name == pre + whole;
  }

  /** A directory request that ends in a separator, such as `/docs/`,
      resolves to the same file as the request for `index.html` in it
      (`/docs/index.html`), when that is not itself a directory. */
  lemma SlashedDirectoryRequestResolvesToIndex(path: string, rootDir: string, fs: FileSystem)
    requires var rel := TrimStartMatches(path, TRIMMED); rel != [] && rel[|rel| - 1] == SEPARATOR
    requires Join(rootDir, TrimStartMatches(path, TRIMMED)) in fs.directories
    requires Join(Join(rootDir, TrimStartMatches(path, TRIMMED)), INDEX_FILE) !in fs.directories
    ensures BuildFilePath(path + INDEX_FILE, rootDir, fs) == BuildFilePath(path, rootDir, fs)
  {
    var rel := TrimStartMatches(path, TRIMMED);
    TrimStartMatchesKeepsTail(path, INDEX_FILE, TRIMMED);
    assert INDEX_FILE[0] != SEPARATOR;
    JoinAfterSeparator(rootDir, rel, INDEX_FILE);
    assert Join(rootDir, TrimStartMatches(path + INDEX_FILE, TRIMMED)) == Join(Join(rootDir, rel), INDEX_FILE);
  }

  /** Hence such a request gets the same response as the request for its
      `index.html`. */
  lemma SlashedDirectoryRequestServesIndex(path: string, rootDir: string, fs: FileSystem, contentType: string -> Option<string>)
    requires var rel := TrimStartMatches(path, TRIMMED); rel != [] && rel[|rel| - 1] == SEPARATOR
    requires Join(rootDir, TrimStartMatches(path, TRIMMED)) in fs.directories
    requires Join(Join(rootDir, TrimStartMatches(path, TRIMMED)), INDEX_FILE) !in fs.directories
    ensures TransferFile(path, rootDir, fs, contentType) == TransferFile(path + INDEX_FILE, rootDir, fs, contentType)
  {
    SlashedDirectoryRequestResolvesToIndex(path, rootDir, fs);
  }

  /** Trimming stops at the first character it keeps: a request such as
      `/a/../../etc/passwd` keeps both `..` components, and the resolved
      path is the root joined with `a/../../etc/passwd` (with `index.html`
      appended when that is a directory). Only strings are compared here;
      under a root other than `/` the operating system takes that path
      outside the root. */
  lemma ParentComponentsSurviveTrimming(name: string, rest: string, rootDir: string, fs: FileSystem)
    requires name != [] && name[0] != SEPARATOR && name[0] != '.'
    ensures TrimStartMatches("/" + name + "/../../" + rest, TRIMMED) == name + "/../../" + rest
    ensures var j := Join(rootDir, name + "/../../" + rest);
      var r := BuildFilePath("/" + name + "/../../" + rest, rootDir, fs);
      |j| <= |r| && r[..|j|] == j && (j !in fs.directories ==> r == j)
  {
    var rel := name + "/../../" + rest;
    assert rel[0] == name[0];
    assert "/" + name + "/../../" + rest == [SEPARATOR] + rel;
    TrimLeadingSeparator(rel);
    JoinIndexFile(Join(rootDir, rel));
  }

  /** One leading separator before a character that is kept is trimmed, and
      nothing else. */
  lemma TrimLeadingSeparator(rel: string)
    requires rel != [] && rel[0] !in TRIMMED
    ensures TrimStartMatches([SEPARATOR] + rel, TRIMMED) == rel
  {
    assert ([SEPARATOR] + rel)[1..] == rel;
  }

  /** `transfer_file`: 404 when the resolved file cannot be opened; for an
      HTML file the page with the script, or 500 when it cannot be read; any
      other file streamed as it is. */
  function TransferFile(path: string, rootDir: string, fs: FileSystem, contentType: string -> Option<string>): (r: Response)
    ensures var f := BuildFilePath(path, rootDir, fs);
      && (r.status == 404 <==> f !in fs.openable)
      && (f !in fs.openable ==> r == NotFound())
      && (r.status == 500 <==> f in fs.openable && IsHtmlFile(f) && f !in fs.contents)
      && (r.status == 500 ==> r.body == Text(READ_FAILURE_BODY))
      && (f in fs.openable && IsHtmlFile(f) && f in fs.contents ==>
            r.status == 200 && r.headers == [] && r.body.Text? && IsInjected(fs.contents[f], r.body.text))
      && (f in fs.openable && !IsHtmlFile(f) ==>
            r.status == 200 && r.body == FileStream(f) && HeaderValue(r.headers, "content-type") == contentType(f))
  {
    var filepath := BuildFilePath(path, rootDir, fs);
    if filepath in fs.openable then
      if IsHtmlFile(filepath) then HtmlResponse(filepath, fs)
      else FileStreamResponse(filepath, contentType)
    else
      NotFound()
  }

  // ---------------------------------------------------------------------
  // The event stream

  /** `refresh_events`: status 200 with the three event-stream headers. */
  function EventStreamResponse(): (r: Response)
    ensures r.status == 200 && r.body == Events
    ensures HeaderValue(r.headers, "content-type") == Some("text/event-stream")
    ensures HeaderValue(r.headers, "cache-control") == Some("no-cache")
    ensures HeaderValue(r.headers, "connection") == Some("keep-alive")
  {
    Response(200, [Header("content-type", "text/event-stream"), Header("cache-control", "no-cache"),
                   Header("connection", "keep-alive")], Events)
  }

  /** What one iteration of the keep-alive loop does. */
  datatype Step = Sent(frame: string) | Slept

  /** The number of sends that succeed before the first failure. */
  function FirstFailure(sendOk: seq<bool>): (n: nat)
    ensures n <= |sendOk|
    ensures forall j :: 0 <= j < n ==> sendOk[j]
    ensures n < |sendOk| ==> !sendOk[n]
  {
    if sendOk == [] || !sendOk[0] then 0 else 1 + FirstFailure(sendOk[1..])
  }

  /** The keep-alive loop's steps, given the outcome of each send in turn. */
  function KeepAliveSteps(sendOk: seq<bool>): (steps: seq<Step>) {
    if sendOk == [] || !sendOk[0] then []
    else [Sent(KEEP_ALIVE_FRAME), Slept] + KeepAliveSteps(sendOk[1..])
  }

  /** `keep_alive`: send a comment frame, stop if the send failed, otherwise
      sleep and repeat. `ended` says the loop stopped on a failed send
      rather than at the end of the trace. */
  method KeepAlive(sendOk: seq<bool>) returns (steps: seq<Step>, ended: bool)
    ensures steps == KeepAliveSteps(sendOk)
    ensures ended <==> exists j :: 0 <= j < |sendOk| && !sendOk[j]
  {
    steps, ended := [], false;
    var i := 0;
    while i < |sendOk|
      invariant i <= |sendOk|
      invariant forall j :: 0 <= j < i ==> sendOk[j]
      invariant steps + KeepAliveSteps(sendOk[i..]) == KeepAliveSteps(sendOk)
    {
      if !sendOk[i] {
        ended := true;
        break;
      }
      assert sendOk[i..][1..] == sendOk[i + 1..];
      steps := steps + [Sent(KEEP_ALIVE_FRAME), Slept];
      i := i + 1;
    }
  }

  /** The keep-alive loop alternates a comment frame and a sleep, starting
      with a frame, for as long as sends succeed. */
  lemma {:induction false} KeepAliveAlternates(sendOk: seq<bool>)
    ensures |KeepAliveSteps(sendOk)| == 2 * FirstFailure(sendOk)
    ensures forall k :: 0 <= k < |KeepAliveSteps(sendOk)| ==>
      KeepAliveSteps(sendOk)[k] == if k % 2 == 0 then Sent(KEEP_ALIVE_FRAME) else Slept
  {
    if sendOk != [] && sendOk[0] {
      KeepAliveAlternates(sendOk[1..]);
      var rest := KeepAliveSteps(sendOk[1..]);
      assert KeepAliveSteps(sendOk) == [Sent(KEEP_ALIVE_FRAME), Slept] + rest;
      forall k | 2 <= k < |KeepAliveSteps(sendOk)|
        ensures KeepAliveSteps(sendOk)[k] == if k % 2 == 0 then Sent(KEEP_ALIVE_FRAME) else Slept
      {
        assert KeepAliveSteps(sendOk)[k] == rest[k - 2];
      }
    }
  }

  /** The frames the keep-alive loop sent. */
  function SentFrames(steps: seq<Step>): (frames: seq<string>) {
    if steps == [] then []
    else (if steps[0].Sent? then [steps[0].frame] else []) + SentFrames(steps[1..])
  }

  /** The keep-alive loop sends only comment frames, one per successful send. */
  lemma {:induction false} KeepAliveSendsComments(sendOk: seq<bool>)
    ensures |SentFrames(KeepAliveSteps(sendOk))| == FirstFailure(sendOk)
    ensures forall k :: 0 <= k < |SentFrames(KeepAliveSteps(sendOk))| ==>
      SentFrames(KeepAliveSteps(sendOk))[k] == KEEP_ALIVE_FRAME
  {
    if sendOk != [] && sendOk[0] {
      KeepAliveSendsComments(sendOk[1..]);
      var rest := KeepAliveSteps(sendOk[1..]);
      var steps := [Sent(KEEP_ALIVE_FRAME), Slept] + rest;
      assert steps[1..] == [Slept] + rest;
      assert ([Slept] + rest)[1..] == rest;
      assert SentFrames(steps) == [KEEP_ALIVE_FRAME] + SentFrames(rest);
    }
  }

  /** One outcome of the forwarding loop: a signal was received and the
      reload frame sent (`sendOk`) or not, the receiver lagged behind, or the
      channel closed. */
  datatype Delivery = Signal(sendOk: bool) | Lagged(missed: nat) | Closed

  /** Every outcome but a signal whose frame was sent ends forwarding. */
  predicate EndsForwarding(d: Delivery) {
    !(d.Signal? && d.sendOk)
  }

  /** The number of outcomes before the first one that ends forwarding. */
  function FirstEnd(trace: seq<Delivery>): (n: nat)
    ensures n <= |trace|
    ensures forall j :: 0 <= j < n ==> !EndsForwarding(trace[j])
    ensures n < |trace| ==> EndsForwarding(trace[n])
  {
    if trace == [] || EndsForwarding(trace[0]) then 0 else 1 + FirstEnd(trace[1..])
  }

  /** The frames the forwarding loop delivers, given its trace. */
  function ForwardFrames(trace: seq<Delivery>): (frames: seq<string>) {
    if trace == [] || EndsForwarding(trace[0]) then []
    else [RELOAD_FRAME] + ForwardFrames(trace[1..])
  }

  /** `map_refresh_events`: on each received signal send a reload frame; stop
      on a failed send and on any receive error, a lagged receiver as much as
      a closed channel. `ended` says it stopped before the end of the trace. */
  method MapRefreshEvents(trace: seq<Delivery>) returns (frames: seq<string>, ended: bool)
    ensures frames == ForwardFrames(trace)
    ensures ended <==> exists j :: 0 <= j < |trace| && EndsForwarding(trace[j])
  {
    frames, ended := [], false;
    var i := 0;
    while i < |trace|
      invariant i <= |trace|
      invariant forall j :: 0 <= j < i ==> !EndsForwarding(trace[j])
      invariant frames + ForwardFrames(trace[i..]) == ForwardFrames(trace)
    {
      match trace[i] {
        case Signal(ok) =>
          if !ok {
            ended := true;
            break;
          }
        case Lagged(_) =>
          ended := true;
          break;
        case Closed =>
          ended := true;
          break;
      }
      assert trace[i..][1..] == trace[i + 1..];
      frames := frames + [RELOAD_FRAME];
      i := i + 1;
    }
  }

  /** Forwarding delivers one reload frame per signal up to the first
      outcome that ends it. */
  lemma {:induction false} ForwardFramesShape(trace: seq<Delivery>)
    ensures |ForwardFrames(trace)| == FirstEnd(trace)
    ensures forall k :: 0 <= k < |ForwardFrames(trace)| ==> ForwardFrames(trace)[k] == RELOAD_FRAME
  {
    if trace != [] && !EndsForwarding(trace[0]) {
      ForwardFramesShape(trace[1..]);
    }
  }

  /** Nothing is forwarded after the first outcome that ends forwarding,
      whatever follows it. */
  lemma {:induction false} ForwardingStopsAtFirstEnd(before: seq<Delivery>, d: Delivery, after: seq<Delivery>)
    requires forall j :: 0 <= j < |before| ==> !EndsForwarding(before[j])
    requires EndsForwarding(d)
    ensures ForwardFrames(before + [d] + after) == ForwardFrames(before)
    ensures |ForwardFrames(before)| == |before|
  {
    if before == [] {
      assert (before + [d] + after)[0] == d;
    } else {
      assert (before + [d] + after)[1..] == before[1..] + [d] + after;
      ForwardingStopsAtFirstEnd(before[1..], d, after);
    }
  }

  /** `refresh_events` with both loops run to the end of their traces. The
      two loops share nothing but the outbound channel: each one's frames
      depend on its own trace only, and neither stops the other. */
  method RefreshEvents(keepAliveSendOk: seq<bool>, forwardTrace: seq<Delivery>)
    returns (response: Response, keepAlive: seq<Step>, forwarded: seq<string>)
    ensures response == EventStreamResponse()
    ensures keepAlive == KeepAliveSteps(keepAliveSendOk)
    ensures forwarded == ForwardFrames(forwardTrace)
  {
    var keepAliveEnded, forwardingEnded;
    keepAlive, keepAliveEnded := KeepAlive(keepAliveSendOk);
    forwarded, forwardingEnded := MapRefreshEvents(forwardTrace);
    response := EventStreamResponse();
  }

  // ---------------------------------------------------------------------
  // What the browser makes of the stream

  ghost predicate OccursAt(text: string, part: string, k: nat) {
    k + |part| <= |text| && text[k..k + |part|] == part
  }

  /** The injected script subscribes to the very endpoint the router
      recognises. */
  lemma ScriptTargetsReloadEndpoint()
    ensures exists k :: OccursAt(INJECTED_SCRIPT, RELOAD_PATH, k)
  {
    assert OccursAt(INJECTED_SCRIPT, RELOAD_PATH, |SCRIPT_HEAD|);
  }

  /** A keep-alive frame is a comment followed by a blank line: the client
      dispatches nothing for it. */
  lemma KeepAliveFrameDispatchesNothing(messages: seq<string>)
    ensures Sse.Feed(Sse.Idle(messages), KEEP_ALIVE_FRAME) == Sse.Idle(messages)
  {
    var p := Sse.Idle(messages);
    var p1 := Sse.Consume(p, ':');
    assert p1 == Sse.Parser(":", "", messages);
    var p2 := Sse.Consume(p1, '\n');
    assert p2 == p;
    assert Sse.Consume(p2, '\n') == p;
    assert KEEP_ALIVE_FRAME[1..][1..][1..] == [];
  }

  /** The line of a reload frame is the field `data` with value `reload`. */
  lemma ReloadLineSplits(p: Sse.Parser)
    ensures Sse.ProcessLine(p, "data: reload") ==
      Sse.ProcessField(p, "data: reload"[..4], Sse.FieldValue("data: reload"[5..]))
  {
    var line := "data: reload";
    assert line != "" && line[0] != ':';
    assert forall j :: 0 <= j < 4 ==> line[j] != ':';
    FirstIndexOfAt(line, ':', 4);
  }

  lemma ReloadFieldAppends(p: Sse.Parser)
    ensures Sse.ProcessField(p, "data: reload"[..4], Sse.FieldValue("data: reload"[5..])) ==
      p.(data := p.data + "reload\n")
  {
    var line := "data: reload";
    assert line[..4] == "data";
    assert line[5..] == " reload";
    assert Sse.FieldValue(" reload") == "reload";
  }

  /** The line of a reload frame appends `reload` and a line feed to the
      data buffer. */
  lemma ReloadLineAppendsData(p: Sse.Parser)
    ensures Sse.ProcessLine(p, "data: reload") == p.(data := p.data + "reload\n")
  {
    ReloadLineSplits(p);
    ReloadFieldAppends(p);
  }

  /** Two line feeds: the end of the current line, then a blank line. */
  lemma FeedTwoLineFeeds(p: Sse.Parser)
    ensures Sse.Feed(p, "\n\n") == Sse.Consume(Sse.Consume(p, '\n'), '\n')
  {
    assert "\n\n"[0] == '\n' && "\n\n"[1..] == "\n";
    assert "\n"[0] == '\n' && "\n"[1..] == [];
  }

  /** The blank line after a data line dispatches what was buffered, less
      the final line feed. */
  lemma BlankLineDispatchesReload(messages: seq<string>)
    ensures Sse.Consume(Sse.Parser("", "reload\n", messages), '\n') == Sse.Idle(messages + ["reload"])
  {
    assert "reload\n"[|"reload\n"| - 1] == '\n';
    assert "reload\n"[..6] == "reload";
  }

  /** A reload frame makes the client dispatch exactly one message, whose
      data is `reload`. */
  lemma ReloadFrameDispatchesOneMessage(messages: seq<string>)
    ensures Sse.Feed(Sse.Idle(messages), RELOAD_FRAME) == Sse.Idle(messages + ["reload"])
  {
    Sse.FeedConcat(Sse.Idle(messages), RELOAD_LINE, FRAME_END);
    ReloadLineAccumulates(messages);
    ReloadLineThenBlankLine(messages);
  }

  lemma ReloadLineAccumulates(messages: seq<string>)
    ensures Sse.Feed(Sse.Idle(messages), RELOAD_LINE) == Sse.Parser(RELOAD_LINE, "", messages)
  {
    assert forall j :: 0 <= j < |RELOAD_LINE| ==> RELOAD_LINE[j] != '\n';
    LineAccumulates(messages, RELOAD_LINE);
  }

  /** The two line feeds that end a reload frame: the data line goes to the
      buffer, then the blank line dispatches it. */
  lemma ReloadLineThenBlankLine(messages: seq<string>)
    ensures Sse.Feed(Sse.Parser("data: reload", "", messages), "\n\n") == Sse.Idle(messages + ["reload"])
  {
    var p0 := Sse.Parser("data: reload", "", messages);
    FeedTwoLineFeeds(p0);
    var p1 := Sse.Consume(p0, '\n');
    assert p1 == Sse.ProcessLine(Sse.Idle(messages), "data: reload");
    ReloadLineAppendsData(Sse.Idle(messages));
    assert "" + "reload\n" == "reload\n";
    assert p1 == Sse.Parser("", "reload\n", messages);
    BlankLineDispatchesReload(messages);
  }

  /** Feeding a text without line breaks only extends the current line. */
  lemma {:induction false} LineAccumulates(messages: seq<string>, line: string)
    requires forall j :: 0 <= j < |line| ==> line[j] != '\n'
    ensures Sse.Feed(Sse.Idle(messages), line) == Sse.Parser(line, "", messages)
    decreases |line|
  {
    if line != [] {
      var n := |line| - 1;
      assert line == line[..n] + [line[n]];
      LineAccumulates(messages, line[..n]);
      Sse.FeedConcat(Sse.Idle(messages), line[..n], [line[n]]);
    }
  }

  /** The frames one after the other, as the client receives them. */
  function Concat(frames: seq<string>): (s: string) {
    if frames == [] then "" else frames[0] + Concat(frames[1..])
  }

  /** `merged` is an interleaving of `a` and `b`: the order within each is
      kept, and nothing is assumed about the order between them. */
  ghost predicate Interleaves(merged: seq<string>, a: seq<string>, b: seq<string>)
    decreases |merged|
  {
    if merged == [] then a == [] && b == []
    else (a != [] && merged[0] == a[0] && Interleaves(merged[1..], a[1..], b)) ||
         (b != [] && merged[0] == b[0] && Interleaves(merged[1..], a, b[1..]))
  }

  /** `n` messages with data `reload`. */
  function Reloads(n: nat): (r: seq<string>)
    ensures |r| == n && forall k :: 0 <= k < n ==> r[k] == "reload"
  {
    if n == 0 then [] else ["reload"] + Reloads(n - 1)
  }

  /** However keep-alive frames and reload frames interleave on the shared
      channel, the client dispatches one `reload` message per reload frame
      and nothing else. */
  lemma {:induction false} ClientSeesOneMessagePerReloadFrame(merged: seq<string>, a: seq<string>, b: seq<string>, messages: seq<string>)
    requires Interleaves(merged, a, b)
    requires forall k :: 0 <= k < |a| ==> a[k] == KEEP_ALIVE_FRAME
    requires forall k :: 0 <= k < |b| ==> b[k] == RELOAD_FRAME
    ensures Sse.Feed(Sse.Idle(messages), Concat(merged)) == Sse.Idle(messages + Reloads(|b|))
    decreases |merged|
  {
    if merged != [] {
      var rest := Concat(merged[1..]);
      assert Concat(merged) == merged[0] + rest;
      Sse.FeedConcat(Sse.Idle(messages), merged[0], rest);
      if a != [] && merged[0] == a[0] && Interleaves(merged[1..], a[1..], b) {
        KeepAliveFrameDispatchesNothing(messages);
        ClientSeesOneMessagePerReloadFrame(merged[1..], a[1..], b, messages);
      } else {
        assert b != [] && merged[0] == RELOAD_FRAME && Interleaves(merged[1..], a, b[1..]);
        ReloadFrameDispatchesOneMessage(messages);
        ClientSeesOneMessagePerReloadFrame(merged[1..], a, b[1..], messages + ["reload"]);
        assert messages + ["reload"] + Reloads(|b| - 1) == messages + Reloads(|b|);
      }
    }
  }

  /** One session end to end: whatever the interleaving of the two loops'
      frames, the page reloads once per signal forwarded, that is once per
      signal received before forwarding stopped. */
  lemma SessionReloadsOncePerForwardedSignal(keepAliveSendOk: seq<bool>, forwardTrace: seq<Delivery>, merged: seq<string>)
    requires Interleaves(merged, SentFrames(KeepAliveSteps(keepAliveSendOk)), ForwardFrames(forwardTrace))
    ensures Sse.Feed(Sse.Idle([]), Concat(merged)) == Sse.Idle(Reloads(FirstEnd(forwardTrace)))
  {
    KeepAliveSendsComments(keepAliveSendOk);
    ForwardFramesShape(forwardTrace);
    ClientSeesOneMessagePerReloadFrame(merged, SentFrames(KeepAliveSteps(keepAliveSendOk)), ForwardFrames(forwardTrace), []);
    assert [] + Reloads(FirstEnd(forwardTrace)) == Reloads(FirstEnd(forwardTrace));
  }
}
