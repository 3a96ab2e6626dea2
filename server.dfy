/** The server's own decisions: whether a watcher is created, and the
    routing of `handle_request` as the binary defines it, which differs from
    the copy in the handlers for the reload endpoint without a watcher. */
module Server {
  import opened Wrappers
  import opened FileWatching
  import Handlers

  /** The parsed command line. */
  datatype Opts = Opts(directory: string, port: nat, noAutoReload: bool)

  /** The watcher `main` creates: none when automatic reloading is disabled,
      otherwise a new one for the served directory. */
  method CreateWatcher(opts: Opts) returns (watcher: Option<FileWatcher>)
    ensures watcher.None? <==> opts.noAutoReload
    ensures watcher.Some? ==> fresh(watcher.value)
    ensures watcher.Some? ==> watcher.value.thread == Some(WatchThread(opts.directory, Sender(CHANNEL_CAPACITY)))
    ensures watcher.Some? ==> watcher.value.sender == Some(Sender(CHANNEL_CAPACITY))
  {
    if opts.noAutoReload {
      watcher := None;
    } else {
      var w := new FileWatcher(opts.directory);
      watcher := Some(w);
    }
  }

  /** `handle_request` of the binary: the event stream for the reload
      endpoint with a subscription, 404 for the reload endpoint without one
      (no watcher, or a watcher that gives none), and a file transfer of the
      unchanged path from the configured root for everything else. */
  function HandleRequest(path: string, rootDir: string, watcher: Option<FileWatcher>): (d: Handlers.Dispatch)
    reads Handlers.WatcherFrame(watcher)
    ensures d.ToRefreshEvents? <==> path == Handlers.RELOAD_PATH && watcher.Some? && watcher.value.Subscribe().Some?
    ensures d.ToRefreshEvents? ==> Some(d.receiver) == watcher.value.Subscribe()
    ensures d.ToNotFound? <==> path == Handlers.RELOAD_PATH && (watcher.None? || watcher.value.Subscribe().None?)
    ensures d.ToTransferFile? <==> path != Handlers.RELOAD_PATH
    ensures d.ToTransferFile? ==> d == Handlers.ToTransferFile(path, rootDir)
  {
    if path == Handlers.RELOAD_PATH then
      if watcher.Some? && watcher.value.Subscribe().Some? then
        Handlers.ToRefreshEvents(watcher.value.Subscribe().value)
      else
        Handlers.ToNotFound
    else
      Handlers.ToTransferFile(path, rootDir)
  }

  /** The request `main` serves: every connection routes with the same root,
      the configured directory. */
  function Route(opts: Opts, watcher: Option<FileWatcher>, path: string): (d: Handlers.Dispatch)
    reads Handlers.WatcherFrame(watcher)
    ensures d.ToTransferFile? ==> d.rootDir == opts.directory && d.path == path
  {
    HandleRequest(path, opts.directory, watcher)
  }

  /** The two routers agree on every request except the reload endpoint
      without a subscription, where the binary answers 404 and the handlers'
      copy passes the path on to file transfer. */
  lemma RoutersDifferOnlyWithoutSubscription(path: string, rootDir: string, watcher: Option<FileWatcher>)
    ensures HandleRequest(path, rootDir, watcher) != Handlers.HandleRequest(path, rootDir, watcher) <==>
      path == Handlers.RELOAD_PATH && (watcher.None? || watcher.value.Subscribe().None?)
    ensures HandleRequest(path, rootDir, watcher) != Handlers.HandleRequest(path, rootDir, watcher) ==>
      HandleRequest(path, rootDir, watcher) == Handlers.ToNotFound &&
      Handlers.HandleRequest(path, rootDir, watcher) == Handlers.ToTransferFile(path, rootDir)
  {
  }

  /** The difference shows in a response only if a file called `__serena`
      can be opened under the root: otherwise both answer with the same 404. */
  lemma RoutersRespondAlikeWithoutReloadFile(rootDir: string, watcher: Option<FileWatcher>, fs: Handlers.FileSystem,
                                             contentType: string -> Option<string>)
    requires watcher.None? || watcher.value.Subscribe().None?
    requires Handlers.BuildFilePath(Handlers.RELOAD_PATH, rootDir, fs) !in fs.openable
    ensures Handlers.Respond(HandleRequest(Handlers.RELOAD_PATH, rootDir, watcher), fs, contentType) == Handlers.NotFound()
    ensures Handlers.Respond(Handlers.HandleRequest(Handlers.RELOAD_PATH, rootDir, watcher), fs, contentType) == Handlers.NotFound()
  {
  }

  /** With the watcher `main` creates, the reload endpoint is served by the
      event stream exactly when automatic reloading is enabled. */
  method ReloadEndpointAvailability(opts: Opts) returns (d: Handlers.Dispatch)
    ensures d.ToRefreshEvents? <==> !opts.noAutoReload
    ensures d.ToNotFound? <==> opts.noAutoReload
  {
    var watcher := CreateWatcher(opts);
    d := Route(opts, watcher, Handlers.RELOAD_PATH);
  }
}
