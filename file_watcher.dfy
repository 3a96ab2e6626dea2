/** The background file watcher: the `FileWatcher` handle and the receive
    loop of its thread, with the broadcast channel, the OS watcher and the
    thread itself reduced to the values they are created with. */
module FileWatching {
  import opened Wrappers

  /** Capacity of the broadcast channel that carries reload signals. */
  const CHANNEL_CAPACITY: nat := 32

  /** The producer end of the broadcast channel. */
  datatype Sender = Sender(capacity: nat)

  /** A subscription to the broadcast channel. */
  datatype Receiver = Receiver(capacity: nat)

  /** The spawned watcher thread: the directory it watches and its own clone
      of the sender. */
  datatype WatchThread = WatchThread(directory: string, refresh: Sender)

  /** What dropping a watcher does, in the order it does it: the join
      returned, or it reported that the thread had panicked and the
      `unwrap` on it panicked in turn, or the sender was cleared. */
  datatype DropStep = Joined(thread: WatchThread) | JoinPanicked(thread: WatchThread) | SenderCleared

  class FileWatcher {
    var thread: Option<WatchThread>
    var sender: Option<Sender>

    /** `FileWatcher::new`: creates the channel, keeps its sender, discards
        the receiver created with it, and starts the thread on a clone of the
        sender. */
    constructor (directory: string)
      ensures thread == Some(WatchThread(directory, Sender(CHANNEL_CAPACITY)))
      ensures sender == Some(Sender(CHANNEL_CAPACITY))
    {
      var s := Sender(CHANNEL_CAPACITY);
      var refresh := s;
      thread := Some(WatchThread(directory, refresh));
      sender := Some(s);
    }

    /** A new subscription exactly when the sender is still there; reading
        the watcher changes nothing. */
    function Subscribe(): (r: Option<Receiver>)
      reads this
      ensures r.Some? <==> sender.Some?
      ensures r.Some? ==> r.value.capacity == sender.value.capacity
    {
      match sender
      case Some(s) => Some(Receiver(s.capacity))
      case None => None
    }

    /** `Drop::drop`: takes the thread and joins it if there was one, then
        clears the sender, after which nobody can subscribe. When the thread
        had panicked (`threadPanicked`), the join reports it, the `unwrap`
        on that result panics, and the sender is never cleared. */
    method Drop(threadPanicked: bool) returns (steps: seq<DropStep>)
      modifies this
      ensures thread.None?
      ensures old(thread).Some? && threadPanicked ==>
        steps == [JoinPanicked(old(thread).value)] && sender == old(sender)
      ensures !(old(thread).Some? && threadPanicked) ==>
        sender.None? && Subscribe().None? &&
        steps == (if old(thread).Some? then [Joined(old(thread).value)] else []) + [SenderCleared]
    {
      steps := [];
      var h := thread;
      thread := None;
      if h.Some? {
        if threadPanicked {
          steps := [JoinPanicked(h.value)];
          return;
        }
        steps := [Joined(h.value)];
      }
      sender := None;
      steps := steps + [SenderCleared];
    }
  }

  /** The debounced events the OS watcher delivers. */
  datatype DebouncedEvent =
    | NoticeWrite(path: string)
    | NoticeRemove(path: string)
    | Create(path: string)
    | Write(path: string)
    | Chmod(path: string)
    | Remove(path: string)
    | Rename(source: string, target: string)
    | Rescan
    | Error(message: string, errorPath: Option<string>)

  /** One outcome of the thread's blocking receive. */
  datatype Received = Delivered(event: DebouncedEvent) | RecvFailed

  /** The event kinds that make the thread send a reload signal. */
  predicate TriggersRefresh(e: DebouncedEvent) {
    e.Write? || e.Remove? || e.Rename? || e.Rescan?
  }

  predicate SendsSignal(x: Received) {
    x.Delivered? && TriggersRefresh(x.event)
  }

  /** The positions in the receive trace at which a signal is sent. */
  function SignalPositions(received: seq<Received>): (signals: seq<nat>)
    decreases |received|
  {
    if received == [] then []
    else
      var n := |received| - 1;
      SignalPositions(received[..n]) + (if SendsSignal(received[n]) then [n] else [])
  }

  /** `watch_for_file_changes`, with its receive loop over a finite trace of
      receive outcomes. When setting up the OS watcher fails (`setupOk` is
      false) the thread panics before the loop and sends nothing. Otherwise
      the loop handles every item (no branch leaves it), sends one signal per
      write, remove, rename or rescan event and none for any other event or
      for a receive error. The result of each send, `sendOutcomes[i]` for
      item `i`, is discarded: the signals sent do not depend on it. */
  method WatchForFileChanges(setupOk: bool, received: seq<Received>, sendOutcomes: seq<bool>)
    returns (signalled: seq<nat>, handled: nat)
    requires |sendOutcomes| == |received|
    ensures !setupOk ==> signalled == [] && handled == 0
    ensures setupOk ==> handled == |received| && signalled == SignalPositions(received)
  {
    signalled, handled := [], 0;
    if !setupOk {
      return;
    }
    while handled < |received|
      invariant handled <= |received|
      invariant signalled == SignalPositions(received[..handled])
    {
      assert received[..handled + 1][..handled] == received[..handled];
      match received[handled] {
        case Delivered(event) =>
          if TriggersRefresh(event) {
            signalled := signalled + [handled];
          }
        case RecvFailed =>
      }
      handled := handled + 1;
    }
    assert received[..handled] == received;
  }

  /** Exactly one signal per qualifying event, in arrival order: every
      position listed holds a write, remove, rename or rescan event, the
      positions increase strictly, and every such event is listed. */
  lemma {:induction false} SignalPositionsExact(received: seq<Received>)
    ensures forall k :: 0 <= k < |SignalPositions(received)| ==>
      SignalPositions(received)[k] < |received| && SendsSignal(received[SignalPositions(received)[k]])
    ensures forall k, l :: 0 <= k < l < |SignalPositions(received)| ==>
      SignalPositions(received)[k] < SignalPositions(received)[l]
    ensures forall p :: 0 <= p < |received| && SendsSignal(received[p]) ==> p in SignalPositions(received)
    decreases |received|
  {
    if received != [] {
      var n := |received| - 1;
      var front := received[..n];
      SignalPositionsExact(front);
      assert forall p :: 0 <= p < n ==> front[p] == received[p];
    }
  }

  /** The positions `s` would have behind `offset` earlier items. */
  function Shift(s: seq<nat>, offset: nat): (r: seq<nat>)
    ensures |r| == |s| && forall k :: 0 <= k < |s| ==> r[k] == s[k] + offset
  {
    seq(|s|, k requires 0 <= k < |s| => s[k] + offset)
  }

  /** Shifting distributes over concatenation. */
  lemma ShiftAppend(s: seq<nat>, t: seq<nat>, offset: nat)
    ensures Shift(s + t, offset) == Shift(s, offset) + Shift(t, offset)
  {
  }

  /** Handling is compositional: the signals for a trace are those of its
      first part followed by those of its second part, shifted; a receive
      error or an ignored event between them changes nothing later on. */
  lemma {:induction false} SignalPositionsAppend(a: seq<Received>, b: seq<Received>)
    ensures SignalPositions(a + b) == SignalPositions(a) + Shift(SignalPositions(b), |a|)
    decreases |b|
  {
    if b == [] {
      assert a + b == a;
    } else {
      var n := |b| - 1;
      assert (a + b)[..|a| + n] == a + b[..n];
      assert (a + b)[|a| + n] == b[n];
      SignalPositionsAppend(a, b[..n]);
      var tail: seq<nat> := if SendsSignal(b[n]) then [n] else [];
      assert SignalPositions(b) == SignalPositions(b[..n]) + tail;
      ShiftAppend(SignalPositions(b[..n]), tail, |a|);
    }
  }
}
