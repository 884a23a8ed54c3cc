/**
 * `killproc`: with a row selected, send SIGTERM to its pid once and report
 * which exception, if any, `os.kill` raised. There is no wait and no retry.
 */
module Controller {
  import opened Wrappers
  import opened ProcessCache

  /** `signal.SIGTERM` on POSIX systems. */
  const SIGTERM: int := 15

  /** One `os.kill(pid, signum)` call. */
  datatype Signal = Signal(pid: Pid, signum: int)

  /** How `os.kill` returns. */
  datatype SignalReply =
    | Delivered            // returns normally
    | LookupFailed         // raises `ProcessLookupError`
    | NotPermitted         // raises `PermissionError`
    | OtherOSError         // raises any other `OSError`

  /** The operating system's answer to each signal it could be sent. */
  type SignalOracle = Signal -> SignalReply

  /** What the user is shown. */
  datatype KillOutcome =
    | NoSelection          // line 98: the "select a process" warning
    | Terminated(pid: Pid) // line 105
    | NotFound(pid: Pid)   // line 108
    | Denied(pid: Pid)     // line 111
    | Unhandled(pid: Pid)  // no handler matches: the exception escapes the callback

  /** The signals sent, in order, and the outcome. */
  datatype Kill = Kill(sent: seq<Signal>, outcome: KillOutcome)

  /** Lines 103-111: the handler that matches the reply to the signal sent to `pid`. */
  function Classify(pid: Pid, reply: SignalReply): (o: KillOutcome)
    ensures !o.NoSelection? && o.pid == pid
    ensures o.Terminated? <==> reply.Delivered?
    ensures o.NotFound? <==> reply.LookupFailed?
    ensures o.Denied? <==> reply.NotPermitted?
    ensures o.Unhandled? <==> reply.OtherOSError?
  {
    match reply
    case Delivered => Terminated(pid)
    case LookupFailed => NotFound(pid)
    case NotPermitted => Denied(pid)
    case OtherOSError => Unhandled(pid)
  }

  /** The reply an outcome reports; the inverse of `Classify`. */
  function ReplyOf(o: KillOutcome): (reply: SignalReply)
    requires !o.NoSelection?
    ensures Classify(o.pid, reply) == o
  {
    match o
    case Terminated(_) => Delivered
    case NotFound(_) => LookupFailed
    case Denied(_) => NotPermitted
    case Unhandled(_) => OtherOSError
  }

  /** One click of "Kill Process", given the selected pid (line 101), if any. */
  function KillProc(selection: Option<Pid>, os: SignalOracle): (k: Kill)
    ensures selection.None? <==> k.outcome.NoSelection?
    ensures selection.None? ==> k.sent == []
    ensures selection.Some? ==> k.sent == [Signal(selection.value, SIGTERM)]
    ensures selection.Some? ==> k.outcome.pid == selection.value
    ensures selection.Some? ==>
      && (k.outcome.Terminated? <==> os(Signal(selection.value, SIGTERM)).Delivered?)
      && (k.outcome.NotFound? <==> os(Signal(selection.value, SIGTERM)).LookupFailed?)
      && (k.outcome.Denied? <==> os(Signal(selection.value, SIGTERM)).NotPermitted?)
  {
    match selection
    case None => Kill([], NoSelection)
    case Some(pid) =>
      var s := Signal(pid, SIGTERM);
      Kill([s], Classify(pid, os(s)))
  }

  /**
   * The outcome loses nothing: it names the pid signalled and, through
   * `ReplyOf`, gives back exactly how `os.kill` answered.
   */
  lemma OutcomeRecordsReply(pid: Pid, os: SignalOracle)
    ensures var k := KillProc(Some(pid), os);
      && !k.outcome.NoSelection?
      && ReplyOf(k.outcome) == os(Signal(pid, SIGTERM))
      && Classify(pid, ReplyOf(k.outcome)) == k.outcome
  {
    var reply := os(Signal(pid, SIGTERM));
    assert KillProc(Some(pid), os).outcome == Classify(pid, reply);
  }

  /**
   * Exactly one signal, SIGTERM, to the selected pid, whatever the operating
   * system answers; no signal at all without a selection.
   */
  lemma SignalsSentAtMostOnce(selection: Option<Pid>, os: SignalOracle, other: SignalOracle)
    ensures KillProc(selection, os).sent == KillProc(selection, other).sent
    ensures |KillProc(selection, os).sent| == if selection.Some? then 1 else 0
  {
  }
}
