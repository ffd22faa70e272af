/** The state a TestSystem keeps and the events it forwards: its two flags, the
    execution log it creates through its variant, and the listener it reports output,
    completion and exceptions to. Starting, stopping and killing the runner process
    belong to the concrete variants and are not part of this model. */
module Lifecycle {
  import opened Wrappers
  import opened JavaLang

  /** A Throwable, reduced to its message. */
  datatype Fault = Fault(message: string)

  /** The counts a finished test page reports. */
  datatype TestSummary = TestSummary(right: int, wrong: int, ignores: int, exceptions: int)

  /** A notification received by the listener, in the order it was made. */
  datatype Event =
    | OutputFirst(output: string)
    | Completed(summary: TestSummary)
    | ExceptionRaised(fault: Fault)

  const ABORT_REASON_PREFIX := "Test execution aborted abnormally with error code "

  /** The reason recorded when a run fails: the fixed text, then the exit code in decimal,
      from which the exit code can be read back. */
  function AbortReason(exitCode: int): (r: string)
    ensures |r| > |ABORT_REASON_PREFIX| && r[..|ABORT_REASON_PREFIX|] == ABORT_REASON_PREFIX
    ensures var code := r[|ABORT_REASON_PREFIX|..];
      (code[0] == '-' <==> exitCode < 0)
      && IsDigits(if code[0] == '-' then code[1..] else code)
      && Canonical(if code[0] == '-' then code[1..] else code)
      && ParseInt(code) == exitCode
  {
    var r := ABORT_REASON_PREFIX + IntToString(exitCode);
    assert r[|ABORT_REASON_PREFIX|..] == IntToString(exitCode);
    IntToStringRoundTrip(exitCode);
    r
  }

  /** The record of one run: its exit code, the reasons and the exceptions collected. */
  class ExecutionLog {
    var exitCode: int
    var reasons: seq<string>
    var exceptions: seq<Fault>

    constructor (exitCode: int)
      ensures this.exitCode == exitCode && reasons == [] && exceptions == []
    {
      this.exitCode := exitCode;
      reasons := [];
      exceptions := [];
    }

    method AddException(e: Fault)
      modifies this
      ensures exceptions == old(exceptions) + [e]
      ensures reasons == old(reasons) && exitCode == old(exitCode)
    {
      exceptions := exceptions + [e];
    }

    method AddReason(reason: string)
      modifies this
      ensures reasons == old(reasons) + [reason]
      ensures exceptions == old(exceptions) && exitCode == old(exitCode)
    {
      reasons := reasons + [reason];
    }
  }

  /** The listener the test system reports to; it keeps what it was told. */
  class Listener {
    var events: seq<Event>

    constructor ()
      ensures events == []
    {
      events := [];
    }

    method Notify(event: Event)
      modifies this
      ensures events == old(events) + [event]
    {
      events := events + [event];
    }
  }

  class TestSystem {
    const listener: Listener
    var fastTest: bool
    var manualStart: bool
    var log: ExecutionLog?

    constructor (listener: Listener)
      ensures this.listener == listener
      ensures !fastTest && !manualStart && log == null
    {
      this.listener := listener;
      fastTest, manualStart, log := false, false, null;
    }

    method SetFastTest(fastTest: bool)
      modifies this
      ensures this.fastTest == fastTest
      ensures manualStart == old(manualStart) && log == old(log)
    {
      this.fastTest := fastTest;
    }

    method SetManualStart(manualStart: bool)
      modifies this
      ensures this.manualStart == manualStart
      ensures fastTest == old(fastTest) && log == old(log)
    {
      this.manualStart := manualStart;
    }

    /** getExecutionLog: `created` is what the variant's createExecutionLog produced for
        the classpath and descriptor, or the exception it threw. On success the new log
        replaces the old one; on failure the exception propagates and the log is kept. */
    method GetExecutionLog(created: Result<ExecutionLog, Exception>) returns (r: Result<ExecutionLog, Exception>)
      modifies this
      ensures r == created
      ensures log == if created.Ok? then created.value else old(log)
      ensures fastTest == old(fastTest) && manualStart == old(manualStart)
    {
      match created
      case Ok(newLog) =>
        log := newLog;
        r := Ok(newLog);
      case Failure(e) =>
        r := Failure(e);
    }

    method AcceptOutputFirst(output: string)
      modifies listener
      ensures listener.events == old(listener.events) + [OutputFirst(output)]
    {
      listener.Notify(OutputFirst(output));
    }

    method TestComplete(summary: TestSummary)
      modifies listener
      ensures listener.events == old(listener.events) + [Completed(summary)]
    {
      listener.Notify(Completed(summary));
    }

    /** exceptionOccurred: records the exception and a reason carrying the current exit
        code in the log, then passes the exception on to the listener. Without a log the
        first step dereferences null: a NullPointerException, and nothing is recorded or
        forwarded. */
    method ExceptionOccurred(e: Fault) returns (thrown: Option<Exception>)
      modifies log, listener
      ensures old(log) == null ==> thrown == Some(NullPointer) && listener.events == old(listener.events)
      ensures old(log) != null ==>
        thrown == None
        && log.exceptions == old(log.exceptions) + [e]
        && log.reasons == old(log.reasons) + [AbortReason(old(log.exitCode))]
        && log.exitCode == old(log.exitCode)
        && listener.events == old(listener.events) + [ExceptionRaised(e)]
    {
      if log == null {
        return Some(NullPointer);
      }
      log.AddException(e);
      log.AddReason(AbortReason(log.exitCode));
      listener.Notify(ExceptionRaised(e));
      thrown := None;
    }
  }
}
