/** The bounded queue between the handlers and the log writer: `QueryLogger` of src/query_log.cpp. */
module Logger {
  import opened Wire
  import opened QueryLog

  // ----- the queue discipline -----

  datatype LogState = LogState(queue: seq<string>, written: seq<string>, dropped: nat)

  /** A producer submits a line, or the writer drains the queue. Each holds the lock throughout. */
  datatype LogOp = Submit(line: string) | Drain

  const START: LogState := LogState([], [], 0)

  function Apply(s: LogState, max: nat, op: LogOp): LogState {
    match op
    case Submit(line) => if |s.queue| >= max then s.(dropped := s.dropped + 1) else s.(queue := s.queue + [line])
    case Drain => LogState([], s.written + s.queue, s.dropped)
  }

  function After(max: nat, ops: seq<LogOp>): LogState {
    if ops == [] then START else Apply(After(max, ops[..|ops| - 1]), max, ops[|ops| - 1])
  }

  // ----- what a run should amount to, without any queue -----

  /** The lines submitted since the last drain. */
  function SinceDrain(ops: seq<LogOp>): seq<string> {
    if ops == [] then []
    else match ops[|ops| - 1] case Drain => [] case Submit(line) => SinceDrain(ops[..|ops| - 1]) + [line]
  }

  /** The lines that count: between two drains, the first `max`. */
  function Accepted(max: nat, ops: seq<LogOp>): seq<string> {
    if ops == [] then []
    else
      var before := ops[..|ops| - 1];
      match ops[|ops| - 1]
      case Drain => Accepted(max, before)
      case Submit(line) => if |SinceDrain(before)| < max then Accepted(max, before) + [line] else Accepted(max, before)
  }

  function Submitted(ops: seq<LogOp>): nat {
    if ops == [] then 0 else Submitted(ops[..|ops| - 1]) + if ops[|ops| - 1].Submit? then 1 else 0
  }

  /** In every interleaving of submitting and draining: what was accepted is what was written followed by
      what is queued, in order; everything submitted was accepted or counted as dropped; the queue holds the
      first lines since the last drain and stays within its bound. */
  lemma {:induction false} Conservation(max: nat, ops: seq<LogOp>)
    ensures var s := After(max, ops);
      && s.written + s.queue == Accepted(max, ops)
      && |Accepted(max, ops)| + s.dropped == Submitted(ops)
      && s.queue == (if |SinceDrain(ops)| <= max then SinceDrain(ops) else SinceDrain(ops)[..max])
      && |s.queue| <= max
  {
    if ops != [] {
      var before := ops[..|ops| - 1];
      Conservation(max, before);
      var s := After(max, before);
      match ops[|ops| - 1] {
        case Drain =>
          assert s.written + s.queue + [] == s.written + s.queue;
        case Submit(line) =>
          assert s.written + s.queue + [line] == s.written + (s.queue + [line]);
      }
    }
  }

  /** After shutdown the queue is empty and the file, split on newlines, is exactly the accepted lines. */
  lemma {:induction false} NothingAcceptedIsLost(max: nat, ops: seq<LogOp>)
    requires forall i :: 0 <= i < |ops| && ops[i].Submit? ==> '\n' !in ops[i].line
    ensures var s := After(max, ops + [Drain]);
      && s.queue == [] && s.written == Accepted(max, ops) && SplitLines(Contents(s.written)) == Accepted(max, ops)
      && |s.written| + s.dropped == Submitted(ops)
  {
    hide Accepted, SplitLines, Submitted;
    var all := ops + [Drain];
    assert all[..|all| - 1] == ops;
    Conservation(max, ops);
    AcceptedWhole(max, ops);
    SplitLinesRoundTrip(Accepted(max, ops));
  }

  lemma {:induction false} AcceptedWhole(max: nat, ops: seq<LogOp>)
    requires forall i :: 0 <= i < |ops| && ops[i].Submit? ==> '\n' !in ops[i].line
    ensures forall i :: 0 <= i < |Accepted(max, ops)| ==> '\n' !in Accepted(max, ops)[i]
  {
    if ops != [] { AcceptedWhole(max, ops[..|ops| - 1]); }
  }

  // ----- the logger -----

  function Redacted(r: LogRecord, redact: Option<string -> string>): LogRecord {
    if redact.Some? && r.client != "" then r.(client := redact.value(r.client)) else r
  }

  /** A logger whose stream is in order. */
  class QueryLogger {
    const enabled: bool
    const buffered: bool
    const queueSize: nat
    const redact: Option<string -> string>
    const sizeAtOpen: nat
    var stream: string
    var bytesWritten: nat
    var queue: seq<string>
    var dropped: nat
    var stopping: bool
    ghost var written: seq<string>

    /** The stream has exactly the lines written, the byte count is the size of the file, and only a
        buffered logger queues, within its bound. */
    ghost predicate Valid()
      reads this
    {
      && stream == Contents(written) && bytesWritten == sizeAtOpen + |stream|
      && |queue| <= queueSize && (!buffered || !enabled ==> queue == [])
    }

    ghost function Value(): LogState
      reads this
    {
      LogState(queue, written, dropped)
    }

    constructor (enabled: bool, buffered: bool, queueSize: nat, redact: Option<string -> string>, sizeAtOpen: nat)
      ensures Valid() && Value() == START && !stopping
      ensures this.enabled == enabled && this.buffered == buffered && this.queueSize == queueSize
        && this.redact == redact
    {
      this.enabled, this.buffered, this.queueSize, this.redact, this.sizeAtOpen :=
        enabled, buffered, queueSize, redact, sizeAtOpen;
      stream, bytesWritten, queue, dropped, stopping, written := [], sizeAtOpen, [], 0, false, [];
    }

    method WriteOne(line: string)
      requires Valid()
      modifies `stream, `bytesWritten, `written
      ensures Valid() && written == old(written) + [line]
    {
      ContentsSnoc(written, line);
      stream := stream + line + "\n";
      bytesWritten := bytesWritten + |line| + 1;
      written := written + [line];
    }

    method Log(record: LogRecord)
      requires Valid()
      modifies `stream, `bytesWritten, `written, `queue, `dropped
      ensures Valid()
      ensures !enabled ==> Value() == old(Value())
      ensures enabled && buffered ==>
        Value() == Apply(old(Value()), queueSize, Submit(JsonLine(Redacted(record, redact))))
      ensures enabled && !buffered ==>
        Value() == old(Value()).(written := old(written) + [JsonLine(Redacted(record, redact))])
    {
      if !enabled { return; }
      var r := record;
      if redact.Some? && r.client != "" { r := r.(client := redact.value(r.client)); }
      var line := ToJsonLine(r);
      if !buffered {
        WriteOne(line);
        return;
      }
      if |queue| >= queueSize {
        dropped := dropped + 1;
        return;
      }
      queue := queue + [line];
    }

    /** The writer's burst, which also ends the logger's life. */
    method DrainQueue()
      requires Valid()
      modifies `stream, `bytesWritten, `written, `queue
      ensures Valid() && Value() == Apply(old(Value()), queueSize, Drain)
    {
      ghost var all := written + queue;
      while queue != []
        invariant Valid() && written + queue == all && dropped == old(dropped)
        decreases |queue|
      {
        var line := queue[0];
        ghost var before := written;
        assert queue == [line] + queue[1..];
        queue := queue[1..];
        WriteOne(line);
        assert before + ([line] + queue) == written + queue;
      }
      assert written + [] == written;
    }

    method Shutdown()
      requires Valid()
      modifies this
      ensures Valid() && stopping && queue == [] && written == old(written) + old(queue) && dropped == old(dropped)
    {
      stopping := true;
      DrainQueue();
    }
  }
}
