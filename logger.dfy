/**
 * The session event log of build/logger.js: a module-level array that
 * `log` pushes onto and `getLogs` hands back. It starts empty on every
 * page load and is never persisted or pruned.
 */
module Logger {
  import opened Wrappers

  /**
   * One log record `{message, type, timestamp}`. The source's `type` field
   * is called `kind` here (`type` is a keyword); `timestamp` is the clock
   * reading in milliseconds, of which the source keeps the ISO-8601 text.
   */
  datatype LogEntry = LogEntry(message: string, kind: string, timestamp: int)

  /** The severity a caller gets when it passes no `type` argument. */
  const DefaultKind: string := "INFO"

  /** `None` stands for an absent or `undefined` argument; an explicit "" is kept. */
  function KindOrDefault(kind: Option<string>): string
  {
    match kind
    case Some(k) => k
    case None => DefaultKind
  }

  /** The log after one more record: it grows at its end and keeps every earlier record in place. */
  function Append(logs: seq<LogEntry>, message: string, kind: string, timestamp: int): (r: seq<LogEntry>)
    ensures |r| == |logs| + 1
    ensures r[..|logs|] == logs
    ensures r[|logs|] == LogEntry(message, kind, timestamp)
  {
    logs + [LogEntry(message, kind, timestamp)]
  }

  class EventLog {
    /** The array `logEvents`, in append order. */
    var entries: seq<LogEntry>

    /** A new session's log is empty. */
    constructor ()
      ensures entries == []
    {
      entries := [];
    }

    /** `log(message, type = "INFO")`: push one record stamped with the current time. */
    method Log(message: string, kind: Option<string>, now: int)
      modifies this
      ensures entries == Append(old(entries), message, KindOrDefault(kind), now)
    {
      var entry := LogEntry(message, KindOrDefault(kind), now);
      entries := entries + [entry];
    }

    /** `getLogs()`: every record so far, oldest first; the log itself is not changed. */
    method GetLogs() returns (r: seq<LogEntry>)
      ensures r == entries
    {
      r := entries;
    }
  }
}
