/**
 * The ClickLogs collection: one record per visit of a short link. The
 * schema declares shortCode, clickedAt and ipAddress (plus the timestamps,
 * which no query returns); a user agent is not among them.
 */
module ClickModel {
  import opened Wrappers

  datatype ClickLog = ClickLog(shortCode: string, clickedAt: int, ipAddress: Option<string>)

  /** shortCode is required (a non-empty string); clickedAt always has a value; ipAddress is optional. */
  predicate ClickLogValid(log: ClickLog)
  {
    log.shortCode != ""
  }

  /**
   * The document create() builds from { shortCode, userAgent, ipAddress }:
   * clickedAt takes its default, the current time, and the user agent is
   * dropped because the schema has no path for it.
   */
  function NewClickLog(shortCode: string, userAgent: Option<string>, ipAddress: Option<string>, now: int): (log: ClickLog)
    ensures log.shortCode == shortCode && log.clickedAt == now && log.ipAddress == ipAddress
    ensures ClickLogValid(log) <==> shortCode != ""
  {
    ClickLog(shortCode, now, ipAddress)
  }

  /** The user agent leaves no trace: two visits that differ only in it log the same record. */
  lemma UserAgentNotStored(code: string, ua1: Option<string>, ua2: Option<string>, ip: Option<string>, now: int)
    ensures NewClickLog(code, ua1, ip, now) == NewClickLog(code, ua2, ip, now)
  {
  }

  /** find({ shortCode: code }) on the logs: those with that code, in insertion order. */
  function LogsFor(logs: seq<ClickLog>, code: string): (r: seq<ClickLog>)
    ensures |r| <= |logs|
    ensures forall l :: l in r <==> l in logs && l.shortCode == code
  {
    if logs == [] then []
    else LogsFor(logs[..|logs| - 1], code) + (if logs[|logs| - 1].shortCode == code then [logs[|logs| - 1]] else [])
  }

  /** The query keeps every copy: each log occurs in the result as often as in the collection when it has the code, and never otherwise. */
  lemma {:induction false} LogsForCount(logs: seq<ClickLog>, code: string)
    ensures forall l :: multiset(LogsFor(logs, code))[l] == if l.shortCode == code then multiset(logs)[l] else 0
  {
    if logs != [] {
      var t, last := logs[..|logs| - 1], logs[|logs| - 1];
      assert logs == t + [last];
      LogsForCount(t, code);
    }
  }

  /** Appending a log adds it to the logs of its own code and to no other code's. */
  lemma LogsForAppend(logs: seq<ClickLog>, log: ClickLog, code: string)
    ensures LogsFor(logs + [log], code) == LogsFor(logs, code) + (if log.shortCode == code then [log] else [])
  {
    assert (logs + [log])[..|logs|] == logs;
  }
}
