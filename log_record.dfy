/** The ten-column record of the live CSV log: the column list, the header
    line, the defaults applied to a captured exchange before it is written,
    and the rows written for system events. */
module LogRecord {

  import opened CsvFormat
  import opened Wrappers
  import Strings
  import CsvParse

  /** The fields of a log entry, one per column; a missing property is
      `Absent`. */
  datatype LogData = LogData(
    timestamp: Value, httpMethod: Value, url: Value, statusCode: Value,
    responseTime: Value, ip: Value, userAgent: Value,
    isEditorRequest: Value, isDashboardRequest: Value, connectionIssues: Value)

  /** `csvHeaders`, in declared order. */
  const ColumnNames: seq<string> := ["timestamp", "method", "url", "statusCode",
    "responseTime", "ip", "userAgent", "isEditorRequest", "isDashboardRequest",
    "connectionIssues"]

  /** The header line: `csvHeaders.join(',') + '\n'`. */
  function Header(): string
  {
    Strings.JoinWith(ColumnNames, ',') + "\n"
  }

  /** The entry's values in column order. */
  function Columns(e: LogData): (r: seq<Value>)
    ensures |r| == |ColumnNames|
  {
    [e.timestamp, e.httpMethod, e.url, e.statusCode, e.responseTime, e.ip,
     e.userAgent, e.isEditorRequest, e.isDashboardRequest, e.connectionIssues]
  }

  /** The longest user agent that is written. */
  const MaxUserAgent := 100

  function Min(a: int, b: int): int { if a <= b then a else b }

  /** The defaults applied to `logData` before it is written.  Every column
      but two is written as it came in (a falsy value and its default both
      render as the empty field); a missing timestamp becomes `now`, and the
      user agent keeps its first 100 characters.  `substring` exists only on
      strings, so a truthy user agent of another type throws, and the record
      is dropped: the result is `None` exactly then. */
  function BuildEntry(d: LogData, now: string): (r: Option<LogData>)
    ensures r.Some? <==> (Falsy(d.userAgent) || d.userAgent.Str?)
    ensures r.Some? ==>
      var e := r.value;
      && Text(e.timestamp) == (if Falsy(d.timestamp) then now else Text(d.timestamp))
      && e.userAgent == Str(if Falsy(d.userAgent) then ""
                            else d.userAgent.s[..Min(MaxUserAgent, |d.userAgent.s|)])
      && forall i :: 0 <= i < |ColumnNames| && i != 0 && i != 6 ==>
           RenderField(Columns(e)[i]) == RenderField(Columns(d)[i])
  {
    var agent := Or(d.userAgent, Str(""));
    if !agent.Str? then None
    else
      Some(LogData(
        Or(d.timestamp, Str(now)),
        Or(d.httpMethod, Str("")),
        Or(d.url, Str("")),
        Or(d.statusCode, Str("")),
        Or(d.responseTime, Str("")),
        Or(d.ip, Str("")),
        Str(agent.s[..Min(MaxUserAgent, |agent.s|)]),
        Or(d.isEditorRequest, Bool(false)),
        Or(d.isDashboardRequest, Bool(false)),
        Or(d.connectionIssues, Str(""))))
  }

  /** The defaults change the text of no column but the timestamp and the
      user agent. */
  lemma BuildEntryKeepsTexts(d: LogData, now: string)
    requires BuildEntry(d, now).Some?
    ensures var e := BuildEntry(d, now).value;
      forall i :: 0 <= i < |ColumnNames| && i != 0 && i != 6 ==>
        Text(Columns(e)[i]) == Text(Columns(d)[i])
  {
    var e := BuildEntry(d, now).value;
    forall i | 0 <= i < |ColumnNames| && i != 0 && i != 6
      ensures Text(Columns(e)[i]) == Text(Columns(d)[i])
    {
      CsvParse.RenderedTextsAgree(Columns(e)[i], Columns(d)[i]);
    }
  }

  /** One data row of the live log. */
  function EncodeRow(e: LogData): string
  {
    EncodeValues(Columns(e))
  }

  /** A row holds the ten columns in declared order: reading it back gives
      ten fields, the texts of the entry's values. */
  lemma RowReadsBack(e: LogData)
    ensures CsvParse.ParseRecord(EncodeRow(e)) == Some((TextAll(Columns(e)), ""))
    ensures |TextAll(Columns(e))| == |ColumnNames|
  {
    CsvParse.RecordRoundTrip(Columns(e), "");
    assert EncodeRow(e) + "" == EncodeRow(e);
  }

  /** `severity === 'error' ? 500 : severity === 'warn' ? 300 : 200` */
  function StatusFor(severity: string): (r: int)
    ensures r == 500 <==> severity == "error"
    ensures r == 300 <==> severity == "warn"
    ensures r in {200, 300, 500}
  {
    if severity == "error" then 500 else if severity == "warn" then 300 else 200
  }

  /** Event types whose details are kept in the connectionIssues column. */
  predicate KeepsDetails(eventType: string)
  {
    Strings.Contains(eventType, "CONNECTION") || Strings.Contains(eventType, "SERVER")
  }

  /** The `logData` that `logSystemEventToCsv` hands to `addToCsvLog`.  It
      is already complete: the defaults of `addToCsvLog` leave it as it is. */
  function SystemEventData(eventType: string, details: string, severity: string, now: string): (r: LogData)
    ensures BuildEntry(r, now) == Some(r)
  {
    var r := LogData(
      Str(now), Str("SYSTEM"), Str(eventType), Num(StatusFor(severity)), Str(""),
      Str("localhost"), Str("Node-RED-System"), Bool(false), Bool(false),
      Str(if KeepsDetails(eventType) then details else ""));
    assert "Node-RED-System"[..Min(MaxUserAgent, 15)] == "Node-RED-System";
    r
  }

  /** The texts of the columns of a system event, in column order. */
  function SystemTexts(eventType: string, details: string, severity: string, now: string): seq<string>
  {
    [now, "SYSTEM", eventType, IntToString(StatusFor(severity)), "", "localhost",
     "Node-RED-System", "", "", if KeepsDetails(eventType) then details else ""]
  }

  lemma SystemColumnTexts(eventType: string, details: string, severity: string, now: string)
    ensures TextAll(Columns(SystemEventData(eventType, details, severity, now)))
         == SystemTexts(eventType, details, severity, now)
  {
  }

  /** The row a system event adds; reading it back gives the fields above. */
  function SystemRow(eventType: string, details: string, severity: string, now: string): (r: string)
    ensures r == EncodeRow(SystemEventData(eventType, details, severity, now))
    ensures CsvParse.ParseRecord(r) == Some((SystemTexts(eventType, details, severity, now), ""))
  {
    var e := SystemEventData(eventType, details, severity, now);
    RowReadsBack(e);
    SystemColumnTexts(eventType, details, severity, now);
    EncodeRow(e)
  }
}
