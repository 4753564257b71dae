/** The hook on the HTTP server's `request` event: requests without a URL
    and socket.io traffic are ignored; every other request gets its start
    time, and its response gets, once, a wrapper around `end` that writes
    one row to the live log when the response completes. */
module RequestHook {

  import opened CsvFormat
  import opened Wrappers
  import opened LogRecord
  import CsvStore
  import CsvParse
  import Strings

  /** `!req.url || req.url.indexOf('/socket.io') !== -1` */
  predicate Skipped(url: string)
  {
    url == "" || Strings.Contains(url, "/socket.io")
  }

  predicate IsEditorRequest(url: string)
  {
    Strings.StartsWith(url, "/red/") || url == "/" || Strings.StartsWith(url, "/?")
  }

  predicate IsDashboardRequest(url: string)
  {
    Strings.StartsWith(url, "/dashboard") || Strings.StartsWith(url, "/ui")
  }

  lemma DashboardSecondChar(url: string)
    requires IsDashboardRequest(url)
    ensures |url| >= 3 && (url[1] == 'd' || url[1] == 'u')
  {
    Strings.StartsWithPrefix(url, "/dashboard");
    Strings.StartsWithPrefix(url, "/ui");
    if Strings.StartsWith(url, "/dashboard") {
      assert url[..10][1] == url[1];
    } else {
      assert url[..3][1] == url[1];
    }
  }

  lemma EditorSecondChar(url: string)
    requires IsEditorRequest(url)
    ensures url == "/" || (|url| >= 2 && (url[1] == 'r' || url[1] == '?'))
  {
    Strings.StartsWithPrefix(url, "/red/");
    Strings.StartsWithPrefix(url, "/?");
    if Strings.StartsWith(url, "/red/") {
      assert url[..5][1] == url[1];
    } else if Strings.StartsWith(url, "/?") {
      assert url[..2][1] == url[1];
    }
  }

  /** No URL is both an editor and a dashboard request: after the leading
      slash the editor prefixes go on with `r` or `?` (or stop), the
      dashboard prefixes with `d` or `u`. */
  lemma EditorAndDashboardExclusive(url: string)
    ensures !(IsEditorRequest(url) && IsDashboardRequest(url))
  {
    if IsEditorRequest(url) && IsDashboardRequest(url) {
      DashboardSecondChar(url);
      EditorSecondChar(url);
    }
  }

  /** The connectionIssues column of a request: `connection-close` when the
      response's Connection header, lower-cased, mentions `close`. */
  function ConnectionIssues(connection: Option<string>): (r: string)
    ensures r == "connection-close" || r == ""
    ensures r == "connection-close" <==>
      connection.Some? && Strings.Contains(Strings.ToLowerAscii(connection.value), "close")
  {
    match connection
    case None => ""
    case Some(h) =>
      if h != "" && Strings.Contains(Strings.ToLowerAscii(h), "close") then "connection-close" else ""
  }

  lemma ToLowerIdempotent(s: string)
    ensures Strings.ToLowerAscii(Strings.ToLowerAscii(s)) == Strings.ToLowerAscii(s)
  {
  }

  /** The header's case does not matter. */
  lemma ConnectionIssuesIgnoresCase(h: string)
    ensures ConnectionIssues(Some(h)) == ConnectionIssues(Some(Strings.ToLowerAscii(h)))
  {
    ToLowerIdempotent(h);
  }

  /** A closing connection is flagged whatever the header's case; a
      kept-alive one is not. */
  lemma ConnectionExamples()
    ensures ConnectionIssues(Some("Close")) == "connection-close"
    ensures ConnectionIssues(Some("keep-alive")) == ""
    ensures ConnectionIssues(None) == ""
  {
    LowerClose();
    LowerKeepAlive();
  }

  lemma LowerClose()
    ensures Strings.ToLowerAscii("Close") == "close"
    ensures Strings.Contains("close", "close")
  {
  }

  lemma LowerKeepAlive()
    ensures Strings.ToLowerAscii("keep-alive") == "keep-alive"
    ensures !Strings.Contains("keep-alive", "close")
  {
    KeepAliveIsLower();
    KeepAliveHasNoClose();
  }

  lemma KeepAliveIsLower()
    ensures Strings.ToLowerAscii("keep-alive") == "keep-alive"
  {
    Strings.LowerUnchanged("keep-alive");
  }

  lemma KeepAliveHasNoClose()
    ensures !Strings.Contains("keep-alive", "close")
  {
    assert Strings.PairAbsent("keep-alive", 'c', 'l');
    Strings.NotContains("keep-alive", "close", 0);
  }

  /** `Date.now() - (req._startTime || Date.now())`, both readings of the
      clock being `nowMs`. */
  function ResponseTime(startTime: int, nowMs: int): (r: int)
    ensures startTime != 0 ==> r + startTime == nowMs
    ensures startTime == 0 ==> r == 0
  {
    if startTime == 0 then 0 else nowMs - startTime
  }

  /** `req.ip || req.connection.remoteAddress || req.socket.remoteAddress` */
  function ClientAddress(ip: Value, connectionAddress: Value, socketAddress: Value): (r: Value)
    ensures !Falsy(ip) ==> r == ip
    ensures Falsy(ip) && !Falsy(connectionAddress) ==> r == connectionAddress
    ensures Falsy(ip) && Falsy(connectionAddress) ==> r == socketAddress
  {
    Or(Or(ip, connectionAddress), socketAddress)
  }

  /** An incoming request as the hook sees it.  `startTime` is 0 until the
      hook sets it; `userAgent` is `Absent` when the request has no headers.
      `url` may change while the request is handled (a mounted router
      rewrites it), so the listener and the wrapper each read it when they
      run. */
  class Request {
    var url: string
    const httpMethod: Value
    const ip: Value
    const connectionAddress: Value
    const socketAddress: Value
    const userAgent: Value
    var startTime: int

    constructor (url: string, httpMethod: Value, ip: Value, connectionAddress: Value,
                 socketAddress: Value, userAgent: Value)
      ensures this.url == url && this.httpMethod == httpMethod && this.ip == ip
      ensures this.connectionAddress == connectionAddress && this.socketAddress == socketAddress
      ensures this.userAgent == userAgent && startTime == 0
    {
      this.url := url;
      this.httpMethod := httpMethod;
      this.ip := ip;
      this.connectionAddress := connectionAddress;
      this.socketAddress := socketAddress;
      this.userAgent := userAgent;
      startTime := 0;
    }
  }

  /** The wrapper installed on `res.end`: the request it was made for and
      the two classifications computed, from the URL of that moment, when
      it was made. */
  datatype Wrapper = Wrapper(req: Request, isEditor: bool, isDashboard: bool)

  /** A response: its status, its Connection header, the `_loggerHooked`
      flag and the wrapper on `end`, if any.  `wraps` counts the wrappers
      installed. */
  class Response {
    var statusCode: int
    var connection: Option<string>
    var loggerHooked: bool
    var hook: Option<Wrapper>
    ghost var wraps: nat

    ghost predicate Valid()
      reads this
    {
      (loggerHooked <==> hook.Some?) && wraps == (if loggerHooked then 1 else 0)
    }

    constructor (statusCode: int, connection: Option<string>)
      ensures Valid() && !loggerHooked && hook.None?
      ensures this.statusCode == statusCode && this.connection == connection
    {
      this.statusCode := statusCode;
      this.connection := connection;
      loggerHooked := false;
      hook := None;
      wraps := 0;
    }
  }

  /** The log data the wrapper hands to `addToCsvLog` when `end` runs: the
      URL as it is then, the classifications as they were at the request. */
  function RequestLogData(w: Wrapper, startTime: int, statusCode: int,
                          connection: Option<string>, nowMs: int, nowIso: string): LogData
    reads w.req
  {
    LogData(
      Str(nowIso), w.req.httpMethod, Str(w.req.url), Num(statusCode),
      Num(ResponseTime(startTime, nowMs)),
      ClientAddress(w.req.ip, w.req.connectionAddress, w.req.socketAddress),
      w.req.userAgent, Bool(w.isEditor), Bool(w.isDashboard),
      Str(ConnectionIssues(connection)))
  }

  /** The `request` listener.  A skipped request changes nothing.  Any
      other request gets its start time; its response is wrapped only if
      it was not already, so a response never carries two wrappers. */
  method OnRequest(req: Request, res: Response, nowMs: int)
    requires res.Valid()
    modifies req`startTime, res`loggerHooked, res`hook, res`wraps
    ensures res.Valid() && res.wraps <= 1
    ensures req.startTime == if Skipped(req.url) then old(req.startTime) else nowMs
    ensures res.hook ==
      if !Skipped(req.url) && !old(res.loggerHooked)
      then Some(Wrapper(req, IsEditorRequest(req.url), IsDashboardRequest(req.url)))
      else old(res.hook)
  {
    if Skipped(req.url) {
      return;
    }
    req.startTime := nowMs;
    var isEditorRequest := IsEditorRequest(req.url);
    var isDashboardRequest := IsDashboardRequest(req.url);
    if !res.loggerHooked {
      res.loggerHooked := true;
      res.hook := Some(Wrapper(req, isEditorRequest, isDashboardRequest));
      res.wraps := res.wraps + 1;
    }
  }

  /** `res.end` once the response completes: a wrapped response adds its
      row to the live log (the store's own checks apply); an unwrapped one
      logs nothing. */
  method End(res: Response, store: CsvStore.Store, nowMs: int, nowIso: string)
    requires res.Valid() && store.Valid()
    modifies store`fileExists, store`content, store`resets
    ensures store.File() ==
      if res.hook.Some? && store.enabled then
        CsvStore.AfterAdd(old(store.File()), store.maxMB,
          RequestLogData(res.hook.value, res.hook.value.req.startTime, res.statusCode,
                         res.connection, nowMs, nowIso), nowIso)
      else old(store.File())
  {
    if res.hook.None? {
      return;
    }
    var w := res.hook.value;
    var logData := RequestLogData(w, w.req.startTime, res.statusCode, res.connection, nowMs, nowIso);
    store.AddToCsvLog(logData, nowIso);
  }

  /** The entry a hooked request writes: nothing drops it, and its method,
      URL (as it is when the response ends) and status are as they came,
      the response time and the client address are those of `ResponseTime`
      and `ClientAddress`,
      `true` stands in the editor and dashboard columns exactly when the
      wrapper classified the request so, and the connectionIssues column
      holds the verdict on the Connection header. */
  lemma RequestEntry(w: Wrapper, startTime: int, statusCode: int,
                     connection: Option<string>, nowMs: int, nowIso: string)
    requires w.req.userAgent.Str? || w.req.userAgent == Absent
    ensures var d := RequestLogData(w, startTime, statusCode, connection, nowMs, nowIso);
      && BuildEntry(d, nowIso).Some?
      && var fields := TextAll(Columns(BuildEntry(d, nowIso).value));
      && fields[1] == Text(w.req.httpMethod)
      && fields[2] == w.req.url
      && fields[3] == Text(Num(statusCode))
      && fields[4] == Text(Num(ResponseTime(startTime, nowMs)))
      && fields[5] == Text(ClientAddress(w.req.ip, w.req.connectionAddress, w.req.socketAddress))
      && fields[7] == (if w.isEditor then "true" else "")
      && fields[8] == (if w.isDashboard then "true" else "")
      && fields[9] == ConnectionIssues(connection)
  {
    var d := RequestLogData(w, startTime, statusCode, connection, nowMs, nowIso);
    var e := BuildEntry(d, nowIso).value;
    RequestDataKept(w, startTime, statusCode, connection, nowMs, nowIso);
    BuildEntryKeepsTexts(d, nowIso);
    RequestDataTexts(w, startTime, statusCode, connection, nowMs, nowIso);
    var fields := TextAll(Columns(e));
    assert fields[1] == Text(Columns(d)[1]) && fields[2] == Text(Columns(d)[2]);
    assert fields[3] == Text(Columns(d)[3]) && fields[7] == Text(Columns(d)[7]);
    assert fields[4] == Text(Columns(d)[4]) && fields[5] == Text(Columns(d)[5]);
    assert fields[8] == Text(Columns(d)[8]) && fields[9] == Text(Columns(d)[9]);
  }

  /** The texts of the columns the wrapper fills in. */
  lemma RequestDataTexts(w: Wrapper, startTime: int, statusCode: int,
                         connection: Option<string>, nowMs: int, nowIso: string)
    requires w.req.userAgent.Str? || w.req.userAgent == Absent
    ensures var c := Columns(RequestLogData(w, startTime, statusCode, connection, nowMs, nowIso));
      && Text(c[1]) == Text(w.req.httpMethod)
      && Text(c[2]) == w.req.url
      && Text(c[3]) == Text(Num(statusCode))
      && Text(c[4]) == Text(Num(ResponseTime(startTime, nowMs)))
      && Text(c[5]) == Text(ClientAddress(w.req.ip, w.req.connectionAddress, w.req.socketAddress))
      && Text(c[7]) == (if w.isEditor then "true" else "")
      && Text(c[8]) == (if w.isDashboard then "true" else "")
      && Text(c[9]) == ConnectionIssues(connection)
  {
    var d := RequestLogData(w, startTime, statusCode, connection, nowMs, nowIso);
    assert Columns(d)[4] == Num(ResponseTime(startTime, nowMs));
    assert Columns(d)[5] == ClientAddress(w.req.ip, w.req.connectionAddress, w.req.socketAddress);
    assert Columns(d)[7] == Bool(w.isEditor);
    assert Columns(d)[8] == Bool(w.isDashboard);
    assert Columns(d)[9] == Str(ConnectionIssues(connection));
  }

  /** The defaults never drop the wrapper's data: its user agent is a
      string or missing. */
  lemma RequestDataKept(w: Wrapper, startTime: int, statusCode: int,
                        connection: Option<string>, nowMs: int, nowIso: string)
    requires w.req.userAgent.Str? || w.req.userAgent == Absent
    ensures BuildEntry(RequestLogData(w, startTime, statusCode, connection, nowMs, nowIso), nowIso).Some?
  {
  }
}
