/** The live CSV log: one file that starts with the header line and grows by
    one row per logged exchange or system event.  Before every append the
    file's size is compared with the configured maximum; a file that has
    reached it is deleted and started afresh (header, then a CSV-FILE-RESET
    row) before the new row is written.

    The file is a value `Disk(present, content)`; characters are bytes (ASCII),
    so the file's size is `|content|`.  The functions `AfterInit`,
    `AfterCheck`, `AfterAdd` and `AfterDelete` say what each operation leaves
    on disk; the methods of `Store` are proved to leave exactly that. */
module CsvStore {

  import opened CsvFormat
  import opened Wrappers
  import opened LogRecord
  import Strings

  datatype Disk = Disk(present: bool, content: string)

  const BytesPerMB := 1048576
  const DefaultMaxMB := 50
  const ResetEvent := "CSV-FILE-RESET"
  const DeletedEvent := "CSV-FILES-DELETED"
  const DeletedDetails := "1 file removed by user"

  /** `parseInt(config.maxCsvFileSize) || 50`, with `None` for `NaN`.  Only
      zero and NaN fall back to the default: a negative setting is kept. */
  function ConfiguredThreshold(parsed: Option<int>): (r: int)
    ensures r != 0
    ensures parsed.None? || parsed.value == 0 ==> r == DefaultMaxMB
    ensures parsed.Some? && parsed.value != 0 ==> r == parsed.value
  {
    match parsed
    case None => DefaultMaxMB
    case Some(n) => if n == 0 then DefaultMaxMB else n
  }

  /** `fileSizeMB >= maxCsvFileSize` with `fileSizeMB = size / 1048576`; for
      an integer threshold this is `size >= maxMB * 1048576` exactly. */
  predicate NeedsReset(f: Disk, maxMB: int)
  {
    f.present && |f.content| >= maxMB * BytesPerMB
  }

  /** The header is one short line. */
  lemma HeaderFacts()
    ensures |Header()| <= 220
    ensures '\n' !in Strings.JoinWith(ColumnNames, ',')
    ensures !IsBlank(Strings.JoinWith(ColumnNames, ','))
  {
    ColumnNamesShort();
    Strings.JoinLength(ColumnNames, ',', 20);
    Strings.JoinAvoids(ColumnNames, ',', '\n');
    HeaderNotBlank();
  }

  lemma ColumnNamesShort()
    ensures forall i :: 0 <= i < |ColumnNames| ==> |ColumnNames[i]| <= 20 && '\n' !in ColumnNames[i]
  {
    forall i | 0 <= i < |ColumnNames| ensures |ColumnNames[i]| <= 20 && '\n' !in ColumnNames[i] {
      assert i in {0, 1, 2, 3, 4, 5, 6, 7, 8, 9};
    }
  }

  lemma HeaderNotBlank()
    ensures !IsBlank(Strings.JoinWith(ColumnNames, ','))
  {
    assert Strings.JoinWith(ColumnNames, ',') ==
      ColumnNames[0] + [','] + Strings.JoinWith(ColumnNames[1..], ',');
    NotBlankAt(Strings.JoinWith(ColumnNames, ','), 0);
  }

  /** The threshold the store uses: a setting below one megabyte falls back
      to the default.  A file holding only the header never needs a reset
      under it, so the append made during a reset cannot reset again. */
  function EffectiveThreshold(parsed: Option<int>): (r: int)
    ensures r >= 1
    ensures ConfiguredThreshold(parsed) >= 1 ==> r == ConfiguredThreshold(parsed)
    ensures !NeedsReset(Disk(true, Header()), r)
  {
    HeaderFacts();
    var n := ConfiguredThreshold(parsed);
    if n >= 1 then n else DefaultMaxMB
  }

  /** As written, a negative setting makes even the fresh header-only file
      "full": the reset's own CSV-FILE-RESET append resets again, and so on,
      each nested call resetting before it appends, until the call stack is
      exhausted. */
  lemma NegativeThresholdResetsFreshFile()
    ensures ConfiguredThreshold(Some(-1)) == -1
    ensures NeedsReset(Disk(true, Header()), ConfiguredThreshold(Some(-1)))
    ensures NeedsReset(Disk(true, Header() + SystemRow(ResetEvent, "", "info", "")),
                       ConfiguredThreshold(Some(-1)))
  {
  }

  /** `initializeCsvFile`: creates a header-only file when there is none. */
  function AfterInit(enabled: bool, f: Disk): (r: Disk)
    ensures r.present == (f.present || enabled)
    ensures f.present ==> r == f
    ensures enabled && !f.present ==> r.content == Header()
  {
    if enabled && !f.present then Disk(true, Header()) else f
  }

  /** Initialising twice is initialising once. */
  lemma InitIdempotent(enabled: bool, f: Disk)
    ensures AfterInit(enabled, AfterInit(enabled, f)) == AfterInit(enabled, f)
  {
  }

  /** `addToCsvLog` is the size check followed by the append. */
  lemma AddAfterCheck(f: Disk, g: Disk, maxMB: int, d: LogData, now: string)
    requires maxMB >= 1 && g == AfterCheck(f, maxMB, now)
    ensures AfterAdd(f, maxMB, d, now) == if BuildEntry(d, now).None? then g
        else Disk(true, (if g.present then g.content else "") + EncodeRow(BuildEntry(d, now).value))
  {
  }

  /** The row that records a reset. */
  function ResetRow(now: string): string
  {
    SystemRow(ResetEvent, "", "info", now)
  }

  /** `checkCsvFileSize`: a full file is replaced by the header and the
      reset row; any other file is left alone.  Stated for the thresholds
      the store holds (at least one megabyte): below that the reset's own
      append resets again, without end. */
  function AfterCheck(f: Disk, maxMB: int, now: string): Disk
    requires maxMB >= 1
  {
    if NeedsReset(f, maxMB) then Disk(true, Header() + ResetRow(now)) else f
  }

  /** `addToCsvLog`: the size check, then the entry appended (to an absent
      file, `appendFileSync` creates it holding just the row).  A record the
      defaults cannot build is dropped after the check. */
  function AfterAdd(f: Disk, maxMB: int, d: LogData, now: string): Disk
    requires maxMB >= 1
  {
    var g := AfterCheck(f, maxMB, now);
    match BuildEntry(d, now)
    case None => g
    case Some(e) => Disk(true, (if g.present then g.content else "") + EncodeRow(e))
  }

  /** `deleteCsvFiles` on an enabled store. */
  function AfterDelete(f: Disk, now: string): Disk
  {
    if f.present then Disk(true, Header() + SystemRow(DeletedEvent, DeletedDetails, "info", now))
    else f
  }

  /** On a full file, the append leaves the header, the reset row and the
      new row, in that order. */
  lemma AddAfterReset(f: Disk, maxMB: int, d: LogData, now: string)
    requires maxMB >= 1 && NeedsReset(f, maxMB) && BuildEntry(d, now).Some?
    ensures AfterAdd(f, maxMB, d, now)
         == Disk(true, Header() + ResetRow(now) + EncodeRow(BuildEntry(d, now).value))
  {
  }

  /** The size check skips an absent file, so appending to it creates a
      file holding the row alone, without the header. */
  lemma AbsentFileGetsNoHeader(maxMB: int, d: LogData, now: string)
    requires maxMB >= 1 && BuildEntry(d, now).Some?
    ensures AfterAdd(Disk(false, ""), maxMB, d, now) == Disk(true, EncodeRow(BuildEntry(d, now).value))
  {
  }

  /** The details of a reset never reach its row: the event type mentions
      neither CONNECTION nor SERVER. */
  lemma ResetRowIgnoresDetails(details: string, severity: string, now: string)
    ensures SystemRow(ResetEvent, details, severity, now) == SystemRow(ResetEvent, "", severity, now)
  {
    ResetEventPairs();
    Strings.NotContains(ResetEvent, "CONNECTION", 0);
    Strings.NotContains(ResetEvent, "SERVER", 1);
  }

  /** "CSV-FILE-RESET" has no "CO" and no "ER". */
  lemma ResetEventPairs()
    ensures Strings.PairAbsent(ResetEvent, 'C', 'O') && Strings.PairAbsent(ResetEvent, 'E', 'R')
  {
  }

  // ---- Counting records for export ----

  /** The characters `String.prototype.trim` removes. */
  predicate IsJsSpace(c: char)
  {
    c == ' ' || c == '\t' || c == '\n' || c == '\r' || c == '\U{000B}' || c == '\U{000C}'
    || c == '\U{00A0}' || c == '\U{1680}' || ('\U{2000}' <= c <= '\U{200A}')
    || c == '\U{2028}' || c == '\U{2029}' || c == '\U{202F}' || c == '\U{205F}'
    || c == '\U{3000}' || c == '\U{FEFF}'
  }

  /** `line.trim() === ''` */
  predicate IsBlank(line: string)
    decreases |line|
  {
    line == [] || (IsJsSpace(line[0]) && IsBlank(line[1..]))
  }

  lemma {:induction false} NotBlankAt(line: string, i: nat)
    requires i < |line| && !IsJsSpace(line[i])
    ensures !IsBlank(line)
    decreases i
  {
    if i > 0 {
      NotBlankAt(line[1..], i - 1);
    }
  }

  function CountNonBlank(lines: seq<string>): (r: nat)
    ensures r <= |lines|
    decreases |lines|
  {
    if lines == [] then 0
    else (if IsBlank(lines[0]) then 0 else 1) + CountNonBlank(lines[1..])
  }

  /** `Math.max(0, lines.length - 1)` where `lines` are the non-blank pieces
      of `content.split('\n')`. */
  function RecordCount(content: string): nat
  {
    var n := CountNonBlank(Strings.Split(content, '\n'));
    if n >= 1 then n - 1 else 0
  }

  /** `path.basename`: the last non-empty piece between slashes. */
  function Basename(p: string): (r: string)
    ensures '/' !in r
    ensures r == "" || LastPiece(Strings.Split(p, '/'), r)
    ensures r == "" ==> forall i :: 0 <= i < |Strings.Split(p, '/')| ==> Strings.Split(p, '/')[i] == ""
  {
    LastNonEmpty(Strings.Split(p, '/'))
  }

  /** `r` is the piece at `i`, and every piece after it is empty. */
  predicate LastPieceAt(pieces: seq<string>, r: string, i: int)
  {
    0 <= i < |pieces| && pieces[i] == r && forall j :: i < j < |pieces| ==> pieces[j] == ""
  }

  /** `r` is one of `pieces`, and every piece after it is empty. */
  ghost predicate LastPiece(pieces: seq<string>, r: string)
  {
    exists i :: LastPieceAt(pieces, r, i)
  }

  function LastNonEmpty(pieces: seq<string>): (r: string)
    requires forall i :: 0 <= i < |pieces| ==> '/' !in pieces[i]
    ensures '/' !in r
    ensures r == "" || LastPiece(pieces, r)
    ensures r == "" ==> forall i :: 0 <= i < |pieces| ==> pieces[i] == ""
    decreases |pieces|
  {
    if pieces == [] then ""
    else if pieces[|pieces| - 1] != "" then
      assert LastPieceAt(pieces, pieces[|pieces| - 1], |pieces| - 1);
      pieces[|pieces| - 1]
    else
      var r := LastNonEmpty(pieces[..|pieces| - 1]);
      LastPieceExtends(pieces, r);
      r
  }

  /** An empty piece at the end does not change which piece is last. */
  lemma LastPieceExtends(pieces: seq<string>, r: string)
    requires |pieces| >= 1 && pieces[|pieces| - 1] == ""
    requires r == "" || LastPiece(pieces[..|pieces| - 1], r)
    ensures r == "" || LastPiece(pieces, r)
  {
    if r != "" {
      var front := pieces[..|pieces| - 1];
      var i :| LastPieceAt(front, r, i);
      assert LastPieceAt(pieces, r, i);
    }
  }

  /** The base name of a path made of slash-free directory names and a
      non-empty file name is that file name. */
  lemma BasenameOfJoin(dirs: seq<string>, name: string)
    requires forall i :: 0 <= i < |dirs| ==> '/' !in dirs[i]
    requires name != "" && '/' !in name
    ensures Basename(Strings.JoinWith(dirs + [name], '/')) == name
  {
    var parts := dirs + [name];
    forall i | 0 <= i < |parts| ensures '/' !in parts[i] {
      if i < |dirs| { assert parts[i] == dirs[i]; }
    }
    Strings.SplitJoin(parts, '/');
  }

  datatype ExportResult =
    | ExportOk(filePath: string, fileName: string, recordCount: nat, fileSize: nat)
    | ExportErr(error: string)

  datatype DeleteResult =
    | DeleteOk(deletedCount: nat, message: string)
    | DeleteErr(error: string)

  const NotEnabled := "CSV export not enabled"
  const NoData := "No CSV log data available"

  /** `exportToCsv`.  `statError` is the message of a failing `statSync`,
      which the outer `catch` returns; `readFails` says that `readFileSync`
      failed, which the inner `catch` absorbs, leaving the count at 0. */
  function ExportOutcome(enabled: bool, f: Disk, logFile: string,
                         statError: Option<string>, readFails: bool): (r: ExportResult)
    ensures r.ExportOk? <==> enabled && f.present && statError.None?
    ensures !enabled ==> r == ExportErr(NotEnabled)
    ensures enabled && !f.present ==> r == ExportErr(NoData)
    ensures enabled && f.present && statError.Some? ==> r == ExportErr(statError.value)
    ensures r.ExportOk? ==>
      && r.filePath == logFile && r.fileName == Basename(logFile) && r.fileSize == |f.content|
      && r.recordCount == if readFails then 0 else RecordCount(f.content)
  {
    if !enabled then ExportErr(NotEnabled)
    else if !f.present then ExportErr(NoData)
    else if statError.Some? then ExportErr(statError.value)
    else ExportOk(logFile, Basename(logFile), if readFails then 0 else RecordCount(f.content), |f.content|)
  }

  /** The name export reports for a log file `dir/.../name` is `name`. */
  lemma ExportReportsFileName(enabled: bool, f: Disk, dirs: seq<string>, name: string,
                              statError: Option<string>, readFails: bool)
    requires forall i :: 0 <= i < |dirs| ==> '/' !in dirs[i]
    requires name != "" && '/' !in name
    ensures var r := ExportOutcome(enabled, f, Strings.JoinWith(dirs + [name], '/'), statError, readFails);
      r.ExportOk? ==> r.fileName == name
  {
    BasenameOfJoin(dirs, name);
  }

  // ---- What a reader of the file sees ----

  /** Data rows one after another. */
  function Rows(es: seq<LogData>): string
    decreases |es|
  {
    if es == [] then "" else EncodeRow(es[0]) + Rows(es[1..])
  }

  /** No column of the entry holds a line feed. */
  predicate SingleLine(e: LogData)
  {
    forall i :: 0 <= i < |ColumnNames| ==> '\n' !in Text(Columns(e)[i])
  }

  /** A data row is one physical line that is not blank (it holds commas). */
  lemma RowIsOneLine(e: LogData)
    requires SingleLine(e)
    ensures EncodeRow(e) == Strings.JoinWith(RenderAll(Columns(e)), ',') + "\n"
    ensures '\n' !in Strings.JoinWith(RenderAll(Columns(e)), ',')
    ensures !IsBlank(Strings.JoinWith(RenderAll(Columns(e)), ','))
  {
    var parts := RenderAll(Columns(e));
    forall i | 0 <= i < |parts| ensures '\n' !in parts[i] {
      QuoteKeepsLineFeeds(Text(Columns(e)[i]));
    }
    Strings.JoinAvoids(parts, ',', '\n');
    var line := Strings.JoinWith(parts, ',');
    assert line == parts[0] + "," + Strings.JoinWith(parts[1..], ',');
    NotBlankAt(line, |parts[0]|);
  }

  lemma CountCons(line: string, lines: seq<string>)
    ensures CountNonBlank([line] + lines) == (if IsBlank(line) then 0 else 1) + CountNonBlank(lines)
  {
    assert ([line] + lines)[1..] == lines;
  }

  lemma {:induction false} CountRows(es: seq<LogData>)
    requires forall k :: 0 <= k < |es| ==> SingleLine(es[k])
    ensures CountNonBlank(Strings.Split(Rows(es), '\n')) == |es|
    decreases |es|
  {
    if es == [] {
      assert Strings.Split("", '\n') == [""];
    } else {
      RowIsOneLine(es[0]);
      var line := Strings.JoinWith(RenderAll(Columns(es[0])), ',');
      var rest := Rows(es[1..]);
      assert Rows(es) == line + ['\n'] + rest;
      Strings.SplitAfterPiece(line, '\n', rest);
      CountCons(line, Strings.Split(rest, '\n'));
      CountRows(es[1..]);
    }
  }

  /** Export's record count of a file that starts with one non-blank line
      and goes on with rows without line feeds is the number of rows. */
  lemma RecordCountAfterLine(h: string, es: seq<LogData>)
    requires '\n' !in h && !IsBlank(h)
    requires forall k :: 0 <= k < |es| ==> SingleLine(es[k])
    ensures RecordCount(h + "\n" + Rows(es)) == |es|
  {
    var rest := Rows(es);
    var lines := Strings.Split(rest, '\n');
    assert h + "\n" + rest == h + ['\n'] + rest;
    Strings.SplitAfterPiece(h, '\n', rest);
    CountCons(h, lines);
    CountRows(es);
    assert CountNonBlank([h] + lines) == 1 + |es|;
    assert RecordCount(h + "\n" + rest) == |es|;
  }

  /** Export's record count of a file the store wrote from scratch (the
      header, then rows without line feeds) is the number of rows. */
  lemma RecordCountOfRows(es: seq<LogData>)
    requires forall k :: 0 <= k < |es| ==> SingleLine(es[k])
    ensures RecordCount(Header() + Rows(es)) == |es|
  {
    HeaderFacts();
    RecordCountAfterLine(Strings.JoinWith(ColumnNames, ','), es);
  }

  /** A system event whose type, details and time hold no line feed adds
      a row that is one physical line. */
  lemma SystemEntrySingleLine(eventType: string, details: string, severity: string, now: string)
    requires '\n' !in eventType && '\n' !in details && '\n' !in now
    ensures SingleLine(SystemEventData(eventType, details, severity, now))
  {
    var e := SystemEventData(eventType, details, severity, now);
    SystemColumnTexts(eventType, details, severity, now);
    SystemTextsSingleLine(eventType, details, severity, now);
    forall i | 0 <= i < |ColumnNames| ensures '\n' !in Text(Columns(e)[i]) {
      assert Text(Columns(e)[i]) == TextAll(Columns(e))[i];
    }
  }

  lemma SystemTextsSingleLine(eventType: string, details: string, severity: string, now: string)
    requires '\n' !in eventType && '\n' !in details && '\n' !in now
    ensures var t := SystemTexts(eventType, details, severity, now);
      forall i :: 0 <= i < |t| ==> '\n' !in t[i]
  {
    FixedTextsSingleLine(severity);
  }

  lemma FixedTextsSingleLine(severity: string)
    ensures '\n' !in "SYSTEM" && '\n' !in "localhost" && '\n' !in "Node-RED-System"
    ensures '\n' !in IntToString(StatusFor(severity))
  {
  }

  /** After a delete, the file holds the header and one CSV-FILES-DELETED
      row, so a following export reports one record. */
  lemma ExportAfterDelete(f: Disk, now: string, logFile: string)
    requires f.present && '\n' !in now
    ensures ExportOutcome(true, AfterDelete(f, now), logFile, None, false).recordCount == 1
  {
    DeletedRowCount(now);
  }

  lemma DeletedRowCount(now: string)
    requires '\n' !in now
    ensures RecordCount(Header() + SystemRow(DeletedEvent, DeletedDetails, "info", now)) == 1
  {
    EventTextsSingleLine();
    SystemRowCount(DeletedEvent, DeletedDetails, "info", now);
  }

  lemma EventTextsSingleLine()
    ensures '\n' !in DeletedEvent && '\n' !in DeletedDetails && '\n' !in ResetEvent
  {
  }

  /** A file started afresh with one system event holds one record. */
  lemma SystemRowCount(eventType: string, details: string, severity: string, now: string)
    requires '\n' !in eventType && '\n' !in details && '\n' !in now
    ensures RecordCount(Header() + SystemRow(eventType, details, severity, now)) == 1
  {
    var e := SystemEventData(eventType, details, severity, now);
    SystemEntrySingleLine(eventType, details, severity, now);
    assert Rows([e]) == EncodeRow(e);
    RecordCountOfRows([e]);
  }

  /** A reset leaves the header and the CSV-FILE-RESET row: one record. */
  lemma ResetLeavesOneRecord(f: Disk, maxMB: int, now: string)
    requires maxMB >= 1 && NeedsReset(f, maxMB) && '\n' !in now
    ensures AfterCheck(f, maxMB, now) == Disk(true, Header() + ResetRow(now))
    ensures RecordCount(AfterCheck(f, maxMB, now).content) == 1
  {
    EventTextsSingleLine();
    SystemRowCount(ResetEvent, "", "info", now);
  }

  lemma {:induction false} RowsAppend(es: seq<LogData>, e: LogData)
    ensures Rows(es + [e]) == Rows(es) + EncodeRow(e)
    decreases |es|
  {
    if es == [] {
      assert [] + [e] == [e];
      assert [e][1..] == [];
    } else {
      assert (es + [e])[1..] == es[1..] + [e];
      RowsAppend(es[1..], e);
      Strings.Regroup(EncodeRow(es[0]), Rows(es[1..]), EncodeRow(e), "");
    }
  }

  /** Below the threshold, logging an entry appends its row after the
      rows already there. */
  lemma AddAppendsRow(es: seq<LogData>, maxMB: int, d: LogData, now: string)
    requires maxMB >= 1 && BuildEntry(d, now).Some?
    requires !NeedsReset(Disk(true, Header() + Rows(es)), maxMB)
    ensures AfterAdd(Disk(true, Header() + Rows(es)), maxMB, d, now)
         == Disk(true, Header() + Rows(es + [BuildEntry(d, now).value]))
  {
    var e := BuildEntry(d, now).value;
    AddBelowThreshold(Disk(true, Header() + Rows(es)), maxMB, d, now);
    RowsAppend(es, e);
    Strings.Regroup(Header(), Rows(es), EncodeRow(e), "");
  }

  /** One more single-line row is one more record in the export's count. */
  lemma AppendedRecordCount(es: seq<LogData>, e: LogData)
    requires forall k :: 0 <= k < |es| ==> SingleLine(es[k])
    requires SingleLine(e)
    ensures RecordCount(Header() + Rows(es + [e])) == |es| + 1
  {
    AllSingleLineSnoc(es, e);
    RecordCountOfRows(es + [e]);
  }

  lemma AddBelowThreshold(f: Disk, maxMB: int, d: LogData, now: string)
    requires maxMB >= 1 && f.present && !NeedsReset(f, maxMB) && BuildEntry(d, now).Some?
    ensures AfterAdd(f, maxMB, d, now) == Disk(true, f.content + EncodeRow(BuildEntry(d, now).value))
  {
  }

  lemma AllSingleLineSnoc(es: seq<LogData>, e: LogData)
    requires forall k :: 0 <= k < |es| ==> SingleLine(es[k])
    requires SingleLine(e)
    ensures forall k :: 0 <= k < |es + [e]| ==> SingleLine((es + [e])[k])
  {
  }

  // ---- The store ----

  /** The live log as the node holds it: its configuration and the file on
      disk.  `resets` counts the resets performed so far. */
  class Store {
    const enabled: bool
    const maxMB: int
    const logFile: string
    var fileExists: bool
    var content: string
    ghost var resets: nat

    ghost predicate Valid()
      reads this
    {
      maxMB >= 1
    }

    function File(): Disk
      reads this
    {
      Disk(fileExists, content)
    }

    /** 1 while the next size check would reset the file. */
    function Pending(): nat
      reads this
    {
      if enabled && NeedsReset(File(), maxMB) then 1 else 0
    }

    /** The node's start-up: read the configuration, find whatever file is
        on disk, initialise it and log EXPRESS-LOGGER-INIT, then, whether or
        not that block ran, log NODE-RED-STARTUP with the process id. */
    constructor (enableCsvExport: bool, parsedMax: Option<int>, csvLogFile: string,
                 disk: Disk, nodeId: string, pid: nat, now: string)
      ensures Valid() && enabled == enableCsvExport && logFile == csvLogFile
      ensures maxMB == EffectiveThreshold(parsedMax)
      ensures File() == if enableCsvExport then
        AfterAdd(AfterAdd(AfterInit(true, disk), maxMB, InitEventData(nodeId, now), now),
                 maxMB, StartupEventData(pid, now), now)
        else disk
    {
      enabled := enableCsvExport;
      maxMB := EffectiveThreshold(parsedMax);
      logFile := csvLogFile;
      fileExists := disk.present;
      content := disk.content;
      resets := 0;
      new;
      if enableCsvExport {
        InitializeCsvFile();
        ghost var created := File();
        assert created == AfterInit(true, disk);
        LogSystemEventToCsv("EXPRESS-LOGGER-INIT", "node-" + nodeId + "-initialized", "info", now);
        assert File() == AfterAdd(created, maxMB, InitEventData(nodeId, now), now);
      }
      ghost var initialised := File();
      LogSystemEventToCsv("NODE-RED-STARTUP", StartupDetails(pid), "info", now);
      assert enableCsvExport ==> File() == AfterAdd(initialised, maxMB, StartupEventData(pid, now), now);
    }

    /** `initializeCsvFile`: a header-only file when there is none; an
        existing file is left byte for byte. */
    method InitializeCsvFile()
      modifies this`fileExists, this`content
      ensures File() == AfterInit(enabled, old(File()))
    {
      if !enabled {
        return;
      }
      if !fileExists {
        fileExists := true;
        content := Header();
      }
    }

    /** `checkCsvFileSize` */
    method CheckCsvFileSize(now: string)
      requires Valid()
      modifies this`fileExists, this`content, this`resets
      ensures File() == if enabled then AfterCheck(old(File()), maxMB, now) else old(File())
      ensures resets == old(resets) + old(Pending())
      decreases Pending(), 1
    {
      if !enabled || !fileExists {
        return;
      }
      if |content| >= maxMB * BytesPerMB {
        fileExists, content := false, "";
        resets := resets + 1;
        InitializeCsvFile();
        HeaderFacts();
        LogSystemEventToCsv(ResetEvent, "", "info", now);
      }
    }

    /** `addToCsvLog` */
    method AddToCsvLog(d: LogData, now: string)
      requires Valid()
      modifies this`fileExists, this`content, this`resets
      ensures File() == if enabled then AfterAdd(old(File()), maxMB, d, now) else old(File())
      ensures resets == old(resets) + old(Pending())
      decreases Pending(), 2
    {
      if !enabled {
        return;
      }
      ghost var before, pending := File(), Pending();
      CheckCsvFileSize(now);
      assert resets == old(resets) + pending;
      ghost var checked := File();
      AddAfterCheck(before, checked, maxMB, d, now);
      var entry := BuildEntry(d, now);
      if entry.None? {
        return;
      }
      var row := EncodeRow(entry.value);
      content := (if fileExists then content else "") + row;
      fileExists := true;
      assert File() == Disk(true, (if checked.present then checked.content else "") + row);
    }

    /** `logSystemEventToCsv` */
    method LogSystemEventToCsv(eventType: string, details: string, severity: string, now: string)
      requires Valid()
      modifies this`fileExists, this`content, this`resets
      ensures File() == if enabled then
        AfterAdd(old(File()), maxMB, SystemEventData(eventType, details, severity, now), now)
        else old(File())
      ensures resets == old(resets) + old(Pending())
      decreases Pending(), 3
    {
      if !enabled {
        return;
      }
      AddToCsvLog(SystemEventData(eventType, details, severity, now), now);
    }

    /** `exportToCsv`: reports on the live file without changing it. */
    method ExportToCsv(statError: Option<string>, readFails: bool) returns (r: ExportResult)
      ensures r == ExportOutcome(enabled, File(), logFile, statError, readFails)
    {
      r := ExportOutcome(enabled, File(), logFile, statError, readFails);
    }

    /** `deleteCsvFiles`.  `unlinkError` is the message of a failing
        `unlinkSync`: the `catch` returns it and the file stays as it was. */
    method DeleteCsvFiles(now: string, unlinkError: Option<string>) returns (r: DeleteResult)
      requires Valid()
      modifies this`fileExists, this`content, this`resets
      ensures r == if !enabled then DeleteErr(NotEnabled)
                   else if old(fileExists) && unlinkError.Some? then DeleteErr(unlinkError.value)
                   else DeleteOk(if old(fileExists) then 1 else 0, "Successfully deleted CSV file")
      ensures File() == if enabled && !(old(fileExists) && unlinkError.Some?)
                        then AfterDelete(old(File()), now) else old(File())
    {
      if !enabled {
        return DeleteErr(NotEnabled);
      }
      var deletedCount := 0;
      if fileExists {
        if unlinkError.Some? {
          return DeleteErr(unlinkError.value);
        }
        fileExists, content := false, "";
        deletedCount := deletedCount + 1;
      }
      if deletedCount > 0 {
        InitializeCsvFile();
        HeaderFacts();
        LogSystemEventToCsv(DeletedEvent, DeletedDetails, "info", now);
      }
      r := DeleteOk(deletedCount, "Successfully deleted CSV file");
    }
  
    /** The `close` handler: one row, EXPRESS-LOGGER-REMOVED when the node
        is removed and EXPRESS-LOGGER-STOPPED otherwise. */
    method Close(removed: bool, nodeId: string, now: string)
      requires Valid()
      modifies this`fileExists, this`content, this`resets
      ensures File() == if enabled then AfterAdd(old(File()), maxMB, CloseEventData(removed, nodeId, now), now)
                        else old(File())
    {
      if removed {
        LogSystemEventToCsv("EXPRESS-LOGGER-REMOVED", "node-" + nodeId + "-removed", "info", now);
      } else {
        LogSystemEventToCsv("EXPRESS-LOGGER-STOPPED", "node-" + nodeId + "-stopped", "info", now);
      }
    }
  }

  /** `express-logger-starting-pid-${process.pid}` */
  function StartupDetails(pid: nat): string
  {
    "express-logger-starting-pid-" + NatToString(pid)
  }

  /** The EXPRESS-LOGGER-INIT row's data. */
  function InitEventData(nodeId: string, now: string): LogData
  {
    SystemEventData("EXPRESS-LOGGER-INIT", "node-" + nodeId + "-initialized", "info", now)
  }

  /** The NODE-RED-STARTUP row's data. */
  function StartupEventData(pid: nat, now: string): LogData
  {
    SystemEventData("NODE-RED-STARTUP", StartupDetails(pid), "info", now)
  }

  /** The row the `close` handler logs. */
  function CloseEventData(removed: bool, nodeId: string, now: string): LogData
  {
    if removed then SystemEventData("EXPRESS-LOGGER-REMOVED", "node-" + nodeId + "-removed", "info", now)
    else SystemEventData("EXPRESS-LOGGER-STOPPED", "node-" + nodeId + "-stopped", "info", now)
  }
}
