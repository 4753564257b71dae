/** The buffer-backed export of the download test script: the entries held in memory
    are written, header first, to a new file whose name carries the time of
    the export, and the two download routes serve a file of the exports
    directory only when the joined path exists and starts with that
    directory. */
module BufferExport {

  import opened CsvFormat
  import opened Wrappers
  import Strings
  import CsvParse
  import PosixPath

  /** One buffered entry: the ten live columns and `hasRefreshIndicators`. */
  datatype BufferedEntry = BufferedEntry(
    timestamp: Value, httpMethod: Value, url: Value, statusCode: Value,
    responseTime: Value, ip: Value, userAgent: Value, isEditorRequest: Value,
    isDashboardRequest: Value, hasRefreshIndicators: Value, connectionIssues: Value)

  const BufferColumnNames: seq<string> := ["timestamp", "method", "url", "statusCode",
    "responseTime", "ip", "userAgent", "isEditorRequest", "isDashboardRequest",
    "hasRefreshIndicators", "connectionIssues"]

  function BufferColumns(e: BufferedEntry): (r: seq<Value>)
    ensures |r| == |BufferColumnNames|
  {
    [e.timestamp, e.httpMethod, e.url, e.statusCode, e.responseTime, e.ip, e.userAgent,
     e.isEditorRequest, e.isDashboardRequest, e.hasRefreshIndicators, e.connectionIssues]
  }

  function BufferHeader(): string
  {
    Strings.JoinWith(BufferColumnNames, ',') + "\n"
  }

  /** One entry's row. */
  function EntryRow(e: BufferedEntry): string
  {
    EncodeValues(BufferColumns(e))
  }

  /** The rows of `es`, in buffer order. */
  function BufferRows(es: seq<BufferedEntry>): string
    decreases |es|
  {
    if es == [] then ""
    else BufferRows(es[..|es| - 1]) + EntryRow(es[|es| - 1])
  }

  lemma BufferRowsStep(es: seq<BufferedEntry>, i: nat)
    requires i < |es|
    ensures BufferRows(es[..i + 1]) == BufferRows(es[..i]) + EntryRow(es[i])
  {
    assert es[..i + 1][..i] == es[..i];
  }

  /** The content of an export of `es`. */
  function ExportContent(es: seq<BufferedEntry>): string
  {
    BufferHeader() + BufferRows(es)
  }

  /** `toISOString().replace(/[:.]/g, '-')` */
  function DashFor(iso: string): (r: string)
    ensures |r| == |iso|
    ensures forall i :: 0 <= i < |iso| ==>
      r[i] == if iso[i] == ':' || iso[i] == '.' then '-' else iso[i]
    decreases |iso|
  {
    if iso == [] then ""
    else [if iso[0] == ':' || iso[0] == '.' then '-' else iso[0]] + DashFor(iso[1..])
  }

  const ExportPrefix := "express-logger-export-"

  function ExportFileName(iso: string): string
  {
    ExportPrefix + DashFor(iso) + ".csv"
  }

  /** The only `.` of an export's name is the one before `csv`, it holds no
      `:`, and it has no `/` when the timestamp has none. */
  lemma ExportFileNameShape(iso: string)
    ensures var name := ExportFileName(iso);
      && (forall i :: 0 <= i < |name| && name[i] == '.' ==> i == |name| - 4)
      && ':' !in name
      && ('/' !in iso ==> PosixPath.Plain(name))
  {
    var name := ExportFileName(iso);
    var dash := DashFor(iso);
    var k := |ExportPrefix|;
    assert name == ExportPrefix + dash + ".csv";
    forall i | 0 <= i < |name| ensures name[i] != ':' && (name[i] == '.' ==> i == |name| - 4) {
      if i < k {
        assert name[i] == ExportPrefix[i];
      } else if i < k + |dash| {
        assert name[i] == dash[i - k];
      } else {
        assert name[i] == ".csv"[i - k - |dash|];
      }
    }
    if '/' !in iso {
      forall i | 0 <= i < |name| ensures name[i] != '/' {
        if i < k {
          assert name[i] == ExportPrefix[i];
        } else if i < k + |dash| {
          assert name[i] == dash[i - k];
          assert iso[i - k] in iso;
        } else {
          assert name[i] == ".csv"[i - k - |dash|];
        }
      }
    }
  }

  datatype BufferExportResult =
    | BufferOk(filePath: string, fileName: string, recordCount: nat)
    | BufferErr(error: string)

  /** The node of the download test script: the exports directory, the buffered
      entries, and the files on disk by path. */
  class MockLoggerNode {
    const csvExportPath: string
    var csvLogEntries: seq<BufferedEntry>
    var files: map<string, string>

    constructor (exportPath: string, entries: seq<BufferedEntry>, disk: map<string, string>)
      ensures csvExportPath == exportPath && csvLogEntries == entries && files == disk
    {
      csvExportPath := exportPath;
      csvLogEntries := entries;
      files := disk;
    }

    /** `exportToCsv`: builds the content, then writes it under a name
        made from `nowIso`.  `writeError` is the message of a failing
        `mkdirSync` or `writeFileSync`; the failure is returned, not thrown,
        and no file is written. */
    method ExportToCsv(nowIso: string, writeError: Option<string>) returns (r: BufferExportResult)
      modifies this`files
      ensures r.BufferOk? <==> writeError.None?
      ensures writeError.Some? ==> r == BufferErr(writeError.value) && files == old(files)
      ensures writeError.None? ==>
        var name := ExportFileName(nowIso);
        var path := PosixPath.Join(csvExportPath, name);
        && r == BufferOk(path, name, |csvLogEntries|)
        && files == old(files)[path := ExportContent(csvLogEntries)]
    {
      var content := BuildContent(csvLogEntries);
      var fileName := ExportFileName(nowIso);
      var filePath := PosixPath.Join(csvExportPath, fileName);
      if writeError.Some? {
        return BufferErr(writeError.value);
      }
      files := files[filePath := content];
      r := BufferOk(filePath, fileName, |csvLogEntries|);
    }
  }

  /** The `csvContent` of `exportToCsv`: the header line, then one row per
      entry appended in buffer order. */
  method BuildContent(entries: seq<BufferedEntry>) returns (content: string)
    ensures content == ExportContent(entries)
  {
    content := BufferHeader();
    var i := 0;
    while i < |entries|
      invariant 0 <= i <= |entries|
      invariant content == BufferHeader() + BufferRows(entries[..i])
    {
      var row := EntryRow(entries[i]);
      BufferRowsStep(entries, i);
      Strings.Regroup(BufferHeader(), BufferRows(entries[..i]), row, "");
      content := content + row;
      i := i + 1;
    }
    assert entries[..i] == entries;
  }

  // ---- Reading an export back ----

  /** The header as values: every column name as a string. */
  function HeaderValues(): (r: seq<Value>)
    ensures |r| == |BufferColumnNames|
    ensures forall i :: 0 <= i < |r| ==> r[i] == Str(BufferColumnNames[i])
  {
    seq(|BufferColumnNames|, i requires 0 <= i < |BufferColumnNames| => Str(BufferColumnNames[i]))
  }

  /** The column values of every entry, in buffer order. */
  function ColumnsOf(es: seq<BufferedEntry>): (r: seq<seq<Value>>)
    ensures |r| == |es|
    ensures forall i :: 0 <= i < |es| ==> r[i] == BufferColumns(es[i])
  {
    seq(|es|, i requires 0 <= i < |es| => BufferColumns(es[i]))
  }

  /** The column names are words; stated in two groups, so that each proof
      stays small. */
  lemma ShortNamesAreWords()
    ensures IsWord("timestamp")
    ensures IsWord("method")
    ensures IsWord("url")
    ensures IsWord("statusCode")
    ensures IsWord("responseTime")
    ensures IsWord("ip")
    ensures IsWord("userAgent")
  {
  }

  lemma LongNamesAreWords()
    ensures IsWord("isEditorRequest")
    ensures IsWord("isDashboardRequest")
    ensures IsWord("hasRefreshIndicators")
    ensures IsWord("connectionIssues")
  {
  }

  lemma ColumnNameIsWord(i: nat)
    requires i < |BufferColumnNames|
    ensures IsWord(BufferColumnNames[i])
  {
    ShortNamesAreWords();
    LongNamesAreWords();
    assert i in {0, 1, 2, 3, 4, 5, 6, 7, 8, 9, 10};
  }

  lemma HeaderEncodes()
    ensures EncodeValues(HeaderValues()) == BufferHeader()
    ensures TextAll(HeaderValues()) == BufferColumnNames
  {
    var hv := HeaderValues();
    forall i | 0 <= i < |hv| ensures RenderField(hv[i]) == BufferColumnNames[i]
                                   && Text(hv[i]) == BufferColumnNames[i] {
      ColumnNameIsWord(i);
      WordField(BufferColumnNames[i]);
    }
    assert RenderAll(hv) == BufferColumnNames;
  }

  lemma ColumnsOfSnoc(es: seq<BufferedEntry>)
    requires es != []
    ensures ColumnsOf(es) == ColumnsOf(es[..|es| - 1]) + [BufferColumns(es[|es| - 1])]
  {
  }

  lemma {:induction false} RowsEncode(es: seq<BufferedEntry>)
    ensures BufferRows(es) == CsvParse.EncodeAll(ColumnsOf(es))
    decreases |es|
  {
    if es != [] {
      var front := es[..|es| - 1];
      RowsEncode(front);
      ColumnsOfSnoc(es);
      CsvParse.EncodeAllAppend(ColumnsOf(front), BufferColumns(es[|es| - 1]));
    }
  }

  /** An export is the header record followed by the entries' records. */
  lemma ExportIsDocument(es: seq<BufferedEntry>)
    ensures ExportContent(es) == CsvParse.EncodeAll([HeaderValues()] + ColumnsOf(es))
  {
    var rows := [HeaderValues()] + ColumnsOf(es);
    HeaderEncodes();
    RowsEncode(es);
    assert rows[1..] == ColumnsOf(es);
  }

  lemma RecordsNonEmpty(es: seq<BufferedEntry>)
    ensures var rows := [HeaderValues()] + ColumnsOf(es);
      forall i :: 0 <= i < |rows| ==> |rows[i]| >= 1
  {
  }

  /** Reading an export back gives the header's names, then one record per
      buffered entry, in buffer order, holding that entry's texts. */
  lemma ExportReadsBack(es: seq<BufferedEntry>)
    ensures CsvParse.ParseCsv(ExportContent(es)).Some?
    ensures var recs := CsvParse.ParseCsv(ExportContent(es)).value;
      && |recs| == |es| + 1
      && recs[0] == BufferColumnNames
      && forall i :: 0 <= i < |es| ==> recs[i + 1] == TextAll(BufferColumns(es[i]))
  {
    var rows := [HeaderValues()] + ColumnsOf(es);
    ExportIsDocument(es);
    RecordsNonEmpty(es);
    CsvParse.DocumentRoundTrip(rows);
    HeaderEncodes();
    var recs := CsvParse.TextRows(rows);
    forall i | 0 <= i < |es| ensures recs[i + 1] == TextAll(BufferColumns(es[i])) {
      assert rows[i + 1] == BufferColumns(es[i]);
    }
  }

  // ---- Download ----

  datatype DownloadReply =
    | NotFound(status: int, error: string)
    | Serve(filePath: string, contentType: string, contentDisposition: string, body: string)

  /** Both download routes: the path is `path.join(exportsDir, fileName)`;
      it is served only if it exists and starts with `exportsDir`. */
  function Download(files: map<string, string>, exportsDir: string, fileName: string): (r: DownloadReply)
    ensures r.NotFound? ==> r == NotFound(404, "File not found")
  {
    var filePath := PosixPath.Join(exportsDir, fileName);
    if filePath !in files || !Strings.StartsWith(filePath, exportsDir) then
      NotFound(404, "File not found")
    else
      Serve(filePath, "text/csv", "attachment; filename=\"" + fileName + "\"", files[filePath])
  }

  /** A file the export has just written is served by both routes, with
      the content written, under its own name. */
  lemma ExportedFileIsServed(d: seq<string>, files: map<string, string>,
                             es: seq<BufferedEntry>, nowIso: string)
    requires |d| >= 1 && PosixPath.AllPlain(d) && '/' !in nowIso
    ensures var dir := PosixPath.AbsDir(d);
      var name := ExportFileName(nowIso);
      var written := files[PosixPath.Join(dir, name) := ExportContent(es)];
      Download(written, dir, name)
        == Serve(dir + "/" + name, "text/csv", "attachment; filename=\"" + name + "\"",
                 ExportContent(es))
  {
    var dir := PosixPath.AbsDir(d);
    var name := ExportFileName(nowIso);
    ExportFileNameShape(nowIso);
    PosixPath.JoinPlainName(d, name);
    Strings.StartsWithPrefix(dir + "/" + name, dir);
    assert (dir + "/" + name)[..|dir|] == dir;
  }

  /** The exports directory used in the examples below. */
  lemma ExampleDir()
    ensures PosixPath.AbsDir(["srv", "exports"]) == "/srv/exports"
    ensures PosixPath.AllPlain(["srv", "exports"])
  {
    assert ["srv", "exports"][1..] == ["exports"];
  }

  lemma SecretPieces()
    ensures Strings.JoinWith([".."] + ["secret.csv"], '/') == "../secret.csv"
    ensures PosixPath.Rooted(["srv", "exports"][..1] + ["secret.csv"]) == "/srv/secret.csv"
    ensures PosixPath.AllPlain(["secret.csv"])
  {
    assert ([".."] + ["secret.csv"])[1..] == ["secret.csv"];
    assert ["srv", "exports"][..1] + ["secret.csv"] == ["srv", "secret.csv"];
    assert ["srv", "secret.csv"][1..] == ["secret.csv"];
  }

  lemma ClimbToSecret()
    ensures PosixPath.Join("/srv/exports", "../secret.csv") == "/srv/secret.csv"
  {
    ExampleDir();
    SecretPieces();
    PosixPath.JoinClimbs(["srv", "exports"], ["secret.csv"]);
  }

  /** A name made of `..` and plain segments leads to the parent directory
      followed by those segments.  It is served exactly when that path
      exists and its first segment after `..` starts with the exports
      directory's own name (the guard compares characters, not segments);
      it is then served from that path. */
  lemma ClimbingNameGuard(files: map<string, string>, d: seq<string>, rest: seq<string>)
    requires |d| >= 1 && PosixPath.AllPlain(d) && |rest| >= 1 && PosixPath.AllPlain(rest)
    ensures var target := PosixPath.Rooted(d[..|d| - 1] + rest);
      var r := Download(files, PosixPath.AbsDir(d), Strings.JoinWith([".."] + rest, '/'));
      && (r.Serve? <==> target in files && Strings.StartsWith(rest[0], d[|d| - 1]))
      && (r.Serve? ==> r.filePath == target && r.body == files[target])
  {
    PosixPath.JoinClimbs(d, rest);
    PosixPath.ClimbedPrefix(d, rest);
  }

  /** A name that climbs to the parent directory is refused, whatever is on
      disk, unless its next segment starts with the exports directory's
      own name. */
  lemma TraversalRefused(files: map<string, string>, d: seq<string>, rest: seq<string>)
    requires |d| >= 1 && PosixPath.AllPlain(d) && |rest| >= 1 && PosixPath.AllPlain(rest)
    requires !Strings.StartsWith(rest[0], d[|d| - 1])
    ensures Download(files, PosixPath.AbsDir(d), Strings.JoinWith([".."] + rest, '/'))
         == NotFound(404, "File not found")
  {
    ClimbingNameGuard(files, d, rest);
  }

  /** An instance: `../secret.csv` from `/srv/exports`. */
  lemma SecretRefused(files: map<string, string>)
    ensures PosixPath.Join("/srv/exports", "../secret.csv") == "/srv/secret.csv"
    ensures Download(files, "/srv/exports", "../secret.csv") == NotFound(404, "File not found")
  {
    ClimbToSecret();
    assert !Strings.StartsWith("/srv/secret.csv", "/srv/exports");
  }

  lemma SiblingPieces()
    ensures Strings.JoinWith([".."] + ["exports-evil", "x.csv"], '/') == "../exports-evil/x.csv"
    ensures PosixPath.Rooted(["srv", "exports"][..1] + ["exports-evil", "x.csv"])
         == "/srv/exports-evil/x.csv"
    ensures PosixPath.AllPlain(["exports-evil", "x.csv"])
  {
    var rest := ["exports-evil", "x.csv"];
    assert ([".."] + rest)[1..] == rest;
    assert rest[1..] == ["x.csv"];
    var all := ["srv", "exports"][..1] + rest;
    assert all == ["srv", "exports-evil", "x.csv"];
    assert all[1..] == rest;
  }

  lemma ClimbToSibling()
    ensures PosixPath.Join("/srv/exports", "../exports-evil/x.csv") == "/srv/exports-evil/x.csv"
  {
    ExampleDir();
    SiblingPieces();
    PosixPath.JoinClimbs(["srv", "exports"], ["exports-evil", "x.csv"]);
  }

  /** The guard compares strings, not path segments: a sibling directory
      whose name extends the exports directory's name passes it, and a file
      there is served. */
  lemma SiblingPrefixPasses(files: map<string, string>)
    requires "/srv/exports-evil/x.csv" in files
    ensures PosixPath.Join("/srv/exports", "../exports-evil/x.csv") == "/srv/exports-evil/x.csv"
    ensures Download(files, "/srv/exports", "../exports-evil/x.csv").Serve?
  {
    ClimbToSibling();
    SiblingHasPrefix();
  }

  lemma SiblingHasPrefix()
    ensures Strings.StartsWith("/srv/exports-evil/x.csv", "/srv/exports")
  {
    Strings.StartsWithPrefix("/srv/exports-evil/x.csv", "/srv/exports");
    assert "/srv/exports-evil/x.csv"[..12] == "/srv/exports";
  }

  /** The name `.` joins to the exports directory itself, which passes the
      prefix test: only the existence test stands between it and the
      routes' reply. */
  lemma DotPassesPrefixTest(d: seq<string>)
    requires |d| >= 1 && PosixPath.AllPlain(d)
    ensures PosixPath.Join(PosixPath.AbsDir(d), ".") == PosixPath.AbsDir(d)
    ensures Strings.StartsWith(PosixPath.Join(PosixPath.AbsDir(d), "."), PosixPath.AbsDir(d))
  {
    PosixPath.JoinDot(d);
    Strings.StartsWithPrefix(PosixPath.AbsDir(d), PosixPath.AbsDir(d));
  }
}
