/** The pieces of `downloadCSV.js` that decide what is fetched, where it is
    stored and which responses are accepted: the defaults, the URL and file
    name templates, the parameter guard, the response checks, and the
    download step itself over a disk of named files. */
module SheetDownload {
  import opened Wrappers
  import opened JsStrings

  /** `DEFAULT_SPREADSHEET_ID` and `DEFAULT_SHEET_GID`. */
  const DefaultSpreadsheetId := "174dcynBTIagtj0JckoVh248dXXncdi0I"
  const DefaultSheetGid := "1618426698"

  // ---------------------------------------------------------------------------
  // The export URL (downloadCSV.js, lines 10-12)
  // ---------------------------------------------------------------------------

  /** The fixed parts of the export URL, around the two ids. */
  const UrlPrefix := "https://docs.google.com/spreadsheets/d/"
  const UrlMiddle := "/export?format=csv&gid="
  const UrlSuffix := "&single=true&output=csv"

  /** `generateCSVUrl(spreadsheetId, sheetGid)`. */
  function CsvUrl(spreadsheetId: string, sheetGid: string): string {
    UrlPrefix + spreadsheetId + UrlMiddle + sheetGid + UrlSuffix
  }

  /** Reads the two ids back out of an export URL: the spreadsheet id runs to
      the first `/` after the prefix. */
  function ReadCsvUrl(url: string): Option<(string, string)> {
    if |url| < |UrlPrefix| + |UrlSuffix| || url[..|UrlPrefix|] != UrlPrefix
       || url[|url| - |UrlSuffix|..] != UrlSuffix then None
    else
      var middle := url[|UrlPrefix|..|url| - |UrlSuffix|];
      var id := Split(middle, '/')[0];
      if |id| + |UrlMiddle| <= |middle| && middle[|id|..|id| + |UrlMiddle|] == UrlMiddle
      then Some((id, middle[|id| + |UrlMiddle|..]))
      else None
  }

  /** Slicing a concatenation of three parts gives the parts back. */
  lemma SliceThree(a: string, b: string, c: string)
    ensures (a + b + c)[..|a|] == a
    ensures (a + b + c)[|a|..|a| + |b|] == b
    ensures (a + b + c)[|a| + |b|..] == c
  {
  }

  /** Both ids are inserted verbatim: a spreadsheet id without `/` and any
      sheet id are read back unchanged from the URL. */
  lemma CsvUrlRoundTrip(spreadsheetId: string, sheetGid: string)
    requires '/' !in spreadsheetId
    ensures ReadCsvUrl(CsvUrl(spreadsheetId, sheetGid)) == Some((spreadsheetId, sheetGid))
  {
    var url := CsvUrl(spreadsheetId, sheetGid);
    var middle := spreadsheetId + (UrlMiddle + sheetGid);
    AppendAssoc(UrlPrefix + spreadsheetId, UrlMiddle, sheetGid);
    AppendAssoc(UrlPrefix, spreadsheetId, UrlMiddle + sheetGid);
    assert url == UrlPrefix + middle + UrlSuffix;
    SliceThree(UrlPrefix, middle, UrlSuffix);
    assert url[|UrlPrefix|..|url| - |UrlSuffix|] == middle;
    var tail := UrlMiddle[1..] + sheetGid;
    assert UrlMiddle == ['/'] + UrlMiddle[1..];
    AppendAssoc(['/'], UrlMiddle[1..], sheetGid);
    AppendAssoc(spreadsheetId, ['/'], tail);
    SplitPrefix(spreadsheetId, '/', tail);
    SliceThree(spreadsheetId, UrlMiddle, sheetGid);
    AppendAssoc(spreadsheetId, UrlMiddle, sheetGid);
  }

  // ---------------------------------------------------------------------------
  // The local file (downloadCSV.js, lines 15-17)
  // ---------------------------------------------------------------------------

  /** The file name part of `generateFilePath`. */
  function FileName(spreadsheetId: string, sheetGid: string): string {
    "sheets-" + spreadsheetId + "-" + sheetGid + ".csv"
  }

  /** `generateFilePath`: the file name inside the `data` directory. */
  function FilePath(spreadsheetId: string, sheetGid: string): string {
    "data/" + FileName(spreadsheetId, sheetGid)
  }

  // ---------------------------------------------------------------------------
  // Accepting a response (downloadCSV.js, lines 36-38 and 59-67)
  // ---------------------------------------------------------------------------

  /** Why a download or a read fails: the parameter guard, an HTML page
      instead of CSV, an empty or too short body, the request itself, the
      write of the file, the read of the file. */
  datatype Failure =
    | MissingParameters
    | HtmlRedirect
    | EmptyOrInvalid
    | NetworkError
    | WriteError
    | ReadError

  /** What the HTTP request gave: the response text, or an error of the
      request (connection, timeout, redirect limit, error status). */
  datatype FetchOutcome = Fetched(body: string) | FetchFailed

  /** `!spreadsheetId || !sheetGid`. */
  predicate MissingIds(spreadsheetId: string, sheetGid: string) {
    spreadsheetId == "" || sheetGid == ""
  }

  /** The three case-sensitive markers of an HTML page. */
  predicate HasHtmlMarker(body: string) {
    Contains(body, "<HTML>") || Contains(body, "<html>") || Contains(body, "<!DOCTYPE")
  }

  /** The two checks on the response text, in the source's order: HTML first,
      then the minimum length of 10. */
  function ValidateResponse(body: string): Result<string, Failure> {
    if HasHtmlMarker(body) then Err(HtmlRedirect)
    else if |body| < 10 then Err(EmptyOrInvalid)
    else Ok(body)
  }

  /** A response is accepted, unchanged, exactly when it holds none of the
      markers and has at least 10 characters; an HTML page is reported as
      such even when it is also too short. */
  lemma ValidateResponseIff(body: string)
    ensures ValidateResponse(body).Ok? <==> !HasHtmlMarker(body) && |body| >= 10
    ensures ValidateResponse(body).Ok? ==> ValidateResponse(body).value == body
    ensures HasHtmlMarker(body) ==> ValidateResponse(body) == Err(HtmlRedirect)
    ensures !HasHtmlMarker(body) && |body| < 10 ==> ValidateResponse(body) == Err(EmptyOrInvalid)
  {
  }

  /** A text that lacks one of the characters of `sub` does not contain
      `sub`. */
  lemma MissingCharNotContained(s: string, sub: string, k: nat)
    requires k < |sub| && sub[k] !in s
    ensures !Contains(s, sub)
  {
    ContainsIff(s, sub);
  }

  /** A short HTML fragment is reported as HTML, not as too short. */
  lemma ShortHtmlIsRedirect(body: string)
    requires body == "<html>"
    ensures ValidateResponse(body) == Err(HtmlRedirect)
  {
    assert OccursAt(body, "<html>", 0);
  }

  /** The markers are matched case-sensitively: a page opening with
      `<Html>` passes the check. */
  lemma MixedCaseHtmlAccepted(body: string)
    requires body == "<Html>a,b\n1,2"
    ensures ValidateResponse(body) == Ok(body)
  {
    assert !Contains(body, "<HTML>") by { MissingCharNotContained(body, "<HTML>", 2); }
    assert !Contains(body, "<html>") by { MissingCharNotContained(body, "<html>", 1); }
    assert !Contains(body, "<!DOCTYPE") by { MissingCharNotContained(body, "<!DOCTYPE", 1); }
  }

  // ---------------------------------------------------------------------------
  // The download step (downloadCSV.js, lines 33-103)
  // ---------------------------------------------------------------------------

  /** The object `downloadCSV` resolves with (its `success` flag and
      `downloadTime` stamp aside). */
  datatype DownloadInfo = DownloadInfo(
    spreadsheetId: string, sheetGid: string, filePath: string, csvUrl: string,
    dataLength: nat, dataLines: nat)

  /** The local files, by path. */
  class Disk {
    var files: map<string, string>

    constructor(files: map<string, string>)
      ensures this.files == files
    {
      this.files := files;
    }
  }

  /** What `downloadCSV` returns and the files it leaves, given the outcome
      of the request and whether writing the file succeeds: the guard, the
      request, the two checks, the write. */
  function Download(files: map<string, string>, spreadsheetId: string, sheetGid: string,
                    fetched: FetchOutcome, writeOk: bool): (Result<DownloadInfo, Failure>, map<string, string>)
  {
    if MissingIds(spreadsheetId, sheetGid) then (Err(MissingParameters), files)
    else if fetched.FetchFailed? then (Err(NetworkError), files)
    else
      var checked := ValidateResponse(fetched.body);
      if checked.Err? then (Err(checked.error), files)
      else if !writeOk then (Err(WriteError), files)
      else
        var path := FilePath(spreadsheetId, sheetGid);
        var body := fetched.body;
        (Ok(DownloadInfo(spreadsheetId, sheetGid, path, CsvUrl(spreadsheetId, sheetGid),
                         |body|, |Split(body, '\n')|)),
         files[path := body])
  }

  /** An empty id fails the guard before anything is fetched or written. */
  lemma DownloadGuard(files: map<string, string>, spreadsheetId: string, sheetGid: string,
                      fetched: FetchOutcome, writeOk: bool)
    requires spreadsheetId == "" || sheetGid == ""
    ensures Download(files, spreadsheetId, sheetGid, fetched, writeOk) == (Err(MissingParameters), files)
  {
  }

  /** A download succeeds exactly when the ids are given, the request returns
      a text that passes both checks, and the write succeeds; then that text,
      and only it, is stored under the file path, and the reported length and
      line count are its length and its LF count plus one. Every failure
      leaves the files as they were. */
  lemma DownloadOutcome(files: map<string, string>, spreadsheetId: string, sheetGid: string,
                        fetched: FetchOutcome, writeOk: bool)
    ensures var (r, files') := Download(files, spreadsheetId, sheetGid, fetched, writeOk);
      && (r.Ok? <==> !MissingIds(spreadsheetId, sheetGid) && fetched.Fetched?
                     && !HasHtmlMarker(fetched.body) && |fetched.body| >= 10 && writeOk)
      && (r.Err? ==> files' == files)
      && (r.Ok? ==>
            && files' == files[FilePath(spreadsheetId, sheetGid) := fetched.body]
            && r.value.filePath == FilePath(spreadsheetId, sheetGid)
            && r.value.csvUrl == CsvUrl(spreadsheetId, sheetGid)
            && r.value.dataLength == |fetched.body|
            && r.value.dataLines == CountChar(fetched.body, '\n') + 1)
  {
    if fetched.Fetched? {
      ValidateResponseIff(fetched.body);
    }
  }

  /** `downloadCSV`: the guard, the request (its outcome given), the two
      checks, then the write of the file (its success given). */
  method DownloadCsv(disk: Disk, spreadsheetId: string, sheetGid: string,
                     fetched: FetchOutcome, writeOk: bool) returns (r: Result<DownloadInfo, Failure>)
    modifies disk
    ensures (r, disk.files) == Download(old(disk.files), spreadsheetId, sheetGid, fetched, writeOk)
  {
    if spreadsheetId == "" || sheetGid == "" {
      return Err(MissingParameters);
    }
    var csvUrl := CsvUrl(spreadsheetId, sheetGid);
    var filePath := FilePath(spreadsheetId, sheetGid);
    if fetched.FetchFailed? {
      return Err(NetworkError);
    }
    var data := fetched.body;
    if Contains(data, "<HTML>") || Contains(data, "<html>") || Contains(data, "<!DOCTYPE") {
      return Err(HtmlRedirect);
    }
    if data == "" || |data| < 10 {
      return Err(EmptyOrInvalid);
    }
    if !writeOk {
      return Err(WriteError);
    }
    disk.files := disk.files[filePath := data];
    r := Ok(DownloadInfo(spreadsheetId, sheetGid, filePath, csvUrl, |data|, |Split(data, '\n')|));
  }
}
