/** The server's cache of parsed sheets (`server.js`): a map from the key
    `spreadsheetId-sheetGid` to the parsed records and the time they were
    stored, the pull-through read `readCSVFile`, the cache steps of the
    refresh and clear-cache handlers, and the way the handlers pick their
    ids from the request. */
module SheetCache {
  import opened Wrappers
  import opened JsStrings
  import opened CsvRecords
  import opened SheetDownload

  /** `CACHE_DURATION`: five minutes, in milliseconds. */
  const CacheDuration := 5 * 60 * 1000

  /** `${spreadsheetId}-${sheetGid}`, the key of a sheet in the cache. */
  function CacheKey(spreadsheetId: string, sheetGid: string): string {
    spreadsheetId + "-" + sheetGid
  }

  /** One cache entry: the parsed records and the `Date.now()` reading taken
      when they were stored. */
  datatype Entry = Entry(data: seq<Record>, timestamp: int)

  /** The cache is used when the key has an entry that is younger than
      `CACHE_DURATION` at the time `now` of the check. */
  predicate IsHit(entries: map<string, Entry>, key: string, now: int) {
    key in entries && now - entries[key].timestamp < CacheDuration
  }

  /** What the outside world answers during one call: the outcome of the
      HTTP request, whether writing the file succeeds, whether reading it
      succeeds. */
  datatype Io = Io(fetched: FetchOutcome, writeOk: bool, readOk: bool)

  /** The result of `readCSVFile` (records or the error it throws), and the
      cache and the files it leaves. */
  datatype ReadOutcome = ReadOutcome(result: Result<seq<Record>, Failure>,
                                     entries: map<string, Entry>, files: map<string, string>)

  // ---------------------------------------------------------------------------
  // readCSVFile (server.js, lines 28-72)
  // ---------------------------------------------------------------------------

  /** Reading the file, parsing it and storing the records under `key` with
      the time `now` (lines 53-66). A failed read throws and stores
      nothing. */
  function LoadFile(entries: map<string, Entry>, files: map<string, string>, key: string,
                    path: string, now: int, readOk: bool): ReadOutcome
  {
    if !readOk || path !in files then ReadOutcome(Err(ReadError), entries, files)
    else
      var data := Parsed(files[path]);
      ReadOutcome(Ok(data), entries[key := Entry(data, now)], files)
  }

  /** `readCSVFile(spreadsheetId, sheetGid)`, with the two clock readings it
      takes: `nowCheck` for the freshness test (line 40) and `nowStore` for
      the new timestamp (line 63). A fresh entry is returned as it is;
      otherwise the sheet is downloaded only when its file is absent, and then
      the file is read and parsed. */
  function ReadCsv(entries: map<string, Entry>, files: map<string, string>,
                   spreadsheetId: string, sheetGid: string,
                   nowCheck: int, nowStore: int, io: Io): ReadOutcome
  {
    var key := CacheKey(spreadsheetId, sheetGid);
    var path := FilePath(spreadsheetId, sheetGid);
    if IsHit(entries, key, nowCheck) then ReadOutcome(Ok(entries[key].data), entries, files)
    else if path in files then LoadFile(entries, files, key, path, nowStore, io.readOk)
    else
      var (downloaded, files') := Download(files, spreadsheetId, sheetGid, io.fetched, io.writeOk);
      if downloaded.Err? then ReadOutcome(Err(downloaded.error), entries, files)
      else LoadFile(entries, files', key, path, nowStore, io.readOk)
  }

  /** The result of the refresh handler (the download report and the
      records), and the cache and the files it leaves. */
  datatype RefreshOutcome = RefreshOutcome(result: Result<(DownloadInfo, seq<Record>), Failure>,
                                           entries: map<string, Entry>, files: map<string, string>)

  /** The cache steps of `POST /api/refresh` (lines 144-152): download, then
      drop the sheet's entry, then `readCSVFile`. */
  function Refresh(entries: map<string, Entry>, files: map<string, string>,
                   spreadsheetId: string, sheetGid: string,
                   nowCheck: int, nowStore: int, io: Io): RefreshOutcome
  {
    var (downloaded, files') := Download(files, spreadsheetId, sheetGid, io.fetched, io.writeOk);
    if downloaded.Err? then RefreshOutcome(Err(downloaded.error), entries, files)
    else
      var read := ReadCsv(entries - {CacheKey(spreadsheetId, sheetGid)}, files',
                          spreadsheetId, sheetGid, nowCheck, nowStore, io);
      RefreshOutcome(if read.result.Ok? then Ok((downloaded.value, read.result.value)) else Err(read.result.error),
                     read.entries, read.files)
  }

  // ---------------------------------------------------------------------------
  // The cache object
  // ---------------------------------------------------------------------------

  /** `csvDataCache`, the process-wide `Map` of parsed sheets. */
  class CsvCache {
    var entries: map<string, Entry>

    /** `new Map()`. */
    constructor()
      ensures entries == map[]
    {
      entries := map[];
    }

    /** `csvDataCache.size`. */
    function Size(): nat
      reads this
    {
      |entries|
    }

    /** `csvDataCache.get(key)`: the entry, or nothing for an unknown key. */
    method Get(key: string) returns (e: Option<Entry>)
      ensures e.Some? <==> key in entries
      ensures e.Some? ==> e.value == entries[key]
    {
      if key in entries {
        e := Some(entries[key]);
      } else {
        e := None;
      }
    }

    /** `csvDataCache.set(key, entry)`. */
    method Set(key: string, entry: Entry)
      modifies this
      ensures entries == old(entries)[key := entry]
    {
      entries := entries[key := entry];
    }

    /** `csvDataCache.delete(key)`: whether the key was there; it is gone
      afterwards and nothing else changes. */
    method Delete(key: string) returns (existed: bool)
      modifies this
      ensures existed == (key in old(entries))
      ensures entries == old(entries) - {key}
    {
      existed := key in entries;
      entries := entries - {key};
    }

    /** The clear-cache handler (lines 349-350): the size before the call,
        and an empty cache after it. */
    method Clear() returns (cacheSize: nat)
      modifies this
      ensures cacheSize == |old(entries)|
      ensures entries == map[]
    {
      cacheSize := Size();
      entries := map[];
    }

    /** `readCSVFile`, step by step: the cache lookup, the existence check
        and download, the read, the parse, the store. */
    method ReadCsvFile(disk: Disk, spreadsheetId: string, sheetGid: string,
                       nowCheck: int, nowStore: int, io: Io) returns (r: Result<seq<Record>, Failure>)
      modifies this, disk
      ensures ReadOutcome(r, entries, disk.files)
              == ReadCsv(old(entries), old(disk.files), spreadsheetId, sheetGid, nowCheck, nowStore, io)
    {
      var cacheKey := spreadsheetId + "-" + sheetGid;
      var filePath := FilePath(spreadsheetId, sheetGid);
      var cachedData := Get(cacheKey);
      if cachedData.Some? && nowCheck - cachedData.value.timestamp < CacheDuration {
        return Ok(cachedData.value.data);
      }
      if filePath !in disk.files {
        var downloaded := DownloadCsv(disk, spreadsheetId, sheetGid, io.fetched, io.writeOk);
        if downloaded.Err? {
          return Err(downloaded.error);
        }
      }
      if !io.readOk || filePath !in disk.files {
        return Err(ReadError);
      }
      var csvData := disk.files[filePath];
      var parsedData := ParseCsv(csvData);
      Set(cacheKey, Entry(parsedData, nowStore));
      return Ok(parsedData);
    }

    /** The refresh handler's cache steps: download, delete the entry, read
        again. */
    method RefreshSheet(disk: Disk, spreadsheetId: string, sheetGid: string,
                        nowCheck: int, nowStore: int, io: Io)
      returns (r: Result<(DownloadInfo, seq<Record>), Failure>)
      modifies this, disk
      ensures RefreshOutcome(r, entries, disk.files)
              == Refresh(old(entries), old(disk.files), spreadsheetId, sheetGid, nowCheck, nowStore, io)
    {
      var downloadResult := DownloadCsv(disk, spreadsheetId, sheetGid, io.fetched, io.writeOk);
      if downloadResult.Err? {
        return Err(downloadResult.error);
      }
      var cacheKey := spreadsheetId + "-" + sheetGid;
      var _ := Delete(cacheKey);
      var jsonData := ReadCsvFile(disk, spreadsheetId, sheetGid, nowCheck, nowStore, io);
      if jsonData.Err? {
        return Err(jsonData.error);
      }
      r := Ok((downloadResult.value, jsonData.value));
    }
  }

  // ---------------------------------------------------------------------------
  // Properties of readCSVFile
  // ---------------------------------------------------------------------------

  /** A hit returns the stored records and touches neither the cache nor the
      files. */
  lemma ReadHit(entries: map<string, Entry>, files: map<string, string>,
                spreadsheetId: string, sheetGid: string, nowCheck: int, nowStore: int, io: Io)
    requires IsHit(entries, CacheKey(spreadsheetId, sheetGid), nowCheck)
    ensures ReadCsv(entries, files, spreadsheetId, sheetGid, nowCheck, nowStore, io)
            == ReadOutcome(Ok(entries[CacheKey(spreadsheetId, sheetGid)].data), entries, files)
  {
  }

  /** Reading a file: it succeeds exactly when the read succeeds and the file
      exists; then the records are the parse of the file and are stored under
      the key with the given time, and every other key is left alone; a
      failure leaves the cache as it was. The files are never changed. */
  lemma LoadFileOutcome(entries: map<string, Entry>, files: map<string, string>, key: string,
                        path: string, now: int, readOk: bool)
    ensures var o := LoadFile(entries, files, key, path, now, readOk);
      && o.files == files
      && (o.result.Ok? <==> readOk && path in files)
      && (o.result.Ok? ==> o.result.value == Parsed(files[path])
                           && key in o.entries && o.entries[key] == Entry(o.result.value, now))
      && (o.result.Err? ==> o.result.error == ReadError && o.entries == entries)
      && (forall k :: k != key ==> (k in o.entries <==> k in entries))
      && (forall k :: k != key && k in entries ==> o.entries[k] == entries[k])
  {
  }

  /** On a miss with the file already on disk (a stale entry, or a sheet
      read before the cache was cleared), nothing is downloaded: the existing
      file is read and parsed again. */
  lemma MissWithFileRereads(entries: map<string, Entry>, files: map<string, string>,
                            spreadsheetId: string, sheetGid: string,
                            nowCheck: int, nowStore: int, io: Io)
    requires !IsHit(entries, CacheKey(spreadsheetId, sheetGid), nowCheck)
    requires FilePath(spreadsheetId, sheetGid) in files
    ensures var o := ReadCsv(entries, files, spreadsheetId, sheetGid, nowCheck, nowStore, io);
      && o.files == files
      && (io.readOk ==>
            var data := Parsed(files[FilePath(spreadsheetId, sheetGid)]);
            o == ReadOutcome(Ok(data), entries[CacheKey(spreadsheetId, sheetGid) := Entry(data, nowStore)], files))
      && (!io.readOk ==> o == ReadOutcome(Err(ReadError), entries, files))
  {
  }

  /** On a miss without the file, the sheet is downloaded first: a failed
      download is the result and changes nothing; a successful one stores
      the response text, which is then read and parsed. */
  lemma MissWithoutFileDownloads(entries: map<string, Entry>, files: map<string, string>,
                                 spreadsheetId: string, sheetGid: string,
                                 nowCheck: int, nowStore: int, io: Io)
    requires !IsHit(entries, CacheKey(spreadsheetId, sheetGid), nowCheck)
    requires FilePath(spreadsheetId, sheetGid) !in files
    ensures var o := ReadCsv(entries, files, spreadsheetId, sheetGid, nowCheck, nowStore, io);
      var downloaded := Download(files, spreadsheetId, sheetGid, io.fetched, io.writeOk).0;
      var key := CacheKey(spreadsheetId, sheetGid);
      && (downloaded.Err? ==> o == ReadOutcome(Err(downloaded.error), entries, files))
      && (downloaded.Ok? ==>
            && io.fetched.Fetched?
            && o.files == files[FilePath(spreadsheetId, sheetGid) := io.fetched.body]
            && (io.readOk ==> o.result == Ok(Parsed(io.fetched.body))
                              && o.entries == entries[key := Entry(Parsed(io.fetched.body), nowStore)])
            && (!io.readOk ==> o.result == Err(ReadError) && o.entries == entries))
  {
    DownloadOutcome(files, spreadsheetId, sheetGid, io.fetched, io.writeOk);
  }

  /** Whatever happens, a failed read leaves the cache exactly as it was:
      a stale or absent entry stays stale or absent. */
  lemma ReadFailureKeepsCache(entries: map<string, Entry>, files: map<string, string>,
                              spreadsheetId: string, sheetGid: string,
                              nowCheck: int, nowStore: int, io: Io)
    ensures var o := ReadCsv(entries, files, spreadsheetId, sheetGid, nowCheck, nowStore, io);
      o.result.Err? ==> o.entries == entries
  {
  }

  /** A successful read that was not a hit maps the key to exactly the
      records it returns, stamped with `nowStore`, and those records are the
      parse of the file now on disk; no other key changes. */
  lemma ReadMissStores(entries: map<string, Entry>, files: map<string, string>,
                       spreadsheetId: string, sheetGid: string,
                       nowCheck: int, nowStore: int, io: Io)
    requires !IsHit(entries, CacheKey(spreadsheetId, sheetGid), nowCheck)
    ensures var o := ReadCsv(entries, files, spreadsheetId, sheetGid, nowCheck, nowStore, io);
      var path := FilePath(spreadsheetId, sheetGid);
      o.result.Ok? ==>
        && path in o.files
        && o.result.value == Parsed(o.files[path])
        && o.entries == entries[CacheKey(spreadsheetId, sheetGid) := Entry(o.result.value, nowStore)]
  {
    if FilePath(spreadsheetId, sheetGid) !in files {
      DownloadOutcome(files, spreadsheetId, sheetGid, io.fetched, io.writeOk);
    }
  }

  /** Records stored at `nowStore` are served from the cache, whatever the
      disk and the network do, by every read whose check falls within the
      next five minutes. */
  lemma FreshAfterLoad(entries: map<string, Entry>, files: map<string, string>,
                       spreadsheetId: string, sheetGid: string,
                       nowCheck: int, nowStore: int, io: Io,
                       files2: map<string, string>, later: int, laterStore: int, io2: Io)
    requires !IsHit(entries, CacheKey(spreadsheetId, sheetGid), nowCheck)
    requires ReadCsv(entries, files, spreadsheetId, sheetGid, nowCheck, nowStore, io).result.Ok?
    requires nowStore <= later < nowStore + CacheDuration
    ensures var o := ReadCsv(entries, files, spreadsheetId, sheetGid, nowCheck, nowStore, io);
      ReadCsv(o.entries, files2, spreadsheetId, sheetGid, later, laterStore, io2)
        == ReadOutcome(o.result, o.entries, files2)
  {
    ReadMissStores(entries, files, spreadsheetId, sheetGid, nowCheck, nowStore, io);
  }

  /** At exactly five minutes the entry is stale: the next read goes back
      to the file, without downloading when the file exists. */
  lemma StaleAtDuration(entries: map<string, Entry>, files: map<string, string>,
                        spreadsheetId: string, sheetGid: string, nowStore: int, io: Io)
    requires CacheKey(spreadsheetId, sheetGid) in entries
    requires FilePath(spreadsheetId, sheetGid) in files
    ensures var nowCheck := entries[CacheKey(spreadsheetId, sheetGid)].timestamp + 300000;
      ReadCsv(entries, files, spreadsheetId, sheetGid, nowCheck, nowStore, io)
        == LoadFile(entries, files, CacheKey(spreadsheetId, sheetGid), FilePath(spreadsheetId, sheetGid),
                    nowStore, io.readOk)
  {
  }

  // ---------------------------------------------------------------------------
  // Properties of the refresh
  // ---------------------------------------------------------------------------

  /** A refresh whose download fails reports that failure and changes
      nothing: the entry is not deleted. */
  lemma RefreshFailedDownload(entries: map<string, Entry>, files: map<string, string>,
                              spreadsheetId: string, sheetGid: string,
                              nowCheck: int, nowStore: int, io: Io)
    requires Download(files, spreadsheetId, sheetGid, io.fetched, io.writeOk).0.Err?
    ensures Refresh(entries, files, spreadsheetId, sheetGid, nowCheck, nowStore, io)
      == RefreshOutcome(Err(Download(files, spreadsheetId, sheetGid, io.fetched, io.writeOk).0.error), entries, files)
  {
  }

  /** A refresh whose download succeeds never serves the old entry, however
      fresh, and never downloads twice: the new text is on disk, and when
      it is read the key maps to its parse stamped with `nowStore`. When the
      read fails the old entry is gone. */
  lemma RefreshAfterDownload(entries: map<string, Entry>, files: map<string, string>,
                             spreadsheetId: string, sheetGid: string,
                             nowCheck: int, nowStore: int, io: Io)
    requires Download(files, spreadsheetId, sheetGid, io.fetched, io.writeOk).0.Ok?
    ensures io.fetched.Fetched?
    ensures var o := Refresh(entries, files, spreadsheetId, sheetGid, nowCheck, nowStore, io);
      var key := CacheKey(spreadsheetId, sheetGid);
      var data := Parsed(io.fetched.body);
      && o.files == files[FilePath(spreadsheetId, sheetGid) := io.fetched.body]
      && (io.readOk ==>
            && o.result == Ok((Download(files, spreadsheetId, sheetGid, io.fetched, io.writeOk).0.value, data))
            && o.entries == entries[key := Entry(data, nowStore)])
      && (!io.readOk ==> o.result == Err(ReadError) && o.entries == entries - {key})
  {
    DownloadOutcome(files, spreadsheetId, sheetGid, io.fetched, io.writeOk);
  }

  // ---------------------------------------------------------------------------
  // The cache key
  // ---------------------------------------------------------------------------

  /** The file name is the cache key wrapped in a fixed prefix and suffix. */
  lemma FilePathOfKey(spreadsheetId: string, sheetGid: string)
    ensures FilePath(spreadsheetId, sheetGid) == "data/sheets-" + CacheKey(spreadsheetId, sheetGid) + ".csv"
  {
    var key := CacheKey(spreadsheetId, sheetGid);
    AppendAssoc("sheets-", spreadsheetId, "-");
    AppendAssoc("sheets-", spreadsheetId + "-", sheetGid);
    AppendAssoc("data/", "sheets-" + key, ".csv");
    AppendAssoc("data/", "sheets-", key);
  }

  /** Two sheets share a cache entry exactly when they share a file name,
      compared as a string. */
  lemma KeyIffPath(a: string, b: string, c: string, d: string)
    ensures CacheKey(a, b) == CacheKey(c, d) <==> FilePath(a, b) == FilePath(c, d)
  {
    FilePathOfKey(a, b);
    FilePathOfKey(c, d);
    if FilePath(a, b) == FilePath(c, d) {
      SliceThree("data/sheets-", CacheKey(a, b), ".csv");
      SliceThree("data/sheets-", CacheKey(c, d), ".csv");
    }
  }

  /** Ids without `-` are told apart by the key. */
  lemma CacheKeyInjective(a: string, b: string, c: string, d: string)
    requires '-' !in a && '-' !in c
    requires CacheKey(a, b) == CacheKey(c, d)
    ensures a == c && b == d
  {
    var key := CacheKey(a, b);
    SplitPrefix(a, '-', b);
    SplitPrefix(c, '-', d);
    assert Split(key, '-')[0] == a;
    assert Split(key, '-')[0] == c;
    SliceThree(a, "-", b);
    SliceThree(c, "-", d);
  }

  /** Ids with `-` can collide: two different sheets whose keys agree. */
  lemma CacheKeyCollision(a: string, b: string, c: string, d: string)
    requires a == "a-b" && b == "c" && c == "a" && d == "b-c"
    ensures (a, b) != (c, d) && CacheKey(a, b) == CacheKey(c, d)
  {
    assert CacheKey(a, b) == "a-b-c";
  }

  /** Two sheets with the same key are the same sheet as far as
      `readCSVFile` is concerned: same result, same cache, same files. */
  lemma CollidingSheetsShareEntry(entries: map<string, Entry>, files: map<string, string>,
                                  a: string, b: string, c: string, d: string,
                                  nowCheck: int, nowStore: int, io: Io)
    requires CacheKey(a, b) == CacheKey(c, d)
    requires a != "" && b != "" && c != "" && d != ""
    ensures ReadCsv(entries, files, a, b, nowCheck, nowStore, io)
         == ReadCsv(entries, files, c, d, nowCheck, nowStore, io)
  {
    KeyIffPath(a, b, c, d);
    DownloadOutcome(files, a, b, io.fetched, io.writeOk);
    DownloadOutcome(files, c, d, io.fetched, io.writeOk);
  }

  // ---------------------------------------------------------------------------
  // Picking the ids from the request (server.js, lines 78-79, 136-139, 179-180)
  // ---------------------------------------------------------------------------

  /** The query string or the JSON body of a request, by name. */
  type Params = map<string, string>

  /** `params.name`, with a missing name read as the (falsy) empty string. */
  function Param(params: Params, name: string): string {
    if name in params then params[name] else ""
  }

  /** `candidates[0] || candidates[1] || ... || fallback`. */
  function FirstNonEmpty(candidates: seq<string>, fallback: string): string {
    if candidates == [] then fallback
    else if candidates[0] != "" then candidates[0]
    else FirstNonEmpty(candidates[1..], fallback)
  }

  /** Candidate `k` is non-empty and every earlier one is empty. */
  ghost predicate IsFirstNonEmpty(candidates: seq<string>, k: int) {
    0 <= k < |candidates| && candidates[k] != "" && forall j :: 0 <= j < k ==> candidates[j] == ""
  }

  /** `||` picks the first non-empty candidate, and the fallback only when
      every candidate is empty. */
  lemma {:induction false} FirstNonEmptyRule(candidates: seq<string>, fallback: string)
    ensures (forall k :: 0 <= k < |candidates| ==> candidates[k] == "") ==> FirstNonEmpty(candidates, fallback) == fallback
    ensures forall k :: IsFirstNonEmpty(candidates, k) ==> FirstNonEmpty(candidates, fallback) == candidates[k]
  {
    if candidates != [] {
      FirstNonEmptyRule(candidates[1..], fallback);
      forall k | IsFirstNonEmpty(candidates, k)
        ensures FirstNonEmpty(candidates, fallback) == candidates[k]
      {
        if k > 0 {
          assert candidates[1..][k - 1] == candidates[k];
          forall j | 0 <= j < k - 1 ensures candidates[1..][j] == "" {
            assert candidates[j + 1] == "";
          }
          assert IsFirstNonEmpty(candidates[1..], k - 1);
        }
      }
      if forall k :: 0 <= k < |candidates| ==> candidates[k] == "" {
        forall k | 0 <= k < |candidates| - 1 ensures candidates[1..][k] == "" {
          assert candidates[k + 1] == "";
        }
      }
    }
  }

  /** With a non-empty fallback the choice is never empty. */
  lemma {:induction false} FirstNonEmptyPresent(candidates: seq<string>, fallback: string)
    requires fallback != ""
    ensures FirstNonEmpty(candidates, fallback) != ""
  {
    if candidates != [] && candidates[0] == "" {
      FirstNonEmptyPresent(candidates[1..], fallback);
    }
  }

  /** The ids of `GET /api/data` and `GET /api/info`: `spreadsheet_id`, then
      `spreadsheetId`, then the default; `sheet_gid`, then `sheetGid`, then
      the default. */
  function QueryIds(query: Params): (string, string) {
    (FirstNonEmpty([Param(query, "spreadsheet_id"), Param(query, "spreadsheetId")], DefaultSpreadsheetId),
     FirstNonEmpty([Param(query, "sheet_gid"), Param(query, "sheetGid")], DefaultSheetGid))
  }

  /** The ids of `POST /api/refresh`: each name is looked up in the query
      string and then in the body before the next name is tried. */
  function RefreshIds(query: Params, body: Params): (string, string) {
    (FirstNonEmpty([Param(query, "spreadsheet_id"), Param(body, "spreadsheet_id"),
                    Param(query, "spreadsheetId"), Param(body, "spreadsheetId")], DefaultSpreadsheetId),
     FirstNonEmpty([Param(query, "sheet_gid"), Param(body, "sheet_gid"),
                    Param(query, "sheetGid"), Param(body, "sheetGid")], DefaultSheetGid))
  }

  /** Both routes always end up with two non-empty ids, so the 400
      "missing parameters" answer and the download guard can never fire
      for them. */
  lemma ResolvedIdsPresent(query: Params, body: Params, files: map<string, string>,
                           fetched: FetchOutcome, writeOk: bool)
    ensures var (id, gid) := QueryIds(query);
      !MissingIds(id, gid) && Download(files, id, gid, fetched, writeOk).0 != Err(MissingParameters)
    ensures var (id, gid) := RefreshIds(query, body);
      !MissingIds(id, gid) && Download(files, id, gid, fetched, writeOk).0 != Err(MissingParameters)
  {
    FirstNonEmptyPresent([Param(query, "spreadsheet_id"), Param(query, "spreadsheetId")], DefaultSpreadsheetId);
    FirstNonEmptyPresent([Param(query, "sheet_gid"), Param(query, "sheetGid")], DefaultSheetGid);
    FirstNonEmptyPresent([Param(query, "spreadsheet_id"), Param(body, "spreadsheet_id"),
                          Param(query, "spreadsheetId"), Param(body, "spreadsheetId")], DefaultSpreadsheetId);
    FirstNonEmptyPresent([Param(query, "sheet_gid"), Param(body, "sheet_gid"),
                          Param(query, "sheetGid"), Param(body, "sheetGid")], DefaultSheetGid);
    var (id, gid) := QueryIds(query);
    DownloadOutcome(files, id, gid, fetched, writeOk);
    var (rid, rgid) := RefreshIds(query, body);
    DownloadOutcome(files, rid, rgid, fetched, writeOk);
  }

  /** Without any id in the request the defaults are used; an empty
      `spreadsheet_id` falls through to `spreadsheetId`. */
  lemma QueryIdsExamples(query: Params)
    requires query == map["spreadsheet_id" := "", "spreadsheetId" := "abc"]
    ensures QueryIds(map[]) == (DefaultSpreadsheetId, DefaultSheetGid)
    ensures QueryIds(query) == ("abc", DefaultSheetGid)
  {
    var ids := [Param(query, "spreadsheet_id"), Param(query, "spreadsheetId")];
    assert ids == ["", "abc"];
    FirstNonEmptyRule(ids, DefaultSpreadsheetId);
    assert IsFirstNonEmpty(ids, 1);
    assert "sheet_gid" !in query && "sheetGid" !in query;
  }
}
