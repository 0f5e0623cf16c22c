/** `M3U8Pipeline`: admits items carrying an `m3u8_url`, hands each admitted URL to a download job,
    records every outcome in the ledger and sweeps stale temp files when the spider closes.
    The thread pool is modelled as the sequence of submitted jobs that have not yet finished;
    each job runs, start to finish, as one atomic step. */
module Pipeline {
  import opened Optional
  import opened Text
  import opened OsModel
  import opened Ledger
  import opened Naming
  import opened Sets

  /** The fields of a scraped item the pipeline reads; absent keys are `None`. */
  datatype Item = Item(m3u8Url: Option<string>, title: Option<string>, site: Option<string>)

  /** `item.get('title', 'Unknown')`. */
  function TitleOf(item: Item): string {
    item.title.GetOr("Unknown")
  }

  /** `item.get('site', 'unknown')`: the site recorded in the ledger. */
  function SiteOf(item: Item): string {
    item.site.GetOr("unknown")
  }

  /** The project settings the constructor reads, `None` when unset. */
  datatype Settings = Settings(videosStore: Option<Path>, ffmpegMaxThreads: Option<nat>, maxConcurrentDownloads: Option<nat>)

  const DefaultVideosStore: Path := "videos"
  const DefaultMaxThreads: nat := 20
  const DefaultMaxConcurrentDownloads: nat := 5

  /** The `timeout` given to `subprocess.run`, in seconds. */
  const FfmpegTimeout: nat := 3600

  /** How old a temp file must be before the sweep removes it: seven days, in seconds. */
  const TempMaxAge: nat := 7 * 24 * 60 * 60

  /** What `process_item` decided about an item. */
  datatype Admission = NoUrl | AlreadyCompleted | AlreadyQueued | Admitted

  /** A future in the thread pool: `_download_video_async(item, ...)` with the URL its callback
      captured. */
  datatype Job = Job(item: Item, url: string)

  /** How the `ffmpeg` process goes: it runs for `seconds` and exits with `returnCode`, or
      `subprocess.run` raises before it starts. A run longer than `FfmpegTimeout` is cut short by
      `TimeoutExpired`. */
  datatype RunOutcome = Ran(returnCode: int, seconds: nat) | Raised

  /** `subprocess.run(..., timeout=FfmpegTimeout)` returned instead of raising `TimeoutExpired`. */
  predicate FinishedInTime(outcome: RunOutcome) {
    outcome.Ran? && outcome.seconds <= FfmpegTimeout
  }

  /** The dictionary `_download_video_async` returns, and the exception path. */
  datatype JobResult = Succeeded(filePath: Path) | DownloadFailed | Errored

  /** The URLs of the jobs still in the pool. */
  function JobUrls(jobs: seq<Job>): set<string> {
    set j | j in jobs :: j.url
  }

  /** No URL is in the pool twice. */
  predicate DistinctUrls(jobs: seq<Job>) {
    forall a, b :: 0 <= a < b < |jobs| ==> jobs[a].url != jobs[b].url
  }

  /** The pool without its `i`-th job. */
  function WithoutJob(jobs: seq<Job>, i: nat): seq<Job>
    requires i < |jobs|
  {
    jobs[..i] + jobs[i + 1..]
  }

  /** Taking a job out of a pool of distinct URLs removes exactly its URL, and the rest stay
      distinct. */
  lemma WithoutJobUrls(jobs: seq<Job>, i: nat)
    requires i < |jobs| && DistinctUrls(jobs)
    ensures JobUrls(WithoutJob(jobs, i)) == JobUrls(jobs) - {jobs[i].url}
    ensures DistinctUrls(WithoutJob(jobs, i))
    ensures |WithoutJob(jobs, i)| == |jobs| - 1
  {
    var rest := WithoutJob(jobs, i);
    forall u | u in JobUrls(jobs) - {jobs[i].url}
      ensures u in JobUrls(rest)
    {
      var a :| 0 <= a < |jobs| && jobs[a].url == u;
      if a < i {
        assert rest[a] == jobs[a];
      } else {
        assert rest[a - 1] == jobs[a];
      }
    }
    forall u | u in JobUrls(rest)
      ensures u in JobUrls(jobs) - {jobs[i].url}
    {
      var a :| 0 <= a < |rest| && rest[a].url == u;
      if a < i {
        assert rest[a] == jobs[a];
      } else {
        assert rest[a] == jobs[a + 1];
      }
    }
    WithoutJobDistinct(jobs, i);
  }

  /** The pool without one job still has distinct URLs. */
  lemma WithoutJobDistinct(jobs: seq<Job>, i: nat)
    requires i < |jobs| && DistinctUrls(jobs)
    ensures DistinctUrls(WithoutJob(jobs, i))
  {
    var rest := WithoutJob(jobs, i);
    forall a, b | 0 <= a < b < |rest|
      ensures rest[a].url != rest[b].url
    {
      var a', b' := if a < i then a else a + 1, if b < i then b else b + 1;
      assert rest[a] == jobs[a'] && rest[b] == jobs[b'];
    }
  }

  /** Submitting a job whose URL is not in flight adds exactly its URL and keeps the URLs
      distinct. */
  lemma WithJobUrls(jobs: seq<Job>, job: Job)
    requires DistinctUrls(jobs) && job.url !in JobUrls(jobs)
    ensures JobUrls(jobs + [job]) == JobUrls(jobs) + {job.url}
    ensures DistinctUrls(jobs + [job])
    ensures forall j :: j in jobs + [job] <==> j in jobs || j == job
  {
    var all := jobs + [job];
    forall a, b | 0 <= a < b < |all|
      ensures all[a].url != all[b].url
    {
      if b == |jobs| {
        assert all[a] in jobs;
      } else {
        assert all[a] == jobs[a] && all[b] == jobs[b];
      }
    }
  }

  /** The argument list `download_m3u8_with_resume` hands to `subprocess.run`: it reads the URL as
      its input, writes the temp path as its last argument, and carries the overwrite flag `-y`
      exactly when the download does not resume. */
  function FfmpegCommand(maxThreads: nat, url: string, tempPath: Path, resume: bool): (cmd: seq<string>)
    ensures resume <==> |cmd| == 18
    ensures !resume <==> |cmd| == 19 && cmd[17] == "-y"
    ensures cmd[0] == "ffmpeg" && cmd[9] == "-i" && cmd[10] == url
    ensures cmd[|cmd| - 1] == tempPath
  {
    ["ffmpeg",
     "-allowed_extensions", "ALL",
     "-threads", NatToString(maxThreads),
     "-http_seekable", "1",
     "-user_agent", "Mozilla/5.0 (Windows NT 10.0; Win64; x64) AppleWebKit/537.36",
     "-i", url,
     "-c", "copy",
     "-bsf:a", "aac_adtstoasc",
     "-threads", NatToString(maxThreads)]
    + (if resume then [] else ["-y"])
    + [tempPath]
  }

  /** `os.path.exists(p) and os.path.getsize(p) > 0`: the test for a temp file worth resuming, and
      for a fetch that produced something. */
  predicate HoldsData(entries: map<Path, Entry>, p: Path) {
    PathExists(entries.Keys, p) && entries[p].size > 0
  }

  /** What `download_m3u8_with_resume` reports: a run within the timeout, return code 0 and a
      non-empty output file. */
  predicate FetchSucceeded(outcome: RunOutcome, entries: map<Path, Entry>, tempPath: Path) {
    FinishedInTime(outcome) && outcome.returnCode == 0 && HoldsData(entries, tempPath)
  }

  /** `_get_final_file_path` on the paths `paths`: `p` is the first `<stem>[_k].mp4` in `dir` that
      does not exist. */
  ghost predicate FirstFreeVideoPath(paths: set<Path>, dir: Path, stem: string, p: Path) {
    exists k: nat :: p == Join(dir, Candidate(stem, k, ".mp4")) &&
      forall j :: 0 <= j < k ==> PathExists(paths, Join(dir, Candidate(stem, j, ".mp4")))
  }

  /** What one run of `_download_video_async` leaves behind. Before it, the ledger is `t` and the
      entries are `e`; `tmp` is its temp path, `h` its URL's key, and `dir` and `stem` the site
      directory and cleaned title the final name is built from. After it, they are `t'` and `e'`.
      A success moves the fetched file to the first free final path and records it as
      `completed`; a failed fetch keeps the temp file and records `failed`; a fetch that
      succeeded but whose move raised records `error`. */
  ghost predicate JobEffect(h: Hash, tmp: Path, dir: Path, stem: string, t: Table, e: map<Path, Entry>,
                            outcome: RunOutcome, output: Option<Entry>, moveOk: bool, now: Timestamp,
                            result: JobResult, t': Table, e': map<Path, Entry>)
  {
    var fetched := AfterWrite(e, tmp, output);
    && (result.Succeeded? <==> FetchSucceeded(outcome, fetched, tmp) && moveOk)
    && (result.DownloadFailed? <==> !FetchSucceeded(outcome, fetched, tmp))
    && (result.Errored? <==> FetchSucceeded(outcome, fetched, tmp) && !moveOk)
    && (result.Succeeded? ==>
          && result.filePath != []
          && !PathExists(e.Keys, result.filePath)
          && FirstFreeVideoPath(e.Keys, dir, stem, result.filePath)
          && e' == (fetched - {tmp})[result.filePath := fetched[tmp]]
          && StatusUpdated(t, t', h, Completed, Some(result.filePath), Some(fetched[tmp].size), now))
    && (result.DownloadFailed? ==> e' == fetched && StatusUpdated(t, t', h, Failed, None, None, now))
    && (result.Errored? ==> e' == fetched && StatusUpdated(t, t', h, Error, None, None, now))
  }

  /** After a successful job the ledger shows the URL as downloaded, so `process_item` skips it
      while the file stays, exactly when the URL still had its row. */
  lemma SucceededIsCompleted(h: Hash, tmp: Path, dir: Path, stem: string, t: Table, e: map<Path, Entry>,
                             outcome: RunOutcome, output: Option<Entry>, moveOk: bool, now: Timestamp,
                             result: JobResult, t': Table, e': map<Path, Entry>)
    requires JobEffect(h, tmp, dir, stem, t, e, outcome, output, moveOk, now, result, t', e')
    requires result.Succeeded?
    ensures h in t <==> HasValidFile(t', h, e'.Keys)
  {
    var p := result.filePath;
    assert p in e';
    if h in t {
      assert Given(Some(p));
      assert t'[h].filePath == Some(p);
    }
  }

  /** The row for `h` after `is_download_completed` looked at it: demoted when it claimed a file
      that is gone, untouched otherwise. */
  ghost predicate CompletionChecked(t: Table, t': Table, h: Hash, paths: set<Path>, now: Timestamp) {
    if h in t && t[h].status == Completed && !HasValidFile(t, h, paths)
    then StatusUpdated(t, t', h, MissingFile, None, None, now)
    else t' == t
  }

  /** The temp path the ledger remembers for `h`, if it has a row. */
  function StoredTemp(t: Table, h: Hash): Option<Path> {
    if h in t then Some(t[h].tempFilePath) else None
  }

  /** The `.tmp.mp4` names `os.listdir(temp_store)` returns. */
  function TempNames(paths: set<Path>, tempStore: Path): set<Path> {
    set n | n in Listdir(paths, tempStore) && EndsWith(n, TempSuffix)
  }

  /** A listed temp file the sweep removes: older than `weekAgo`, and a regular file, since
      `os.remove` raises on a directory. */
  predicate Expired(entries: map<Path, Entry>, p: Path, weekAgo: int) {
    p in entries && entries[p].kind == RegularFile && entries[p].mtime < weekAgo
  }

  /** The paths `cleanup_temp_files` removes among the listed names `ns`. */
  function ExpiredAmong(entries: map<Path, Entry>, tempStore: Path, ns: set<Path>, weekAgo: int): set<Path> {
    set n | n in ns && Expired(entries, Join(tempStore, n), weekAgo) :: Join(tempStore, n)
  }

  /** Everything `cleanup_temp_files` removes at time `now`: nothing when the temp directory is
      missing. */
  function ExpiredTempFiles(entries: map<Path, Entry>, tempStore: Path, now: int): set<Path> {
    if PathExists(entries.Keys, tempStore)
    then ExpiredAmong(entries, tempStore, TempNames(entries.Keys, tempStore), now - TempMaxAge)
    else {}
  }

  /** Exactly the expired temp files go: each removed path is a regular `.tmp.mp4` file directly
      inside the temp directory, last modified more than seven days before `now`, and every such
      file is removed. */
  lemma ExpiredTempFilesExactly(entries: map<Path, Entry>, tempStore: Path, now: int, p: Path)
    requires PathExists(entries.Keys, tempStore)
    ensures p in ExpiredTempFiles(entries, tempStore, now) <==>
      && InDir(p, tempStore)
      && EndsWith(p[|DirPrefix(tempStore)|..], TempSuffix)
      && Expired(entries, p, now - TempMaxAge)
  {
    var pre := DirPrefix(tempStore);
    if p in ExpiredTempFiles(entries, tempStore, now) {
      var n :| n in TempNames(entries.Keys, tempStore) && Expired(entries, Join(tempStore, n), now - TempMaxAge)
        && p == Join(tempStore, n);
      ListedNameJoinsBack(entries.Keys, tempStore, n);
    }
    if InDir(p, tempStore) && EndsWith(p[|pre|..], TempSuffix) && Expired(entries, p, now - TempMaxAge) {
      var n := p[|pre|..];
      assert n in Listdir(entries.Keys, tempStore);
      ListedNameJoinsBack(entries.Keys, tempStore, n);
      assert Join(tempStore, n) == p;
    }
  }

  /** After a sweep no expired temp file is left, so sweeping twice at the same time removes
      nothing more. */
  lemma SweepLeavesNothingExpired(entries: map<Path, Entry>, tempStore: Path, now: int)
    ensures var after := entries - ExpiredTempFiles(entries, tempStore, now);
      ExpiredTempFiles(after, tempStore, now) == {}
  {
    var gone := ExpiredTempFiles(entries, tempStore, now);
    var after := entries - gone;
    if PathExists(after.Keys, tempStore) {
      assert tempStore in entries;
      forall p | p in ExpiredTempFiles(after, tempStore, now)
        ensures false
      {
        ExpiredTempFilesExactly(after, tempStore, now, p);
        ExpiredTempFilesExactly(entries, tempStore, now, p);
      }
    }
  }

  class M3U8Pipeline {
    const videosStore: Path
    /** `temp_downloads` next to the videos directory. */
    const tempStore: Path
    /** `downloads.db` next to the videos directory; the ledger below is opened on it. */
    const dbPath: Path
    const maxThreads: nat
    const maxConcurrentDownloads: nat
    const db: DownloadDatabase
    const fs: FileSystem

    /** `downloading_urls`: the URLs admitted and not yet released. */
    var downloadingUrls: set<string>
    /** `active_downloads`. */
    var activeDownloads: int
    /** `shutdown_notified`. */
    var shutdownNotified: bool
    /** Whether `_cleanup_resources` has closed the ledger and shut the pool down. */
    var resourcesReleased: bool
    /** The futures submitted to the pool that have not finished yet. */
    var submitted: seq<Job>

    /** The counter agrees with the set, and the set is exactly the URLs of the unfinished jobs,
        each in the pool once. */
    ghost predicate Valid()
      reads this, db
    {
      && db.Valid()
      && activeDownloads == |downloadingUrls|
      && downloadingUrls == JobUrls(submitted)
      && DistinctUrls(submitted)
      && (forall j :: j in submitted ==> j.item.m3u8Url == Some(j.url))
    }

    /** `__init__`: reads the settings and creates the videos and temp directories when missing. */
    constructor (settings: Settings, db: DownloadDatabase, fs: FileSystem, now: int)
      requires db.Valid()
      modifies fs
      ensures Valid()
      ensures videosStore == settings.videosStore.GetOr(DefaultVideosStore)
      ensures tempStore == Join(Dirname(videosStore), "temp_downloads")
      ensures dbPath == Join(Dirname(videosStore), "downloads.db")
      ensures maxThreads == settings.ffmpegMaxThreads.GetOr(DefaultMaxThreads)
      ensures maxConcurrentDownloads == settings.maxConcurrentDownloads.GetOr(DefaultMaxConcurrentDownloads)
      ensures this.db == db && this.fs == fs
      ensures fs.entries == EnsureDirs(old(fs.entries), [videosStore, tempStore], now)
      ensures downloadingUrls == {} && activeDownloads == 0 && submitted == []
      ensures !shutdownNotified && !resourcesReleased
    {
      var store := settings.videosStore.GetOr(DefaultVideosStore);
      var parent := Dirname(store);
      var temp := Join(parent, "temp_downloads");
      fs.MakeEachDirIfMissing([store, temp], now);
      videosStore := store;
      tempStore := temp;
      dbPath := Join(parent, "downloads.db");
      maxThreads := settings.ffmpegMaxThreads.GetOr(DefaultMaxThreads);
      maxConcurrentDownloads := settings.maxConcurrentDownloads.GetOr(DefaultMaxConcurrentDownloads);
      this.db := db;
      this.fs := fs;
      downloadingUrls := {};
      activeDownloads := 0;
      shutdownNotified := false;
      resourcesReleased := false;
      submitted := [];
    }

    /** `get_directory_path`: the site's directory under the videos directory. */
    function DirectoryPath(item: Item): (dir: Path)
      ensures var site := item.site.GetOr("default");
        site != [] && '/' !in site ==> InDir(dir, videosStore) && dir[|DirPrefix(videosStore)|..] == site
    {
      var site := item.site.GetOr("default");
      if site != [] && '/' !in site then NameJoinsIntoDir(videosStore, site); Join(videosStore, site)
      else Join(videosStore, site)
    }

    /** `_get_temp_file_path`: the stored temp path while that file exists, otherwise the fresh
        name in the temp directory. */
    method GetTempFilePath(url: string, title: string) returns (p: Path)
      ensures p == ResolveTempPath(StoredTemp(db.rows, db.hash(url)), fs.Paths(), tempStore, title, db.hash(url))
    {
      var existingTempPath := db.GetTempFilePath(url);
      if existingTempPath.Some? && existingTempPath.value != [] && fs.Exists(existingTempPath.value) {
        return existingTempPath.value;
      }
      var urlHash := db.GetUrlHash(url);
      var cleanedTitle := CleanFilename(title);
      var tempFilename := cleanedTitle + "_" + urlHash + TempSuffix;
      p := Join(tempStore, tempFilename);
    }

    /** `_get_final_file_path`: a free name for the video in the site's directory. */
    method GetFinalFilePath(item: Item, title: string) returns (p: Path)
      ensures p != [] && !fs.Exists(p)
      ensures FirstFreeVideoPath(fs.Paths(), DirectoryPath(item), Cleaned(title), p)
    {
      var dirPath := DirectoryPath(item);
      var finalFilename := GenerateUniqueFilename(fs.Paths(), dirPath, title, ".mp4");
      p := Join(dirPath, finalFilename);
    }

    /** `download_m3u8_with_resume`: runs `ffmpeg` (its exit and the file it leaves at the temp
        path are given), and reports success only for return code 0 and a non-empty output. */
    method DownloadM3u8WithResume(url: string, tempPath: Path, title: string, resume: bool,
                                  outcome: RunOutcome, output: Option<Entry>)
      returns (success: bool, cmd: seq<string>)
      modifies fs
      ensures cmd == FfmpegCommand(maxThreads, url, tempPath, resume)
      ensures fs.entries == AfterWrite(old(fs.entries), tempPath, output)
      ensures success <==> FetchSucceeded(outcome, fs.entries, tempPath)
    {
      cmd := FfmpegCommand(maxThreads, url, tempPath, resume);
      fs.Overwrite(tempPath, output);
      match outcome
      case Ran(code, seconds) =>
        if seconds > FfmpegTimeout {
          success := false;
        } else if code == 0 {
          success := fs.Exists(tempPath) && fs.entries[tempPath].size > 0;
        } else {
          success := false;
        }
      case Raised =>
        success := false;
    }

    /** `_download_video_async`: downloads into the temp file, then either moves it to a free
        final path and marks the row `completed`, or marks it `failed` and keeps the temp file,
        or, when moving raises, marks it `error`. */
    method DownloadVideoAsync(job: Job, outcome: RunOutcome, output: Option<Entry>, moveOk: bool, now: Timestamp)
      returns (result: JobResult, cmd: seq<string>)
      requires db.Valid()
      modifies db, fs
      ensures db.Valid() && db.nextId == old(db.nextId)
      ensures var h := db.hash(job.url);
        var tmp := ResolveTempPath(StoredTemp(old(db.rows), h), old(fs.Paths()), tempStore, TitleOf(job.item), h);
        && cmd == FfmpegCommand(maxThreads, job.url, tmp, HoldsData(old(fs.entries), tmp))
        && JobEffect(h, tmp, DirectoryPath(job.item), Cleaned(TitleOf(job.item)), old(db.rows), old(fs.entries),
                     outcome, output, moveOk, now, result, db.rows, fs.entries)
    {
      var title := TitleOf(job.item);
      var m3u8Url := job.url;
      var tempFilePath := GetTempFilePath(m3u8Url, title);
      var finalFilePath := GetFinalFilePath(job.item, title);
      var resumeDownload := fs.Exists(tempFilePath) && fs.entries[tempFilePath].size > 0;
      var success;
      success, cmd := DownloadM3u8WithResume(m3u8Url, tempFilePath, title, resumeDownload, outcome, output);
      if success {
        var fileSize := fs.entries[tempFilePath].size;
        if !moveOk {
          var _ := db.UpdateDownloadStatus(m3u8Url, Error, None, None, now);
          return Errored, cmd;
        }
        fs.Move(tempFilePath, finalFilePath);
        var _ := db.UpdateDownloadStatus(m3u8Url, Completed, Some(finalFilePath), Some(fileSize), now);
        return Succeeded(finalFilePath), cmd;
      } else {
        var _ := db.UpdateDownloadStatus(m3u8Url, Failed, None, None, now);
        return DownloadFailed, cmd;
      }
    }

    /** `_download_completed`: whatever the job's result, its URL leaves the set and the counter
        drops by one. */
    method DownloadCompleted(url: string)
      modifies this
      ensures downloadingUrls == old(downloadingUrls) - {url}
      ensures activeDownloads == old(activeDownloads) - 1
      ensures submitted == old(submitted) && shutdownNotified == old(shutdownNotified)
      ensures resourcesReleased == old(resourcesReleased)
    {
      downloadingUrls := downloadingUrls - {url};
      activeDownloads := activeDownloads - 1;
    }

    /** `process_item`: skips items without a URL, URLs the ledger shows as downloaded (after
        demoting a row whose file is gone) and URLs already in flight; otherwise admits the URL,
        writes a `downloading` row and submits a job. The item is always passed on unchanged. */
    method ProcessItem(item: Item, now: Timestamp) returns (out: Item, admission: Admission)
      requires Valid()
      modifies this, db, fs
      ensures Valid() && out == item
      ensures db.nextId == old(db.nextId) + (if admission == Admitted then 1 else 0)
      ensures shutdownNotified == old(shutdownNotified) && resourcesReleased == old(resourcesReleased)
      ensures admission == NoUrl <==> item.m3u8Url.None?
      ensures item.m3u8Url.Some? ==>
        var url := item.m3u8Url.value;
        var h := db.hash(url);
        && (admission == AlreadyCompleted <==> HasValidFile(old(db.rows), h, old(fs.Paths())))
        && (admission == AlreadyQueued <==>
              !HasValidFile(old(db.rows), h, old(fs.Paths())) && url in old(downloadingUrls))
        && (admission == Admitted ==>
              && url !in old(downloadingUrls)
              && downloadingUrls == old(downloadingUrls) + {url}
              && activeDownloads == old(activeDownloads) + 1
              && submitted == old(submitted) + [Job(item, url)]
              && fs.entries == EnsureDir(old(fs.entries), DirectoryPath(item), now)
              && db.rows == old(db.rows)[h := DownloadingRow(old(db.nextId), url, TitleOf(item), SiteOf(item),
                   ResolveTempPath(StoredTemp(old(db.rows), h), fs.Paths(), tempStore, TitleOf(item), h), now)])
        && (admission != Admitted ==> CompletionChecked(old(db.rows), db.rows, h, old(fs.Paths()), now))
      ensures admission != Admitted ==>
        && downloadingUrls == old(downloadingUrls) && activeDownloads == old(activeDownloads)
        && submitted == old(submitted) && fs.entries == old(fs.entries)
      ensures admission == NoUrl ==> db.rows == old(db.rows)
    {
      out := item;
      if item.m3u8Url.None? {
        return out, NoUrl;
      }
      var m3u8Url := item.m3u8Url.value;
      ghost var h := db.hash(m3u8Url);
      var completed, _ := db.IsDownloadCompleted(m3u8Url, fs.Paths(), now);
      if completed {
        return out, AlreadyCompleted;
      }
      if m3u8Url in downloadingUrls {
        return out, AlreadyQueued;
      }
      ghost var checked := db.rows;
      CheckedKeepsTemp(old(db.rows), checked, h, old(fs.Paths()), now);
      Admit(item, now);
      CheckedThenReplaced(old(db.rows), checked, h, old(fs.Paths()), now, db.rows[h]);
      admission := Admitted;
    }

    /** The admitting half of `process_item`, from marking the URL as in flight to submitting the
        job. */
    method Admit(item: Item, now: Timestamp)
      requires Valid() && item.m3u8Url.Some? && item.m3u8Url.value !in downloadingUrls
      modifies this, db, fs
      ensures Valid() && db.nextId == old(db.nextId) + 1
      ensures shutdownNotified == old(shutdownNotified) && resourcesReleased == old(resourcesReleased)
      ensures var url := item.m3u8Url.value;
        var h := db.hash(url);
        && downloadingUrls == old(downloadingUrls) + {url}
        && activeDownloads == old(activeDownloads) + 1
        && submitted == old(submitted) + [Job(item, url)]
        && fs.entries == EnsureDir(old(fs.entries), DirectoryPath(item), now)
        && db.rows == old(db.rows)[h := DownloadingRow(old(db.nextId), url, TitleOf(item), SiteOf(item),
             ResolveTempPath(StoredTemp(old(db.rows), h), fs.Paths(), tempStore, TitleOf(item), h), now)]
    {
      var m3u8Url := item.m3u8Url.value;
      var title := TitleOf(item);
      var site := SiteOf(item);
      MarkDownloading(m3u8Url);
      var dirPath := DirectoryPath(item);
      fs.MakeDirsIfMissing(dirPath, now);
      var tempFilePath := GetTempFilePath(m3u8Url, title);
      var _ := db.AddDownloadRecord(m3u8Url, title, site, tempFilePath, now);
      WithJobUrls(submitted, Job(item, m3u8Url));
      submitted := submitted + [Job(item, m3u8Url)];
    }

    /** The locked block of `process_item`: the URL joins the set and the counter goes up. */
    method MarkDownloading(url: string)
      modifies this
      ensures downloadingUrls == old(downloadingUrls) + {url}
      ensures activeDownloads == old(activeDownloads) + 1
      ensures submitted == old(submitted) && shutdownNotified == old(shutdownNotified)
      ensures resourcesReleased == old(resourcesReleased)
    {
      downloadingUrls := downloadingUrls + {url};
      activeDownloads := activeDownloads + 1;
    }

    /** One unfinished future completes: the `i`-th job runs, then its callback releases the URL.
        The counter keeps matching the set, and the URL can be admitted again. */
    method RunJob(i: nat, outcome: RunOutcome, output: Option<Entry>, moveOk: bool, now: Timestamp)
      returns (result: JobResult, cmd: seq<string>)
      requires Valid() && i < |submitted|
      modifies this, db, fs
      ensures Valid()
      ensures submitted == WithoutJob(old(submitted), i)
      ensures downloadingUrls == old(downloadingUrls) - {old(submitted)[i].url}
      ensures activeDownloads == old(activeDownloads) - 1
      ensures shutdownNotified == old(shutdownNotified) && resourcesReleased == old(resourcesReleased)
      ensures db.nextId == old(db.nextId)
      ensures var job := old(submitted)[i]; var h := db.hash(job.url);
        var tmp := ResolveTempPath(StoredTemp(old(db.rows), h), old(fs.Paths()), tempStore, TitleOf(job.item), h);
        && cmd == FfmpegCommand(maxThreads, job.url, tmp, HoldsData(old(fs.entries), tmp))
        && JobEffect(h, tmp, DirectoryPath(job.item), Cleaned(TitleOf(job.item)), old(db.rows), old(fs.entries),
                     outcome, output, moveOk, now, result, db.rows, fs.entries)
      ensures result.Succeeded? ==>
        (db.hash(old(submitted)[i].url) in old(db.rows) <==> HasValidFile(db.rows, db.hash(old(submitted)[i].url), fs.Paths()))
    {
      var job := submitted[i];
      WithoutJobUrls(submitted, i);
      assert job in submitted;
      submitted := WithoutJob(submitted, i);
      result, cmd := DownloadVideoAsync(job, outcome, output, moveOk, now);
      DownloadCompleted(job.url);
      ghost var h := db.hash(job.url);
      if result.Succeeded? {
        SucceededIsCompleted(h, ResolveTempPath(StoredTemp(old(db.rows), h), old(fs.Paths()), tempStore, TitleOf(job.item), h),
                             DirectoryPath(job.item), Cleaned(TitleOf(job.item)), old(db.rows), old(fs.entries), outcome, output, moveOk, now, result, db.rows, fs.entries);
      }
      assert forall j :: j in submitted ==> j in old(submitted);
    }

    /** `cleanup_temp_files`: removes the `.tmp.mp4` files in the temp directory last modified more
        than seven days ago, and counts them. */
    method CleanupTempFiles(now: int) returns (cleanedCount: nat)
      modifies fs
      ensures fs.entries == old(fs.entries) - ExpiredTempFiles(old(fs.entries), tempStore, now)
      ensures cleanedCount == |ExpiredTempFiles(old(fs.entries), tempStore, now)|
    {
      if !fs.Exists(tempStore) {
        return 0;
      }
      var tempFiles := TempNames(fs.Paths(), tempStore);
      TempNamesListed(fs.entries, tempStore);
      cleanedCount := RemoveExpired(tempFiles, now - TempMaxAge);
    }

    /** The loop of `cleanup_temp_files` over the listed names: removes each one's file when it
        is older than `weekAgo`, counting the removals. */
    method RemoveExpired(tempFiles: set<Path>, weekAgo: int) returns (cleanedCount: nat)
      requires ListedIn(fs.entries, tempStore, tempFiles)
      modifies fs
      ensures fs.entries == old(fs.entries) - ExpiredAmong(old(fs.entries), tempStore, tempFiles, weekAgo)
      ensures cleanedCount == |ExpiredAmong(old(fs.entries), tempStore, tempFiles, weekAgo)|
    {
      ghost var done: set<Path> := {};
      ghost var gone: set<Path> := {};
      cleanedCount := 0;
      var todo := tempFiles;
      while todo != {}
        invariant todo <= tempFiles && done == tempFiles - todo
        invariant gone == ExpiredAmong(old(fs.entries), tempStore, done, weekAgo)
        invariant fs.entries == old(fs.entries) - gone
        invariant cleanedCount == |gone|
        decreases todo
      {
        var tempFile :| tempFile in todo;
        var tempFilePath := Join(tempStore, tempFile);
        SweepStep(old(fs.entries), tempStore, tempFiles, done, tempFile, weekAgo);
        if fs.entries[tempFilePath].mtime < weekAgo {
          var removed := fs.Remove(tempFilePath);
          if removed {
            cleanedCount := cleanedCount + 1;
            RemoveOneMore(old(fs.entries), gone, tempFilePath);
            gone := gone + {tempFilePath};
          }
        }
        MoveToDone(tempFiles, done, todo, tempFile);
        done := done + {tempFile};
        todo := todo - {tempFile};
      }
      assert done == tempFiles;
    }

    /** `_cleanup_resources`: closes the ledger and shuts the pool down without waiting. */
    method CleanupResources()
      modifies this
      ensures resourcesReleased
      ensures downloadingUrls == old(downloadingUrls) && activeDownloads == old(activeDownloads)
      ensures submitted == old(submitted) && shutdownNotified == old(shutdownNotified)
    {
      resourcesReleased := true;
    }

    /** `close_spider`: marks the shutdown; with downloads still active it waits for them and then
        sweeps stale temp files, with none active it releases the resources straight away. */
    method CloseSpider(now: int)
      modifies this, fs
      ensures shutdownNotified && resourcesReleased
      ensures downloadingUrls == old(downloadingUrls) && activeDownloads == old(activeDownloads)
      ensures submitted == old(submitted)
      ensures fs.entries == if old(activeDownloads) == 0 then old(fs.entries)
        else old(fs.entries) - ExpiredTempFiles(old(fs.entries), tempStore, now)
    {
      shutdownNotified := true;
      if activeDownloads == 0 {
        CleanupResources();
        return;
      }
      var _ := CleanupTempFiles(now);
      CleanupResources();
    }
  }

  /** The completion check never touches the stored temp path. */
  lemma CheckedKeepsTemp(t: Table, t': Table, h: Hash, paths: set<Path>, now: Timestamp)
    requires CompletionChecked(t, t', h, paths, now)
    ensures StoredTemp(t', h) == StoredTemp(t, h)
  {
  }

  /** A row the completion check may have demoted is then replaced outright, so the demotion
      leaves no trace. */
  lemma CheckedThenReplaced(t: Table, t': Table, h: Hash, paths: set<Path>, now: Timestamp, r: Record)
    requires CompletionChecked(t, t', h, paths, now)
    ensures t'[h := r] == t[h := r]
  {
    if h in t && t[h].status == Completed && !HasValidFile(t, h, paths) {
      assert forall k :: k in t && k != h ==> t'[k] == t[k];
    }
  }

  /** Removing one more path from what is left. */
  lemma RemoveOneMore(entries: map<Path, Entry>, gone: set<Path>, p: Path)
    ensures (entries - gone) - {p} == entries - (gone + {p})
  {
  }

  /** One step of the sweep over the listed names: the next name's path is listed and not yet
      removed, and the removed set grows by it exactly when it is expired. */
  lemma SweepStep(entries: map<Path, Entry>, tempStore: Path, names: set<Path>, done: set<Path>,
                  n: Path, weekAgo: int)
    requires ListedIn(entries, tempStore, names) && done <= names
    requires n in names && n !in done
    ensures Join(tempStore, n) in entries
    ensures Join(tempStore, n) !in ExpiredAmong(entries, tempStore, done, weekAgo)
    ensures ExpiredAmong(entries, tempStore, done + {n}, weekAgo) ==
      ExpiredAmong(entries, tempStore, done, weekAgo) +
        (if Expired(entries, Join(tempStore, n), weekAgo) then {Join(tempStore, n)} else {})
  {
  }

  /** Every name in `names` is an entry of the directory `d`, joined on without a leading `/`. */
  ghost predicate ListedIn(entries: map<Path, Entry>, d: Path, names: set<Path>) {
    forall n :: n in names ==> Join(d, n) in entries && Join(d, n) == DirPrefix(d) + n
  }

  /** The names the sweep lists are entries of the temp directory. */
  lemma TempNamesListed(entries: map<Path, Entry>, tempStore: Path)
    ensures ListedIn(entries, tempStore, TempNames(entries.Keys, tempStore))
  {
    forall n | n in TempNames(entries.Keys, tempStore)
      ensures Join(tempStore, n) in entries && Join(tempStore, n) == DirPrefix(tempStore) + n
    {
      ListedNameJoinsBack(entries.Keys, tempStore, n);
    }
  }
}
