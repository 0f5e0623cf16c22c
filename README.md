# Video download ledger and M3U8 pipeline, modelled in Dafny

The repository is a Scrapy project that scrapes video pages and downloads their HLS (`.m3u8`) streams
with `ffmpeg`. This model covers two parts of it.

- **The download ledger** (`DownloadDatabase`, `fuliji/fuliji/database.py`). It is a SQLite table
  `downloads` with one row per URL, keyed by the MD5 hex digest of the URL. It records each
  download's status (`pending`, `downloading`, `completed`, `failed`, `error`, `missing_file`),
  temp path, final path and size. `fuliji/fuliji/utils/database.py` is a line-for-line copy and is
  covered by the same model.
- **The M3U8 pipeline** (`M3U8Pipeline`, `fuliji/fuliji/pipelines.py`). `process_item` admits an item
  only when the ledger does not show its URL as downloaded and the URL is not already in flight.
  It then writes a `downloading` row and submits a job. A job runs `ffmpeg` into a resumable temp
  file, moves the finished file to a free name in the site's directory, and records the outcome in
  the ledger. Its callback releases the URL. `close_spider` waits for active jobs, sweeps temp files
  older than seven days and releases the resources. The naming helpers are also modelled:
  `clean_filename`, `generate_unique_filename`, the temp name, and `ImgPipeline`'s `file_path` and
  `item_completed`.

Files and modules:

| file | module | contents |
|---|---|---|
| `optional.dfy` | `Optional` | Python's `None`-or-value |
| `sets.dfy` | `Sets` | three facts about finite sets used by the loops |
| `text.dfy` | `Text` | the `str` operations used: `endswith`, `startswith`, `strip`, `str(n)`, `split(sep)[-1]` |
| `os_model.dfy` | `OsModel` | `posixpath.join` and `dirname`; `os.listdir`; the filesystem as a `FileSystem` object over a map from path to entry |
| `database.dfy` | `Ledger` | the `downloads` table as a map from hash to row; the `DownloadDatabase` class |
| `naming.dfy` | `Naming` | file and temp names; `ImgPipeline.file_path` and `item_completed` |
| `pipeline.dfy` | `Pipeline` | the `M3U8Pipeline` class: admission, jobs, release, `ffmpeg` command, temp sweep, shutdown |

The model makes these choices:

- The ledger and the pipeline are classes whose methods update their fields, as in the source.
  - The thread pool is the field `submitted`, the sequence of jobs not yet finished.
  - `RunJob(i)` is one job finishing, followed by its done-callback. Jobs may finish in any order.
- MD5 is an abstract function `hash` fixed when the ledger is opened. `get_url_hash` is that
  function (`Ledger.DownloadDatabase.GetUrlHash`).
- `CURRENT_TIMESTAMP` and `time.time()` become a `now` parameter.
- The `ffmpeg` process is given as an oracle:
  - its outcome (`RunOutcome`: return code, timeout, or another exception);
  - the file it leaves at the temp path.
- Whether `shutil.move` raises is given as the flag `moveOk`.
- The filesystem is a map from path to entry (kind, size, mtime). A path "exists" when it is
  non-empty and a key of the map, as `os.path.exists("")` is false.

Some behaviours of the code that the model keeps as written:

- `close_spider` sweeps temp files only when downloads were still active. With none active, it
  releases the resources and returns before the sweep (`fuliji/fuliji/pipelines.py:457-461`).
- `update_download_status` (`fuliji/fuliji/database.py:153-196`) accepts `completed` without a
  path. The pipeline always passes one (`fuliji/fuliji/pipelines.py:259`), and a successful job's
  path is non-empty, so its row reads as downloaded (`Pipeline.SucceededIsCompleted`).
- The self-healing read (`is_download_completed`) demotes a `completed` row whose `file_path` is
  NULL or empty. `cleanup_missing_files` selects only rows with `file_path IS NOT NULL`, so it never
  demotes a row whose path is NULL (`Ledger.SweepSparesPathlessRows`). A row whose path is the empty
  string is selected, and, since `os.path.exists('')` is false, demoted.

## Model

| member | source | states |
|---|---|---|
| Ledger.DownloadDatabase.constructor | fuliji/fuliji/database.py:18-62 | opening the ledger over a persisted, well-keyed table keeps it as it is and establishes `Valid` (one row per hash, keyed by the hash of its own URL, distinct ids below the AUTOINCREMENT counter) |
| Ledger.RowRewritten | fuliji/fuliji/database.py:178-184 | an `UPDATE` that keeps a row's `url` and `id` keeps the table well keyed |
| Ledger.DownloadDatabase.IsDownloadCompleted | fuliji/fuliji/database.py:84-111 | reports completed exactly when the row is `completed` with a non-empty `file_path` that exists, and then returns that path and changes nothing; a `completed` row whose file is missing (or whose path is NULL or empty) is demoted to `missing_file` with every other column and every other row kept; any other row is left alone |
| Ledger.DownloadDatabase.GetTempFilePath | fuliji/fuliji/database.py:113-130 | returns a path exactly when the hash has a row, and then that row's `temp_file_path` |
| Ledger.DownloadDatabase.AddDownloadRecord | fuliji/fuliji/database.py:132-151 | INSERT OR REPLACE: the row for the hash becomes a fresh `downloading` row (NULL final path, size and download time) with the next id, all other rows unchanged, ledger still valid |
| Ledger.DownloadDatabase.UpdateDownloadStatus | fuliji/fuliji/database.py:153-196 | returns true exactly when the hash has a row; that row gets the new status and `updated_at`, the file path only when one is given (non-empty), the size only when given, `download_time` only for `completed`; every other column and row, and the key set, are unchanged |
| Ledger.DownloadDatabase.GetUrlHash | fuliji/fuliji/database.py:79-82 | the hash is the key under which the ledger keeps the URL's row: every row for that URL is keyed by it |
| Ledger.DownloadDatabase.GetDownloadStatistics | fuliji/fuliji/database.py:198-241 | `total` is the number of rows; `status_stats` has an entry exactly for each status some row has, holding the number of rows with it; `valid_files` is the number of `completed` rows with a non-NULL `file_path`; hence the total is the sum of the status counts and `valid_files` is at most the `completed` count |
| Ledger.TotalIsSumOfStatusCounts | fuliji/fuliji/database.py:205-214 | the six per-status counts add up to the number of rows |
| Ledger.InsertNewestFirst | fuliji/fuliji/database.py:249-252 | inserting a row into a newest-first list keeps it newest first, and the result is a permutation of the old list plus that row |
| Ledger.Inserted | fuliji/fuliji/database.py:249-252 | in a table with distinct ids, inserting the row of one more key keeps the list a newest-first listing, as a multiset exactly the rows of the keys so far |
| Ledger.SortNewestFirst | fuliji/fuliji/database.py:249-252 | `ORDER BY created_at DESC`: the result is newest first and, as a multiset, exactly the selected rows, one entry per key |
| Ledger.Window | fuliji/fuliji/database.py:254-255 | `LIMIT`/`OFFSET` only when the limit is truthy: no limit or zero keeps the whole list; otherwise the result is the consecutive rows from the offset (a negative offset counting as zero), up to the limit or the end of the list, and to the end for a negative limit; the order is kept |
| Ledger.DownloadDatabase.GetAllDownloads | fuliji/fuliji/database.py:243-262 | the result is that window of a newest-first listing of all rows, each row once |
| Ledger.DownloadDatabase.GetDownloadsByStatus | fuliji/fuliji/database.py:264-279 | the result lists exactly the rows with that status, each once, newest first |
| Ledger.DownloadDatabase.CollectMissingFiles | fuliji/fuliji/database.py:287-296 | collects exactly the `completed` rows with a non-NULL `file_path` that does not exist |
| Ledger.DownloadDatabase.MarkMissingFiles | fuliji/fuliji/database.py:298-309 | the collected rows, and only those, become `missing_file` at `now`; the ledger stays valid |
| Ledger.DownloadDatabase.CleanupMissingFiles | fuliji/fuliji/database.py:281-315 | demotes exactly the missing-file rows and returns how many there were |
| Ledger.DemoteOneMore | fuliji/fuliji/database.py:300-305 | demoting one more row is an update of that row alone |
| Ledger.DemoteKeepsIdentity | fuliji/fuliji/database.py:301-305 | demoting changes no key, `url` or `id` |
| Ledger.CleanupLeavesNoMissing | fuliji/fuliji/database.py:281-315 | after the sweep no `completed` row points at a missing file |
| Ledger.DemotedKeys | fuliji/fuliji/database.py:300-305 | demoting `completed` rows moves exactly them from the `completed` keys to the `missing_file` keys |
| Ledger.CleanupShiftsCounts | fuliji/fuliji/database.py:281-315 | the sweep lowers the `completed` count and raises the `missing_file` count by the number it returns |
| Ledger.SweepSparesPathlessRows | fuliji/fuliji/database.py:97-105 | a `completed` row with a NULL `file_path` is never swept, though the self-healing read does not trust it |
| Ledger.DownloadDatabase.ResetAllRecords | fuliji/fuliji/database.py:317-331 | `DELETE FROM downloads`: the table becomes empty and the count is the number of rows there were |
| Text.StripIsInnerSlice | fuliji/fuliji/pipelines.py:384 | `strip(chars)` leaves a slice that neither starts nor ends with a stripped character, with only stripped characters cut away on both sides |
| Text.StripFixpoint | fuliji/fuliji/pipelines.py:384 | a string that neither starts nor ends with a stripped character is its own strip |
| Text.StripIdempotent | fuliji/fuliji/pipelines.py:384 | stripping twice is stripping once |
| Text.NatToString | fuliji/fuliji/pipelines.py:366 | `str(n)` is non-empty, all decimal digits, and one digit exactly for `n < 10` |
| Text.NatToStringInjective | fuliji/fuliji/pipelines.py:366 | different counters print differently |
| Text.LastField | fuliji/fuliji/pipelines.py:48 | `split(sep)[-1]` is a suffix without `sep`, preceded by `sep` whenever it is shorter than the whole string |
| OsModel.Join | fuliji/fuliji/pipelines.py:146 | `os.path.join(a, b)` ends with `b` |
| OsModel.Dirname | fuliji/fuliji/pipelines.py:77 | `os.path.dirname(p)` is a prefix of `p` |
| OsModel.NameJoinsIntoDir | fuliji/fuliji/pipelines.py:146 | a name without `/` joined onto a directory lies directly in it, and the directory listing gives back that name |
| OsModel.ListedNameJoinsBack | fuliji/fuliji/pipelines.py:403-411 | a name `os.listdir` returns, joined back onto the directory, is that entry |
| OsModel.EnsureDir | fuliji/fuliji/pipelines.py:192-193 | `if not exists: makedirs`: adds the directory when missing, keeps an existing entry, changes nothing else |
| OsModel.FileSystem.MakeDirs | fuliji/fuliji/pipelines.py:193 | `os.makedirs(p)`: `p` becomes a directory entry stamped `now`; every other entry stays |
| OsModel.FileSystem.MakeDirsIfMissing | fuliji/fuliji/pipelines.py:192-193 | the filesystem after the guarded `makedirs` is `EnsureDir` of the old one |
| OsModel.FileSystem.MakeEachDirIfMissing | fuliji/fuliji/pipelines.py:88-91 | the loop over directories applies the guarded `makedirs` to each one in order |
| OsModel.FileSystem.Move | fuliji/fuliji/pipelines.py:255 | `shutil.move`: the entry leaves the source path and appears at the destination |
| OsModel.FileSystem.Remove | fuliji/fuliji/pipelines.py:415 | `os.remove` removes a regular file and reports whether it did, leaving directories alone |
| OsModel.AfterWrite | fuliji/fuliji/pipelines.py:328 | the temp path holds exactly what `ffmpeg` left there: its file, or no entry at all when it left none; every other path is unchanged |
| OsModel.FileSystem.Overwrite | fuliji/fuliji/pipelines.py:328 | the filesystem after the `ffmpeg` run is `AfterWrite` of the old one |
| Naming.CleanFilename | fuliji/fuliji/pipelines.py:372-386 | the loop of replacements and the strip compute `Cleaned`, whose result has no illegal character and no leading or trailing space or dot |
| Naming.CleanedIsSafe | fuliji/fuliji/pipelines.py:377-384 | a cleaned name contains none of `<>:"/\|?*` and neither starts nor ends with a space or dot |
| Naming.CleanedIdempotent | fuliji/fuliji/pipelines.py:372-386 | cleaning a cleaned name changes nothing |
| Naming.CandidatesDistinct | fuliji/fuliji/pipelines.py:366-367 | different counters give different candidate paths in the same directory |
| Naming.FirstFreeNumbered | fuliji/fuliji/pipelines.py:364-370 | the counter loop returns the first numbered name whose path is free: all earlier numbered names are taken |
| Naming.NewCandidateUntried | fuliji/fuliji/pipelines.py:364-370 | each counter value tries a path not tried before, so the loop ends |
| Naming.GenerateUniqueFilename | fuliji/fuliji/pipelines.py:351-370 | the name returned is free; it is the base name whenever that is free; otherwise it is the first numbered name that is free |
| Naming.ResolveTempPath | fuliji/fuliji/pipelines.py:137-148 | the stored temp path when it exists; otherwise a fresh `<cleaned title>_<hash>.tmp.mp4` directly inside the temp directory (when the hash has no `/`); never empty; a fresh name always ends in `.tmp.mp4`, while a stored path that exists is returned unchanged, whatever it ends with |
| Naming.TempNameInTempDir | fuliji/fuliji/pipelines.py:146-148 | a fresh temp path lies directly in the temp directory and ends in `.tmp.mp4`, so the age-based sweep looks at it |
| Naming.TempNamesDistinct | fuliji/fuliji/pipelines.py:145-146 | two URLs whose hashes differ never share a fresh temp name |
| Naming.ResolveTempPathStable | fuliji/fuliji/pipelines.py:137-148 | once the chosen temp file exists, asking again gives the same path, which is what makes resuming work |
| Naming.ImagePathShape | fuliji/fuliji/pipelines.py:43-51 | `file_path`, modelled by the function `ImagePath`, gives `title/title-…`: it starts with the title, a slash, the title and a dash, and ends with the one-based index, a dot and the dot-free text after the URL's last dot |
| Naming.ImagePathsDistinct | fuliji/fuliji/pipelines.py:43-51 | two images of one item with different indexes never share a file path, whatever their URLs |
| Naming.NumberedNamesDistinct | fuliji/fuliji/pipelines.py:49-51 | different numbers after a common prefix, each followed by a dot and an extension, give different names |
| Naming.OkPaths | fuliji/fuliji/pipelines.py:33 | the paths of the successful results, no more of them than results, each from a successful result |
| Naming.OkPathsAppend | fuliji/fuliji/pipelines.py:33 | collecting paths distributes over concatenated result lists |
| Naming.ItemCompleted | fuliji/fuliji/pipelines.py:32-41 | the item is dropped exactly when no image succeeded; otherwise it keeps the non-empty list of successful paths, in the order of the results (`OkPaths`) |
| Pipeline.WithoutJobUrls | fuliji/fuliji/pipelines.py:288-290 | when one job finishes, exactly its URL leaves the in-flight set and the remaining URLs stay distinct |
| Pipeline.WithoutJobDistinct | fuliji/fuliji/pipelines.py:288-290 | the pool without one job still has distinct URLs |
| Pipeline.WithJobUrls | fuliji/fuliji/pipelines.py:184-201 | submitting a job for a URL not in flight adds exactly that URL and keeps the URLs distinct |
| Pipeline.FfmpegCommand | fuliji/fuliji/pipelines.py:304-320 | the `ffmpeg` command starts with `ffmpeg`, reads the URL as input (`-i url`), ends with the temp path, and has the overwrite flag `-y` (and 19 arguments, not 18) exactly when not resuming |
| Pipeline.SucceededIsCompleted | fuliji/fuliji/pipelines.py:249-260 | after a successful job the ledger shows the URL as downloaded (a `completed` row whose non-empty path exists), exactly when the URL still had its row |
| Pipeline.ExpiredTempFilesExactly | fuliji/fuliji/pipelines.py:400-416 | the sweep removes a path exactly when it is a regular `.tmp.mp4` file directly in the temp directory, modified more than seven days before `now` |
| Pipeline.SweepLeavesNothingExpired | fuliji/fuliji/pipelines.py:395-425 | after a sweep nothing expired is left, so a second sweep at the same time removes nothing |
| Pipeline.TempNamesListed | fuliji/fuliji/pipelines.py:403-411 | each listed temp name, joined to the temp directory, is an entry of it |
| Pipeline.SweepStep | fuliji/fuliji/pipelines.py:410-416 | handling one more listed name adds its path to the removed set exactly when it is expired |
| Pipeline.CheckedKeepsTemp | fuliji/fuliji/pipelines.py:173-197 | the completion check never changes the stored temp path, so `process_item` picks the same temp file as before the check |
| Pipeline.CheckedThenReplaced | fuliji/fuliji/pipelines.py:173-198 | a row the completion check demoted is then replaced outright by the new `downloading` row |
| Pipeline.M3U8Pipeline.constructor | fuliji/fuliji/pipelines.py:72-121 | settings defaults (`videos`, 20 threads, 5 workers); the temp directory and `downloads.db` sit next to the videos directory; both directories are created when missing; nothing in flight |
| Pipeline.M3U8Pipeline.DirectoryPath | fuliji/fuliji/pipelines.py:388-393 | the site's directory (default `default`) lies directly in the videos directory when the site is non-empty and has no `/` (an empty site joins to the videos directory itself with a trailing `/`) |
| Pipeline.M3U8Pipeline.GetTempFilePath | fuliji/fuliji/pipelines.py:137-148 | the path is `ResolveTempPath` of the ledger's stored temp path and the current files |
| Pipeline.M3U8Pipeline.GetFinalFilePath | fuliji/fuliji/pipelines.py:150-154 | `FirstFreeVideoPath`: the final path is the first `<cleaned title>[_k].mp4` in the site directory that does not exist. It is non-empty and free, and every lower-numbered candidate is taken |
| Pipeline.M3U8Pipeline.DownloadM3u8WithResume | fuliji/fuliji/pipelines.py:298-349 | builds the `ffmpeg` command; reports success exactly for a run within the 3600 s timeout with return code 0 and a non-empty output file; a timeout or another exception is a failure |
| Pipeline.M3U8Pipeline.DownloadVideoAsync | fuliji/fuliji/pipelines.py:227-272 | `ffmpeg` is run in resume mode (no `-y`) exactly when the temp path already held a non-empty file. `JobEffect` gives the outcome. It succeeds exactly when the fetch succeeded and the move did not raise. It reports `failed` exactly when the fetch failed, and `error` exactly when the fetch succeeded but the move raised. On success the file moves from the temp path to the first free `<cleaned title>[_k].mp4` in the site directory, and the row becomes `completed` with that path and size. On `failed` the temp file is kept and the row becomes `failed`. On `error` the row becomes `error`. The id counter is unchanged |
| Pipeline.M3U8Pipeline.DownloadCompleted | fuliji/fuliji/pipelines.py:274-296 | whatever the outcome, the URL leaves the in-flight set and the counter drops by one |
| Pipeline.M3U8Pipeline.ProcessItem | fuliji/fuliji/pipelines.py:156-208 | the item is returned unchanged. No URL: nothing happens. The id counter goes up by one exactly when the item is admitted. Downloaded, exactly when the ledger shows a completed row whose file exists: skipped. Otherwise already in flight: skipped after the self-healing check. Otherwise admitted: URL added, counter up, directory ensured, `downloading` row written with the resolved temp path, job submitted. The pipeline invariant (counter equals in-flight set equals URLs of unfinished jobs, each once) holds after every call |
| Pipeline.M3U8Pipeline.Admit | fuliji/fuliji/pipelines.py:178-204 | the admitting half of `process_item`, with its complete effect on the set, counter, directory, ledger row and pool |
| Pipeline.M3U8Pipeline.MarkDownloading | fuliji/fuliji/pipelines.py:183-186 | the URL joins the in-flight set and the counter goes up by one |
| Pipeline.M3U8Pipeline.RunJob | fuliji/fuliji/pipelines.py:201-204 | any unfinished job can finish next. Its `ffmpeg` command resumes exactly when the temp file already held data, and its effect on the ledger and the files is `JobEffect`: `completed` at the first free final path, `failed`, or `error`, with the split between them as in `DownloadVideoAsync`; after a success its URL reads as downloaded exactly when it still had its row; it leaves the pool, its URL leaves the set, the counter drops, and the pipeline invariant still holds, so the URL can be admitted again |
| Pipeline.M3U8Pipeline.CleanupTempFiles | fuliji/fuliji/pipelines.py:395-425 | removes exactly the expired temp files (none when the temp directory is missing) and counts them |
| Pipeline.M3U8Pipeline.RemoveExpired | fuliji/fuliji/pipelines.py:409-419 | the loop over listed names removes exactly the expired ones and counts the removals |
| Pipeline.M3U8Pipeline.CleanupResources | fuliji/fuliji/pipelines.py:479-495 | the ledger is closed and the pool shut down; nothing else changes |
| Pipeline.M3U8Pipeline.CloseSpider | fuliji/fuliji/pipelines.py:442-477 | marks the shutdown and releases the resources; sweeps expired temp files only when downloads were active; the in-flight state is not touched |

## Left out

- Path normalisation. Paths are compared as plain strings, so `videos` and `videos/` are different
  entries. The source's `os.path.exists` treats them as one. For an item whose site is `""`,
  `DirectoryPath` is `videos/`, and the model adds that as a second directory entry where the
  source creates nothing.
- Threads, the `RLock` and the condition variable. Each job runs start to finish as one atomic step
  (`RunJob`), and the locked blocks are single method calls. Interleavings inside a job are not
  modelled.
- `_monitor_downloads`: a logging loop with `time.sleep`; it changes no state.
- `close_spider`'s bounded wait (`wait(timeout=7200)`). `CloseSpider` goes on to the sweep at once.
  `RunJob` can still be called after it, which stands for jobs that outlive the wait, although the
  closed ledger under such a job is not modelled. One run cannot be expressed: jobs active when
  `close_spider` starts that all finish within the wait, followed by the sweep. Running those jobs
  first brings `activeDownloads` to 0, and `CloseSpider` then skips the sweep.
- `get_download_status` only logs statistics and counts temp files; `_is_download_completed` and
  `_get_url_hash` only forward to the ledger.
- Storage faults. The model has no `except` paths for SQLite or filesystem errors (the "not found /
  not completed" fallbacks), apart from the move in `_download_video_async`.
- SQLite itself: `get_connection`, the indexes, `close()` (which does nothing), and the creation of
  the ledger's directory in `init_database`. The ledger constructor takes the persisted table as a
  parameter.
- MD5 is abstract (`hash`): hex digests have no `/` and a fixed width, and the lemmas that need this
  take it as a hypothesis.
- `ffmpeg`, `subprocess.run` and the network are not executed. How long the run takes, its return
  code and its output file are parameters; a run longer than 3600 s counts as `TimeoutExpired`.
- `m3u8_url` is taken to be a string. A spider that stores a list there makes `get_url_hash` raise
  in `process_item` before any state changes; that error path is not modelled.
- `temp_file_path` is a nullable column, but the model stores a path in every row,
  since the only writer, `add_download_record`, is always given one.
- Ledger.DownloadDatabase.GetDownloadStatistics: `total_size_mb` (a float sum of sizes) is not
  reported, and `file_size`/`download_time` are whole numbers instead of SQLite `REAL`.
- Ledger.DownloadDatabase.AddDownloadRecord: `lastrowid` is modelled as an id counter that never
  reuses ids; SQLite's exact AUTOINCREMENT bookkeeping is not.
- OsModel.FileSystem.MakeDirs: intermediate directories created by `os.makedirs` are not added; only
  the named directory is.
- Pipeline.M3U8Pipeline.constructor: the settings' value types are not checked. `FFMPEG_MAX_THREADS`
  is taken to be a natural number.
- Pipeline.M3U8Pipeline.CleanupTempFiles: the source logs the count instead of returning it.
  Removal errors other than "is a directory" are not modelled.
- `ImgPipeline.get_media_requests` and `ImgPipeline.get_directory_path` issue Scrapy requests and check
  for an existing directory. Scrapy's media download machinery is not part of this model.
- Logging and the spiders, settings, items and web monitor.
