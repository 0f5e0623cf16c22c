/** The download ledger: the `downloads` table of `DownloadDatabase`, one row per URL hash. */
module Ledger {
  import opened Optional
  import opened OsModel
  import opened Sets

  /** The `url_hash` column: the MD5 hex digest of the URL. */
  type Hash = string

  /** `CURRENT_TIMESTAMP` and `time.time()`, in whole seconds. */
  type Timestamp = int

  datatype Status = Pending | Downloading | Completed | Failed | Error | MissingFile

  /** One row of `downloads`; the `url_hash` column is the key of the table. */
  datatype Record = Record(
    id: nat,
    url: string,
    title: string,
    site: string,
    filePath: Option<Path>,
    tempFilePath: Path,
    status: Status,
    downloadTime: Option<Timestamp>,
    fileSize: Option<nat>,
    createdAt: Timestamp,
    updatedAt: Timestamp)

  type Table = map<Hash, Record>

  /** The row `INSERT OR REPLACE` writes: the columns it names, `NULL` in all others. */
  function DownloadingRow(id: nat, url: string, title: string, site: string, tempPath: Path, now: Timestamp): Record {
    Record(id, url, title, site, None, tempPath, Downloading, None, None, now, now)
  }

  /** Python truthiness of the optional `file_path` argument. */
  predicate Given(p: Option<Path>) {
    p.Some? && p.value != []
  }

  /** `r'` is `r` after `UPDATE ... SET status = ?, updated_at = ...` with the optional assignments
      `update_download_status` adds: `file_path` only when given, `file_size` only when not None,
      `download_time` only for `completed`. Every other column keeps its value. */
  ghost predicate RowUpdated(r: Record, r': Record, status: Status, filePath: Option<Path>,
                             fileSize: Option<nat>, now: Timestamp)
  {
    && r'.status == status
    && r'.updatedAt == now
    && r'.filePath == (if Given(filePath) then filePath else r.filePath)
    && r'.fileSize == (if fileSize.Some? then fileSize else r.fileSize)
    && r'.downloadTime == (if status == Completed then Some(now) else r.downloadTime)
    && r'.id == r.id && r'.url == r.url && r'.title == r.title && r'.site == r.site
    && r'.tempFilePath == r.tempFilePath && r'.createdAt == r.createdAt
  }

  /** `t'` is `t` after the status update of the row keyed `h`; no other row changes and no row is
      added or removed. When there is no such row nothing changes at all. */
  ghost predicate StatusUpdated(t: Table, t': Table, h: Hash, status: Status, filePath: Option<Path>,
                                fileSize: Option<nat>, now: Timestamp)
  {
    && t'.Keys == t.Keys
    && (forall k :: k in t && k != h ==> t'[k] == t[k])
    && (h in t ==> RowUpdated(t[h], t'[h], status, filePath, fileSize, now))
  }

  /** The row keyed `h` is `completed` and its non-empty `file_path` exists. */
  predicate HasValidFile(t: Table, h: Hash, paths: set<Path>) {
    h in t && t[h].status == Completed && t[h].filePath.Some? && PathExists(paths, t[h].filePath.value)
  }

  /** The rows `cleanup_missing_files` selects and demotes: `completed`, with a non-NULL
      `file_path` that does not exist. */
  function MissingCompleted(t: Table, paths: set<Path>): set<Hash> {
    set h | h in t && t[h].status == Completed && t[h].filePath.Some? && !PathExists(paths, t[h].filePath.value)
  }

  /** Every row keyed in `ks` set to `missing_file` at `now`. */
  function Demote(t: Table, ks: set<Hash>, now: Timestamp): Table {
    map h | h in t :: if h in ks then t[h].(status := MissingFile, updatedAt := now) else t[h]
  }

  /** Demoting changes neither the keys nor any row's `url` or `id`. */
  lemma DemoteKeepsIdentity(t: Table, ks: set<Hash>, now: Timestamp)
    ensures var t' := Demote(t, ks, now);
      t'.Keys == t.Keys && forall h :: h in t ==> t'[h].url == t[h].url && t'[h].id == t[h].id
  {
  }

  /** Demoting one more row is an update of that row alone. */
  lemma DemoteOneMore(t: Table, ks: set<Hash>, h: Hash, now: Timestamp)
    requires h in t && h !in ks
    ensures h in Demote(t, ks, now) && Demote(t, ks, now)[h] == t[h]
    ensures Demote(t, ks + {h}, now) ==
      Demote(t, ks, now)[h := Demote(t, ks, now)[h].(status := MissingFile, updatedAt := now)]
  {
  }

  /** The rows `valid_files` counts: `completed` with a non-NULL `file_path`. */
  function CompletedWithPath(t: Table): set<Hash> {
    set h | h in t && t[h].status == Completed && t[h].filePath.Some?
  }

  /** `SELECT ... WHERE status = s`. */
  function KeysWith(t: Table, s: Status): set<Hash> {
    set h | h in t && t[h].status == s
  }

  function CountStatus(t: Table, s: Status): nat {
    |KeysWith(t, s)|
  }

  /** Rows listed by `ORDER BY created_at DESC`. */
  ghost predicate NewestFirst(s: seq<Record>) {
    forall i, j :: 0 <= i < j < |s| ==> s[i].createdAt >= s[j].createdAt
  }

  /** The rows of `t` keyed in `ks`. */
  ghost function RowSet(t: Table, ks: set<Hash>): set<Record> {
    set h | h in ks && h in t :: t[h]
  }

  /** `s` lists the rows of `t` keyed in `ks`, one entry per key and nothing else, newest first. */
  ghost predicate Lists(s: seq<Record>, t: Table, ks: set<Hash>) {
    && ks <= t.Keys
    && NewestFirst(s)
    && |s| == |ks|
    && multiset(s) == multiset(RowSet(t, ks))
  }

  /** `s` with `r` inserted where `ORDER BY created_at DESC` puts it. */
  function InsertNewestFirst(s: seq<Record>, r: Record): (s': seq<Record>)
    requires NewestFirst(s)
    ensures NewestFirst(s')
    ensures |s'| == |s| + 1
    ensures multiset(s') == multiset(s) + multiset{r}
    ensures s'[0] == if s == [] || s[0].createdAt <= r.createdAt then r else s[0]
  {
    if s == [] || s[0].createdAt <= r.createdAt then
      [r] + s
    else
      assert s == [s[0]] + s[1..];
      [s[0]] + InsertNewestFirst(s[1..], r)
  }

  /** The query engine's `ORDER BY created_at DESC` over the rows keyed in `ks`. */
  method SortNewestFirst(t: Table, ks: set<Hash>) returns (s: seq<Record>)
    requires ks <= t.Keys && DistinctIds(t)
    ensures Lists(s, t, ks)
  {
    s := [];
    var todo := ks;
    ghost var done: set<Hash> := {};
    while todo != {}
      invariant todo <= ks && done == ks - todo
      invariant Lists(s, t, done)
      decreases todo
    {
      var h :| h in todo;
      Inserted(s, t, done, h);
      MoveToDone(ks, done, todo, h);
      s := InsertNewestFirst(s, t[h]);
      done := done + {h};
      todo := todo - {h};
    }
    assert done == ks;
  }

  /** Inserting one more row keeps the list a newest-first listing of one more key. */
  lemma Inserted(s: seq<Record>, t: Table, done: set<Hash>, h: Hash)
    requires Lists(s, t, done) && DistinctIds(t) && h in t && h !in done
    ensures Lists(InsertNewestFirst(s, t[h]), t, done + {h})
  {
    var rows := RowSet(t, done);
    assert t[h] !in rows by {
      forall k | k in done && k in t
        ensures t[k] != t[h]
      {
        assert t[k].id != t[h].id;
      }
    }
    assert RowSet(t, done + {h}) == rows + {t[h]};
    assert multiset(rows + {t[h]}) == multiset(rows) + multiset{t[h]};
  }

  /** Where `OFFSET offset` starts in a list of `n` rows: a negative offset counts as zero, and an
      offset past the end leaves nothing. */
  function OffsetStart(offset: int, n: nat): (lo: nat)
    ensures lo <= n
  {
    if offset < 0 then 0 else if offset > n then n else offset
  }

  /** SQLite's `LIMIT limit OFFSET offset`, added only when `limit` is truthy: the rows from the
      offset on, as many as the limit allows; a negative limit means no upper bound. */
  function Window(s: seq<Record>, limit: Option<int>, offset: int): (w: seq<Record>)
    ensures limit.None? || limit.value == 0 ==> w == s
    ensures limit.Some? && limit.value != 0 ==>
      var lo := OffsetStart(offset, |s|);
      && lo + |w| <= |s|
      && (forall i :: 0 <= i < |w| ==> w[i] == s[lo + i])
      && (limit.value < 0 ==> lo + |w| == |s|)
      && (limit.value > 0 ==> |w| <= limit.value && (|w| == limit.value || lo + |w| == |s|))
    ensures NewestFirst(s) ==> NewestFirst(w)
  {
    if limit.None? || limit.value == 0 then s
    else
      var lo := OffsetStart(offset, |s|);
      var hi := if limit.value < 0 || lo + limit.value > |s| then |s| else lo + limit.value;
      s[lo..hi]
  }

  /** What `get_download_statistics` reports (the size total only feeds `total_size_mb`). */
  datatype Statistics = Statistics(total: nat, statusStats: map<Status, nat>, validFiles: nat)

  const AllStatuses: set<Status> := {Pending, Downloading, Completed, Failed, Error, MissingFile}

  /** The sum of the per-status counts of a `GROUP BY status` result. */
  function SumCounts(m: map<Status, nat>): nat {
    (if Pending in m then m[Pending] else 0)
    + (if Downloading in m then m[Downloading] else 0)
    + (if Completed in m then m[Completed] else 0)
    + (if Failed in m then m[Failed] else 0)
    + (if Error in m then m[Error] else 0)
    + (if MissingFile in m then m[MissingFile] else 0)
  }

  /** Every row has exactly one status, so the per-status counts add up to the row count. */
  lemma TotalIsSumOfStatusCounts(t: Table)
    ensures |t| == CountStatus(t, Pending) + CountStatus(t, Downloading) + CountStatus(t, Completed)
                   + CountStatus(t, Failed) + CountStatus(t, Error) + CountStatus(t, MissingFile)
  {
    var a, b, c := KeysWith(t, Pending), KeysWith(t, Downloading), KeysWith(t, Completed);
    var d, e, f := KeysWith(t, Failed), KeysWith(t, Error), KeysWith(t, MissingFile);
    KeysWithDisjoint(t, Pending, Downloading);
    DisjointUnionSize(a, b);
    KeysWithDisjoint(t, Pending, Completed);
    KeysWithDisjoint(t, Downloading, Completed);
    DisjointUnionSize(a + b, c);
    KeysWithDisjoint(t, Pending, Failed);
    KeysWithDisjoint(t, Downloading, Failed);
    KeysWithDisjoint(t, Completed, Failed);
    DisjointUnionSize(a + b + c, d);
    KeysWithDisjoint(t, Pending, Error);
    KeysWithDisjoint(t, Downloading, Error);
    KeysWithDisjoint(t, Completed, Error);
    KeysWithDisjoint(t, Failed, Error);
    DisjointUnionSize(a + b + c + d, e);
    KeysWithDisjoint(t, Pending, MissingFile);
    KeysWithDisjoint(t, Downloading, MissingFile);
    KeysWithDisjoint(t, Completed, MissingFile);
    KeysWithDisjoint(t, Failed, MissingFile);
    KeysWithDisjoint(t, Error, MissingFile);
    DisjointUnionSize(a + b + c + d + e, f);
    KeysWithCover(t);
  }

  lemma KeysWithDisjoint(t: Table, s1: Status, s2: Status)
    requires s1 != s2
    ensures KeysWith(t, s1) !! KeysWith(t, s2)
  {
  }

  lemma KeysWithCover(t: Table)
    ensures t.Keys == KeysWith(t, Pending) + KeysWith(t, Downloading) + KeysWith(t, Completed)
                      + KeysWith(t, Failed) + KeysWith(t, Error) + KeysWith(t, MissingFile)
  {
    forall h | h in t.Keys
      ensures h in KeysWith(t, t[h].status)
    {
    }
  }

  /** After `cleanup_missing_files` no `completed` row points at a missing file. */
  lemma {:induction false} CleanupLeavesNoMissing(t: Table, paths: set<Path>, now: Timestamp)
    ensures MissingCompleted(Demote(t, MissingCompleted(t, paths), now), paths) == {}
  {
    var t' := Demote(t, MissingCompleted(t, paths), now);
    forall h | h in t' && t'[h].status == Completed && t'[h].filePath.Some?
      ensures PathExists(paths, t'[h].filePath.value)
    {
      assert h !in MissingCompleted(t, paths);
    }
  }

  /** The sweep moves exactly `|MissingCompleted|` rows from `completed` to `missing_file`. */
  lemma CleanupShiftsCounts(t: Table, paths: set<Path>, now: Timestamp)
    ensures var m := MissingCompleted(t, paths); var t' := Demote(t, m, now);
      && CountStatus(t', Completed) == CountStatus(t, Completed) - |m|
      && CountStatus(t', MissingFile) == CountStatus(t, MissingFile) + |m|
  {
    var m := MissingCompleted(t, paths);
    DemotedKeys(t, m, now);
    var t' := Demote(t, m, now);
    var c, c' := KeysWith(t, Completed), KeysWith(t', Completed);
    assert c == c' + m;
    DisjointUnionSize(c', m);
    DisjointUnionSize(KeysWith(t, MissingFile), m);
  }

  /** Which rows are `completed` and which `missing_file` after demoting the `completed` rows `m`. */
  lemma DemotedKeys(t: Table, m: set<Hash>, now: Timestamp)
    requires m <= KeysWith(t, Completed)
    ensures var t' := Demote(t, m, now);
      && KeysWith(t', Completed) == KeysWith(t, Completed) - m
      && KeysWith(t', MissingFile) == KeysWith(t, MissingFile) + m
  {
  }

  /** A `completed` row whose `file_path` is NULL is never swept, although the self-healing read
      does not trust it either. */
  lemma SweepSparesPathlessRows(t: Table, h: Hash, paths: set<Path>)
    requires h in t && t[h].status == Completed && t[h].filePath.None?
    ensures h !in MissingCompleted(t, paths) && !HasValidFile(t, h, paths)
  {
  }

  /** No two rows share an `id`. */
  ghost predicate DistinctIds(t: Table) {
    forall h, k :: h in t && k in t && h != k ==> t[h].id != t[k].id
  }

  /** One row per hash, keyed by the hash of its own URL; ids are distinct and below `nextId`. */
  ghost predicate WellKeyed(t: Table, hash: string -> Hash, nextId: nat) {
    && (forall h :: h in t ==> hash(t[h].url) == h && t[h].id < nextId)
    && DistinctIds(t)
  }

  /** Rewriting a row without touching its `url` or `id` keeps the table well keyed. */
  lemma RowRewritten(t: Table, hash: string -> Hash, nextId: nat, h: Hash, r: Record)
    requires WellKeyed(t, hash, nextId) && h in t
    requires r.url == t[h].url && r.id == t[h].id
    ensures WellKeyed(t[h := r], hash, nextId)
  {
    var t' := t[h := r];
    forall k | k in t'
      ensures hash(t'[k].url) == k && t'[k].id < nextId
    {
      if k == h { assert t'[k].url == t[h].url && t'[k].id == t[h].id; } else { assert t'[k] == t[k]; }
    }
  }

  class DownloadDatabase {
    /** `hashlib.md5(url.encode('utf-8')).hexdigest()`, kept abstract. */
    const hash: string -> Hash
    var rows: Table
    /** The next `id` AUTOINCREMENT hands out; ids are never reused. */
    var nextId: nat

    /** The rows are well keyed and every id has already been issued. */
    ghost predicate Valid()
      reads this
    {
      WellKeyed(rows, hash, nextId)
    }

    /** Opens the ledger over a table persisted by an earlier run (`CREATE TABLE IF NOT EXISTS`). */
    constructor (hash: string -> Hash, persisted: Table, nextId: nat)
      requires WellKeyed(persisted, hash, nextId)
      ensures Valid()
      ensures this.hash == hash && rows == persisted && this.nextId == nextId
    {
      this.hash := hash;
      rows := persisted;
      this.nextId := nextId;
    }

    /** `get_url_hash`: the key under which the ledger keeps the URL's row, if it has one. */
    function GetUrlHash(url: string): (h: Hash)
      reads this
      ensures Valid() ==> forall k :: k in rows && rows[k].url == url ==> k == h
    {
      hash(url)
    }

    /** `is_download_completed`: trusts a `completed` row only when its file is there, and demotes it
        to `missing_file` otherwise. */
    method IsDownloadCompleted(url: string, paths: set<Path>, now: Timestamp) returns (completed: bool, path: Option<Path>)
      requires Valid()
      modifies this
      ensures Valid() && nextId == old(nextId)
      ensures completed == HasValidFile(old(rows), hash(url), paths)
      ensures completed ==> path == old(rows)[hash(url)].filePath && rows == old(rows)
      ensures !completed ==> path == None
      ensures !completed && hash(url) in old(rows) && old(rows)[hash(url)].status == Completed ==>
                StatusUpdated(old(rows), rows, hash(url), MissingFile, None, None, now)
      ensures !(hash(url) in old(rows) && old(rows)[hash(url)].status == Completed) ==> rows == old(rows)
    {
      var h := GetUrlHash(url);
      if h in rows && rows[h].status == Completed {
        var filePath := rows[h].filePath;
        if filePath.Some? && PathExists(paths, filePath.value) {
          return true, filePath;
        }
        var _ := UpdateDownloadStatus(url, MissingFile, None, None, now);
        return false, None;
      }
      return false, None;
    }

    /** `get_temp_file_path`. */
    method GetTempFilePath(url: string) returns (p: Option<Path>)
      ensures p.Some? <==> hash(url) in rows
      ensures p.Some? ==> p.value == rows[hash(url)].tempFilePath
    {
      var h := GetUrlHash(url);
      if h in rows {
        return Some(rows[h].tempFilePath);
      }
      return None;
    }

    /** `add_download_record`: INSERT OR REPLACE of the row for `hash(url)`; returns the new row id. */
    method AddDownloadRecord(url: string, title: string, site: string, tempPath: Path, now: Timestamp) returns (id: nat)
      requires Valid()
      modifies this
      ensures Valid()
      ensures id == old(nextId) && nextId == old(nextId) + 1
      ensures rows == old(rows)[hash(url) := DownloadingRow(id, url, title, site, tempPath, now)]
    {
      var h := GetUrlHash(url);
      id := nextId;
      rows := rows[h := DownloadingRow(id, url, title, site, tempPath, now)];
      nextId := nextId + 1;
    }

    /** `update_download_status`: reports whether a row for `hash(url)` was there to update. */
    method UpdateDownloadStatus(url: string, status: Status, filePath: Option<Path>, fileSize: Option<nat>,
                                now: Timestamp) returns (found: bool)
      requires Valid()
      modifies this
      ensures Valid() && nextId == old(nextId)
      ensures found <==> hash(url) in old(rows)
      ensures StatusUpdated(old(rows), rows, hash(url), status, filePath, fileSize, now)
      ensures !found ==> rows == old(rows)
    {
      var h := GetUrlHash(url);
      if h !in rows {
        return false;
      }
      var r := rows[h].(status := status, updatedAt := now);
      if Given(filePath) {
        r := r.(filePath := filePath);
      }
      if fileSize.Some? {
        r := r.(fileSize := fileSize);
      }
      if status == Completed {
        r := r.(downloadTime := Some(now));
      }
      RowRewritten(rows, hash, nextId, h, r);
      rows := rows[h := r];
      return true;
    }

    /** `get_download_statistics`: the row count, a `GROUP BY status` count for each status present,
        and the number of `completed` rows with a `file_path`. */
    function GetDownloadStatistics(): (st: Statistics)
      reads this
      ensures st.total == |rows|
      ensures forall s :: s in st.statusStats <==> CountStatus(rows, s) > 0
      ensures forall s :: s in st.statusStats ==> st.statusStats[s] == CountStatus(rows, s)
      ensures st.validFiles == |CompletedWithPath(rows)|
      ensures st.total == SumCounts(st.statusStats)
      ensures st.validFiles <= (if Completed in st.statusStats then st.statusStats[Completed] else 0)
    {
      TotalIsSumOfStatusCounts(rows);
      var present := set h | h in rows :: rows[h].status;
      var byStatus := map s | s in present :: CountStatus(rows, s);
      var valid := CompletedWithPath(rows);
      SubsetSize(valid, KeysWith(rows, Completed));
      forall s | s in present ensures CountStatus(rows, s) > 0 {
        var h :| h in rows && rows[h].status == s;
        assert h in KeysWith(rows, s);
      }
      forall s | s !in present ensures CountStatus(rows, s) == 0 {
        assert KeysWith(rows, s) == {};
      }
      Statistics(|rows|, byStatus, |valid|)
    }

    /** `get_all_downloads(limit, offset)`: the rows newest first, windowed when `limit` is truthy. */
    method GetAllDownloads(limit: Option<int>, offset: int) returns (result: seq<Record>)
      requires Valid()
      ensures exists all :: Lists(all, rows, rows.Keys) && result == Window(all, limit, offset)
    {
      var all := SortNewestFirst(rows, rows.Keys);
      result := Window(all, limit, offset);
    }

    /** `get_downloads_by_status(status)`: the rows with that status, newest first. */
    method GetDownloadsByStatus(status: Status) returns (result: seq<Record>)
      requires Valid()
      ensures Lists(result, rows, KeysWith(rows, status))
    {
      result := SortNewestFirst(rows, KeysWith(rows, status));
    }

    /** `cleanup_missing_files`: collects the `completed` rows whose file is gone, then demotes
        each one. */
    method CleanupMissingFiles(paths: set<Path>, now: Timestamp) returns (count: nat)
      requires Valid()
      modifies this
      ensures Valid() && nextId == old(nextId)
      ensures count == |MissingCompleted(old(rows), paths)|
      ensures rows == Demote(old(rows), MissingCompleted(old(rows), paths), now)
    {
      var missingFiles := CollectMissingFiles(paths);
      MarkMissingFiles(missingFiles, now);
      return |missingFiles|;
    }

    /** The first loop of `cleanup_missing_files`: the `completed` rows with a `file_path` whose
        file does not exist. */
    method CollectMissingFiles(paths: set<Path>) returns (missing: set<Hash>)
      ensures missing == MissingCompleted(rows, paths)
    {
      var selected := set h | h in rows && rows[h].status == Completed && rows[h].filePath.Some?;
      missing := {};
      var todo := selected;
      while todo != {}
        invariant todo <= selected && missing <= selected
        invariant forall k :: k in missing <==> k in selected && k !in todo && !PathExists(paths, rows[k].filePath.value)
        decreases todo
      {
        var h :| h in todo;
        if !PathExists(paths, rows[h].filePath.value) {
          missing := missing + {h};
        }
        todo := todo - {h};
      }
    }

    /** The second loop of `cleanup_missing_files`: `UPDATE ... SET status = 'missing_file'` for
        each collected row. */
    method MarkMissingFiles(missing: set<Hash>, now: Timestamp)
      requires Valid() && missing <= rows.Keys
      modifies this
      ensures Valid() && nextId == old(nextId)
      ensures rows == Demote(old(rows), missing, now)
    {
      var pending := missing;
      ghost var demoted: set<Hash> := {};
      while pending != {}
        invariant pending <= missing && demoted == missing - pending
        invariant rows == Demote(old(rows), demoted, now)
        invariant nextId == old(nextId)
        decreases pending
      {
        var h :| h in pending;
        DemoteOneMore(old(rows), demoted, h, now);
        rows := rows[h := rows[h].(status := MissingFile, updatedAt := now)];
        demoted := demoted + {h};
        pending := pending - {h};
      }
      assert demoted == missing;
      DemoteKeepsIdentity(old(rows), missing, now);
    }

    /** `reset_all_records`: `DELETE FROM downloads`; returns how many rows went. */
    method ResetAllRecords() returns (count: nat)
      requires Valid()
      modifies this
      ensures Valid() && nextId == old(nextId)
      ensures rows == map[] && count == |old(rows)|
    {
      count := |rows|;
      rows := map[];
    }
  }
}
