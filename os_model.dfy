/** The part of Python's `os`, `os.path` and `shutil` that the pipeline touches: POSIX path
    joining and splitting, and a file system seen as a map from paths to directory entries. */
module OsModel {
  import opened Optional
  import opened Text

  type Path = string

  datatype Kind = RegularFile | Directory

  /** What `os.stat` reports about an entry: its kind, `st_size` and `st_mtime` (whole seconds). */
  datatype Entry = Entry(kind: Kind, size: nat, mtime: int)

  /** `os.path.exists(p)` over the set of existing paths; the empty path never exists. */
  predicate PathExists(paths: set<Path>, p: Path) {
    p != [] && p in paths
  }

  /** The text `posixpath.join` puts in front of a relative second component. */
  function DirPrefix(d: Path): Path {
    if d == [] || d[|d| - 1] == '/' then d else d + "/"
  }

  /** `posixpath.join(a, b)` for two components. */
  function Join(a: Path, b: Path): (r: Path)
    ensures EndsWith(r, b)
  {
    if StartsWith(b, "/") then b else DirPrefix(a) + b
  }

  /** `posixpath.dirname(p)`: everything up to the last `/`, with trailing slashes removed unless
      that leaves nothing but slashes. */
  function Dirname(p: Path): (r: Path)
    ensures StartsWith(p, r)
  {
    var head := p[..|p| - |LastField(p, '/')|];
    if head != [] && TrailCount(head, {'/'}) < |head| then RStrip(head, {'/'}) else head
  }

  /** `p` names an entry directly inside directory `d` (what `os.listdir(d)` would list). */
  predicate InDir(p: Path, d: Path) {
    var pre := DirPrefix(d);
    |pre| < |p| && p[..|pre|] == pre && '/' !in p[|pre|..]
  }

  /** The names `os.listdir(d)` returns. */
  function Listdir(paths: set<Path>, d: Path): set<Path> {
    set p | p in paths && InDir(p, d) :: p[|DirPrefix(d)|..]
  }

  /** Joining a listed name back onto its directory gives the listed entry. */
  lemma ListedNameJoinsBack(paths: set<Path>, d: Path, name: Path)
    requires name in Listdir(paths, d)
    ensures Join(d, name) in paths && InDir(Join(d, name), d)
    ensures Join(d, name)[|DirPrefix(d)|..] == name
  {
    var p :| p in paths && InDir(p, d) && name == p[|DirPrefix(d)|..];
    assert name[0] != '/';
    assert p == DirPrefix(d) + name;
  }

  /** A plain name (no `/`) joined onto a directory lies directly inside it. */
  lemma NameJoinsIntoDir(d: Path, name: Path)
    requires name != [] && '/' !in name
    ensures InDir(Join(d, name), d) && Join(d, name)[|DirPrefix(d)|..] == name
  {
    assert name[0] != '/';
    assert Join(d, name) == DirPrefix(d) + name;
  }

  /** The directory tree the process sees. */
  class FileSystem {
    var entries: map<Path, Entry>

    constructor (entries: map<Path, Entry>)
      ensures this.entries == entries
    {
      this.entries := entries;
    }

    function Paths(): set<Path>
      reads this
    {
      entries.Keys
    }

    /** `os.path.exists(p)`. */
    predicate Exists(p: Path)
      reads this
    {
      PathExists(entries.Keys, p)
    }

    /** `os.makedirs(p)`; intermediate directories are not recorded. */
    method MakeDirs(p: Path, now: int)
      modifies this
      ensures entries == old(entries)[p := Entry(Directory, 0, now)]
    {
      entries := entries[p := Entry(Directory, 0, now)];
    }

    /** `os.makedirs(p)` guarded by `os.path.exists(p)`. */
    method MakeDirsIfMissing(p: Path, now: int)
      modifies this
      ensures entries == EnsureDir(old(entries), p, now)
    {
      if !Exists(p) {
        MakeDirs(p, now);
      }
    }

    /** The loop `for directory in dirs: if not os.path.exists(directory): os.makedirs(directory)`. */
    method MakeEachDirIfMissing(dirs: seq<Path>, now: int)
      modifies this
      ensures entries == EnsureDirs(old(entries), dirs, now)
    {
      for n := 0 to |dirs|
        invariant entries == EnsureDirs(old(entries), dirs[..n], now)
      {
        assert dirs[..n + 1][..n] == dirs[..n];
        MakeDirsIfMissing(dirs[n], now);
      }
      assert dirs[..|dirs|] == dirs;
    }

    /** `shutil.move(src, dst)` within one file system: a rename that keeps size and mtime. */
    method Move(src: Path, dst: Path)
      requires src in entries
      modifies this
      ensures entries == (old(entries) - {src})[dst := old(entries)[src]]
    {
      entries := (entries - {src})[dst := entries[src]];
    }

    /** `os.remove(p)`: removes a regular file; on a directory or a missing path it raises, which
        is reported here as `removed == false` with nothing changed. */
    method Remove(p: Path) returns (removed: bool)
      modifies this
      ensures removed <==> p in old(entries) && old(entries)[p].kind == RegularFile
      ensures entries == if removed then old(entries) - {p} else old(entries)
    {
      removed := p in entries && entries[p].kind == RegularFile;
      if removed {
        entries := entries - {p};
      }
    }

    /** What an external program leaves at `p`: the entry it wrote, or nothing. */
    method Overwrite(p: Path, output: Option<Entry>)
      modifies this
      ensures entries == AfterWrite(old(entries), p, output)
    {
      entries := AfterWrite(entries, p, output);
    }
  }

  /** The entries after `os.makedirs(p)` guarded by `os.path.exists(p)`: a new directory entry
      when `p` did not exist, nothing changed otherwise. */
  function EnsureDir(entries: map<Path, Entry>, p: Path, now: int): (e: map<Path, Entry>)
    ensures e.Keys == entries.Keys + {p}
    ensures forall q :: q in entries && q != p ==> e[q] == entries[q]
    ensures PathExists(entries.Keys, p) ==> e[p] == entries[p]
    ensures !PathExists(entries.Keys, p) ==> e[p].kind == Directory
  {
    if PathExists(entries.Keys, p) then entries else entries[p := Entry(Directory, 0, now)]
  }

  /** `EnsureDir` for each of `dirs`, in order. */
  function EnsureDirs(entries: map<Path, Entry>, dirs: seq<Path>, now: int): map<Path, Entry> {
    if dirs == [] then entries
    else EnsureDir(EnsureDirs(entries, dirs[..|dirs| - 1], now), dirs[|dirs| - 1], now)
  }

  /** The entries after an external program has left `output` at `p`. */
  function AfterWrite(entries: map<Path, Entry>, p: Path, output: Option<Entry>): (e: map<Path, Entry>)
    ensures p in e <==> output.Some?
    ensures forall q :: q != p ==> (q in e <==> q in entries)
    ensures forall q :: q != p && q in e ==> e[q] == entries[q]
  {
    match output
    case Some(entry) => entries[p := entry]
    case None => entries - {p}
  }
}
