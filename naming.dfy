/** How the pipelines name files: `clean_filename`, `generate_unique_filename` and the temp-file
    name of `M3U8Pipeline`, and `file_path` / `item_completed` of `ImgPipeline`. */
module Naming {
  import opened Optional
  import opened Text
  import opened OsModel

  /** The characters `clean_filename` replaces by `_`, in the order it replaces them. */
  const IllegalChars: seq<char> := ['<', '>', ':', '"', '/', '\\', '|', '?', '*']

  /** The characters `clean_filename` strips from both ends (`strip(' .')`). */
  const StripChars: set<char> := {' ', '.'}

  /** `s` with every character of `cs` replaced by `_`. */
  function ReplacedBy(s: string, cs: seq<char>): string {
    seq(|s|, i requires 0 <= i < |s| => if s[i] in cs then '_' else s[i])
  }

  /** What `clean_filename` returns: illegal characters replaced, then spaces and dots stripped. */
  function Cleaned(s: string): string {
    Strip(ReplacedBy(s, IllegalChars), StripChars)
  }

  /** A name `clean_filename` would leave alone: no illegal character, and no space or dot at
      either end. */
  predicate SafeName(s: string) {
    && (forall i :: 0 <= i < |s| ==> s[i] !in IllegalChars)
    && (s != [] ==> s[0] !in StripChars && s[|s| - 1] !in StripChars)
  }

  /** `clean_filename(filename)`: one `replace` per illegal character, then `strip(' .')`. */
  method CleanFilename(filename: string) returns (cleaned: string)
    ensures cleaned == Cleaned(filename)
    ensures SafeName(cleaned)
  {
    cleaned := filename;
    for n := 0 to |IllegalChars|
      invariant cleaned == ReplacedBy(filename, IllegalChars[..n])
    {
      assert IllegalChars[..n + 1] == IllegalChars[..n] + [IllegalChars[n]];
      cleaned := ReplaceChar(cleaned, IllegalChars[n], '_');
    }
    assert IllegalChars[..|IllegalChars|] == IllegalChars;
    cleaned := Strip(cleaned, StripChars);
    CleanedIsSafe(filename);
  }

  /** Whatever the input, the cleaned name is safe, and it is the sanitised input with only
      spaces and dots cut from its two ends. */
  lemma CleanedIsSafe(s: string)
    ensures SafeName(Cleaned(s))
    ensures |Cleaned(s)| <= |s|
  {
    var r := ReplacedBy(s, IllegalChars);
    var lo, hi := StripIsInnerSlice(r, StripChars);
    var c := Cleaned(s);
    forall i | 0 <= i < |c|
      ensures c[i] !in IllegalChars
    {
      assert c[i] == r[lo + i];
    }
  }

  /** Cleaning a cleaned name changes nothing. */
  lemma CleanedIdempotent(s: string)
    ensures Cleaned(Cleaned(s)) == Cleaned(s)
  {
    var c := Cleaned(s);
    CleanedIsSafe(s);
    assert ReplacedBy(c, IllegalChars) == c;
    StripFixpoint(c, StripChars);
  }

  /** The `k`-th name `generate_unique_filename` tries: the base name for `k == 0`, then
      `stem_k` followed by the extension. */
  function Candidate(stem: string, k: nat, ext: string): string {
    if k == 0 then stem + ext else stem + "_" + NatToString(k) + ext
  }

  /** A string made of a stem without `/`, a separator and a tail never starts with `/`. */
  lemma NoLeadingSlash(stem: string, rest: string)
    requires '/' !in stem && rest != [] && rest[0] != '/'
    ensures !StartsWith(stem + rest, "/")
  {
    if stem == [] { assert (stem + rest)[0] == rest[0]; } else { assert (stem + rest)[0] == stem[0]; }
  }

  /** Numbered candidates are pairwise different once joined onto the same directory. */
  lemma CandidatesDistinct(dir: Path, stem: string, ext: string, a: nat, b: nat)
    requires '/' !in stem
    requires 1 <= a && 1 <= b && a != b
    ensures Join(dir, Candidate(stem, a, ext)) != Join(dir, Candidate(stem, b, ext))
  {
    var sa, sb := NatToString(a), NatToString(b);
    var ca, cb := Candidate(stem, a, ext), Candidate(stem, b, ext);
    assert ca == stem + ("_" + sa + ext);
    assert cb == stem + ("_" + sb + ext);
    NoLeadingSlash(stem, "_" + sa + ext);
    NoLeadingSlash(stem, "_" + sb + ext);
    if ca == cb {
      assert |sa| == |sb|;
      var n := |stem| + 1;
      assert ca[n..n + |sa|] == sa;
      assert cb[n..n + |sb|] == sb;
      NatToStringInjective(a, b);
      assert false;
    }
  }

  /** The loop of `generate_unique_filename` over the numbered names `stem_1`, `stem_2`, ...:
      the first one whose path is free. */
  method FirstFreeNumbered(paths: set<Path>, dirPath: Path, stem: string, ext: string) returns (name: string, ghost k: nat)
    requires '/' !in stem
    ensures k >= 1 && name == Candidate(stem, k, ext)
    ensures !PathExists(paths, Join(dirPath, name))
    ensures forall j :: 1 <= j < k ==> PathExists(paths, Join(dirPath, Candidate(stem, j, ext)))
  {
    var counter: nat := 1;
    while true
      invariant counter >= 1
      invariant EarlierCandidates(dirPath, stem, ext, counter) <= paths
      decreases paths - EarlierCandidates(dirPath, stem, ext, counter)
    {
      var newFilename := Candidate(stem, counter, ext);
      var p := Join(dirPath, newFilename);
      if !PathExists(paths, p) {
        EarlierCandidatesTaken(paths, dirPath, stem, ext, counter);
        return newFilename, counter;
      }
      CandidateTaken(paths, dirPath, stem, ext, counter);
      counter := counter + 1;
    }
  }

  /** The paths of the numbered candidates `1 .. k - 1`: those the loop has found taken before
      it tries the `k`-th. */
  ghost function EarlierCandidates(dirPath: Path, stem: string, ext: string, k: nat): set<Path> {
    if k <= 1 then {} else EarlierCandidates(dirPath, stem, ext, k - 1) + {Join(dirPath, Candidate(stem, k - 1, ext))}
  }

  /** When every path before the `k`-th candidate is taken, so is each numbered candidate
      `1 <= j < k`. */
  lemma EarlierCandidatesTaken(paths: set<Path>, dirPath: Path, stem: string, ext: string, k: nat)
    requires EarlierCandidates(dirPath, stem, ext, k) <= paths
    ensures forall j :: 1 <= j < k ==> PathExists(paths, Join(dirPath, Candidate(stem, j, ext)))
  {
    forall j | 1 <= j < k
      ensures PathExists(paths, Join(dirPath, Candidate(stem, j, ext)))
    {
      CandidateIsEarlier(dirPath, stem, ext, j, k);
      assert |Candidate(stem, j, ext)| > 0;
    }
  }

  /** The `j`-th candidate is among those before the `k`-th, for every `1 <= j < k`. */
  lemma {:induction false} CandidateIsEarlier(dirPath: Path, stem: string, ext: string, j: nat, k: nat)
    requires 1 <= j < k
    ensures Join(dirPath, Candidate(stem, j, ext)) in EarlierCandidates(dirPath, stem, ext, k)
  {
    if j < k - 1 {
      CandidateIsEarlier(dirPath, stem, ext, j, k - 1);
    }
  }

  /** One step of the loop: the `counter`-th candidate is taken, so every candidate before the
      next one is taken, and one more path of `paths` has been ruled out. */
  lemma CandidateTaken(paths: set<Path>, dirPath: Path, stem: string, ext: string, counter: nat)
    requires '/' !in stem && counter >= 1
    requires EarlierCandidates(dirPath, stem, ext, counter) <= paths
    requires Join(dirPath, Candidate(stem, counter, ext)) in paths
    ensures EarlierCandidates(dirPath, stem, ext, counter + 1) <= paths
    ensures paths - EarlierCandidates(dirPath, stem, ext, counter + 1) < paths - EarlierCandidates(dirPath, stem, ext, counter)
  {
    var p := Join(dirPath, Candidate(stem, counter, ext));
    NewCandidateUntried(dirPath, stem, ext, counter, counter);
    assert EarlierCandidates(dirPath, stem, ext, counter + 1) == EarlierCandidates(dirPath, stem, ext, counter) + {p};
    assert p in paths - EarlierCandidates(dirPath, stem, ext, counter);
  }

  /** The `counter`-th candidate is none of the earlier ones, so each step of the loop rules out
      one more path of `paths`. */
  lemma {:induction false} NewCandidateUntried(dirPath: Path, stem: string, ext: string, c: nat, counter: nat)
    requires '/' !in stem && c <= counter
    ensures Join(dirPath, Candidate(stem, counter, ext)) !in EarlierCandidates(dirPath, stem, ext, c)
  {
    if c > 1 {
      NewCandidateUntried(dirPath, stem, ext, c - 1, counter);
      CandidatesDistinct(dirPath, stem, ext, c - 1, counter);
    }
  }

  /** `generate_unique_filename(dir_path, title, file_ext)` against the existing `paths`: the
      base name if it is free, otherwise the first free numbered name. */
  method GenerateUniqueFilename(paths: set<Path>, dirPath: Path, title: string, fileExt: string)
    returns (name: string)
    ensures !PathExists(paths, Join(dirPath, name))
    ensures !PathExists(paths, Join(dirPath, Candidate(Cleaned(title), 0, fileExt))) ==>
      name == Candidate(Cleaned(title), 0, fileExt)
    ensures exists k: nat :: (name == Candidate(Cleaned(title), k, fileExt) &&
      forall j :: 0 <= j < k ==> PathExists(paths, Join(dirPath, Candidate(Cleaned(title), j, fileExt))))
  {
    var cleanedTitle := CleanFilename(title);
    assert '/' !in cleanedTitle by {
      assert '/' in IllegalChars;
    }
    var baseFilename := cleanedTitle + fileExt;
    assert baseFilename == Candidate(cleanedTitle, 0, fileExt);
    if !PathExists(paths, Join(dirPath, baseFilename)) {
      return baseFilename;
    }
    ghost var k;
    name, k := FirstFreeNumbered(paths, dirPath, cleanedTitle, fileExt);
  }

  /** The suffix every temp file carries, and the one `cleanup_temp_files` looks for. */
  const TempSuffix: string := ".tmp.mp4"

  /** The name `_get_temp_file_path` makes up: cleaned title, `_`, URL hash, `.tmp.mp4`. */
  function TempFileName(title: string, urlHash: string): string {
    Cleaned(title) + "_" + urlHash + TempSuffix
  }

  /** `_get_temp_file_path`: the temp path the ledger remembers when that file still exists,
      otherwise a fresh name inside the temp directory. */
  function ResolveTempPath(stored: Option<Path>, paths: set<Path>, tempStore: Path, title: string, urlHash: string): (p: Path)
    ensures stored.Some? && PathExists(paths, stored.value) ==> p == stored.value
    ensures !(stored.Some? && PathExists(paths, stored.value)) ==>
      InDir(p, tempStore) || '/' in urlHash
    ensures !(stored.Some? && PathExists(paths, stored.value)) ==> EndsWith(p, TempSuffix)
    ensures p != []
  {
    if stored.Some? && PathExists(paths, stored.value) then stored.value
    else
      TempNameInTempDir(tempStore, title, urlHash);
      Join(tempStore, TempFileName(title, urlHash))
  }

  /** Resolving again with the path the ledger now stores gives the same path, as long as that
      path is the fresh name or still exists: the download resumes into the same file. */
  lemma ResolveTempPathStable(stored: Option<Path>, paths: set<Path>, paths': set<Path>, tempStore: Path,
                              title: string, urlHash: string)
    ensures var p := ResolveTempPath(stored, paths, tempStore, title, urlHash);
      p == Join(tempStore, TempFileName(title, urlHash)) || PathExists(paths', p) ==>
        ResolveTempPath(Some(p), paths', tempStore, title, urlHash) == p
  {
  }

  /** A fresh temp name lies directly inside the temp directory (an MD5 hex digest has no `/`)
      and ends in `.tmp.mp4`, so the age-based sweep looks at it. */
  lemma TempNameInTempDir(tempStore: Path, title: string, urlHash: string)
    ensures EndsWith(Join(tempStore, TempFileName(title, urlHash)), TempSuffix)
    ensures '/' !in urlHash ==> InDir(Join(tempStore, TempFileName(title, urlHash)), tempStore)
    ensures '/' !in urlHash ==> Join(tempStore, TempFileName(title, urlHash))[|DirPrefix(tempStore)|..] == TempFileName(title, urlHash)
  {
    var c := Cleaned(title);
    CleanedIsSafe(title);
    assert '/' !in c by {
      assert '/' in IllegalChars;
    }
    StemNameInDir(tempStore, c, urlHash);
  }

  /** The same for any stem without `/`. */
  lemma StemNameInDir(tempStore: Path, stem: string, urlHash: string)
    requires '/' !in stem
    ensures EndsWith(Join(tempStore, stem + "_" + urlHash + TempSuffix), TempSuffix)
    ensures '/' !in urlHash ==> InDir(Join(tempStore, stem + "_" + urlHash + TempSuffix), tempStore)
    ensures '/' !in urlHash ==> Join(tempStore, stem + "_" + urlHash + TempSuffix)[|DirPrefix(tempStore)|..] == stem + "_" + urlHash + TempSuffix
  {
    var name := stem + "_" + urlHash + TempSuffix;
    StemNameShape(stem, urlHash);
    EndsWithJoin(tempStore, name, TempSuffix);
    if '/' !in urlHash {
      NameJoinsIntoDir(tempStore, name);
    }
  }

  /** A temp name made from a stem without `/` ends in `.tmp.mp4`, and has no `/` at all when the
      hash has none. */
  lemma StemNameShape(stem: string, urlHash: string)
    requires '/' !in stem
    ensures EndsWith(stem + "_" + urlHash + TempSuffix, TempSuffix)
    ensures '/' !in urlHash ==> stem + "_" + urlHash + TempSuffix != [] && '/' !in stem + "_" + urlHash + TempSuffix
  {
    var tail := "_" + urlHash + TempSuffix;
    assert stem + "_" + urlHash + TempSuffix == stem + tail;
  }

  /** Joining onto a directory keeps whatever the name ends with. */
  lemma EndsWithJoin(d: Path, name: Path, suffix: string)
    requires EndsWith(name, suffix)
    ensures EndsWith(Join(d, name), suffix)
  {
    if !StartsWith(name, "/") {
      var j := DirPrefix(d) + name;
      assert j[|j| - |suffix|..] == name[|name| - |suffix|..];
    }
  }

  /** Two different URLs whose hashes differ never share a fresh temp name. */
  lemma TempNamesDistinct(title: string, h1: string, h2: string)
    requires h1 != h2
    ensures TempFileName(title, h1) != TempFileName(title, h2)
  {
    if |h1| == |h2| {
      var n := |Cleaned(title)| + 1;
      assert TempFileName(title, h1)[n..n + |h1|] == h1;
      assert TempFileName(title, h2)[n..n + |h2|] == h2;
    }
  }

  /** `ImgPipeline.file_path`: `title/title-(index+1).ext`, where `ext` follows the URL's last dot. */
  function ImagePath(url: string, title: string, index: nat): string {
    NumberedName(title + "/" + title + "-", index + 1, LastField(url, '.'))
  }

  /** `pre`, the decimal form of `n`, a dot and the extension `ext`. */
  function NumberedName(pre: string, n: nat, ext: string): string {
    pre + NatToString(n) + "." + ext
  }

  /** An image's path lies under a directory named after the item's title, its file name starts
      with the title and a dash, and it ends with the image's one-based number, a dot and the
      text after the URL's last dot. */
  lemma ImagePathShape(url: string, title: string, index: nat)
    ensures StartsWith(ImagePath(url, title, index), title + "/" + title + "-")
    ensures EndsWith(ImagePath(url, title, index), NatToString(index + 1) + "." + LastField(url, '.'))
    ensures '.' !in LastField(url, '.')
  {
    NumberedNameShape(title + "/" + title + "-", index + 1, LastField(url, '.'));
  }

  /** A numbered name starts with its prefix and ends with its number, a dot and its extension. */
  lemma NumberedNameShape(pre: string, n: nat, ext: string)
    ensures StartsWith(NumberedName(pre, n, ext), pre)
    ensures EndsWith(NumberedName(pre, n, ext), NatToString(n) + "." + ext)
  {
    var d := NatToString(n);
    assert pre + d + "." + ext == pre + (d + "." + ext);
  }

  /** The images of one item never share a file: different indexes give different paths,
      whatever the URLs. */
  lemma ImagePathsDistinct(url1: string, url2: string, title: string, i: nat, j: nat)
    requires i != j
    ensures ImagePath(url1, title, i) != ImagePath(url2, title, j)
  {
    NumberedNamesDistinct(title + "/" + title + "-", LastField(url1, '.'), LastField(url2, '.'), i + 1, j + 1);
  }

  /** Different numbers after a common prefix, each followed by a dot and any extension, give
      different texts. */
  lemma NumberedNamesDistinct(pre: string, e1: string, e2: string, a: nat, b: nat)
    requires a != b
    ensures NumberedName(pre, a, e1) != NumberedName(pre, b, e2)
  {
    var d1, d2 := NatToString(a), NatToString(b);
    if d1 == d2 {
      NatToStringInjective(a, b);
      assert false;
    }
    NumberedFilesDistinct(pre, d1, e1, d2, e2);
  }

  /** Different digit strings, each followed by a dot and a dot-free extension, after a common
      prefix, give different texts. */
  lemma NumberedFilesDistinct(pre: string, d1: string, e1: string, d2: string, e2: string)
    requires forall k :: 0 <= k < |d1| ==> '0' <= d1[k] <= '9'
    requires forall k :: 0 <= k < |d2| ==> '0' <= d2[k] <= '9'
    requires d1 != d2
    ensures pre + d1 + "." + e1 != pre + d2 + "." + e2
  {
    var r1, r2 := d1 + "." + e1, d2 + "." + e2;
    assert pre + d1 + "." + e1 == pre + r1;
    assert pre + d2 + "." + e2 == pre + r2;
    if pre + r1 == pre + r2 {
      assert r1 == (pre + r1)[|pre|..];
      assert r2 == (pre + r2)[|pre|..];
      DigitsBeforeDot(d1, e1, d2, e2);
      assert false;
    }
  }

  /** Digits followed by a dot: the digits are fixed by the text. */
  lemma DigitsBeforeDot(d1: string, e1: string, d2: string, e2: string)
    requires forall k :: 0 <= k < |d1| ==> '0' <= d1[k] <= '9'
    requires forall k :: 0 <= k < |d2| ==> '0' <= d2[k] <= '9'
    requires d1 + "." + e1 == d2 + "." + e2
    ensures d1 == d2
  {
    var s := d1 + "." + e1;
    FirstDot(d1, e1);
    FirstDot(d2, e2);
    assert |d1| == |d2|;
    assert s[..|d1|] == d1;
  }

  /** In digits, a dot and more text, the first dot comes right after the digits. */
  lemma FirstDot(d: string, e: string)
    requires forall k :: 0 <= k < |d| ==> '0' <= d[k] <= '9'
    ensures (d + "." + e)[|d|] == '.'
    ensures forall k :: 0 <= k < |d| ==> (d + "." + e)[k] != '.'
  {
    forall k | 0 <= k < |d|
      ensures (d + "." + e)[k] != '.'
    {
      assert (d + "." + e)[k] == d[k];
    }
  }

  /** One entry of the `results` list `item_completed` receives: `(True, {'path': ...})` or a
      failure. */
  datatype ImageResult = ImageOk(path: string) | ImageFailed

  /** `[x['path'] for ok, x in results if ok]`. */
  function OkPaths(results: seq<ImageResult>): (ps: seq<string>)
    ensures |ps| <= |results|
    ensures forall p :: p in ps <==> ImageOk(p) in results
  {
    if results == [] then []
    else
      var rest := OkPaths(results[1..]);
      assert forall r :: r in results <==> r == results[0] || r in results[1..];
      match results[0]
      case ImageOk(p) => [p] + rest
      case ImageFailed => rest
  }

  /** The paths keep the order of the results they come from. */
  lemma {:induction false} OkPathsAppend(a: seq<ImageResult>, b: seq<ImageResult>)
    ensures OkPaths(a + b) == OkPaths(a) + OkPaths(b)
  {
    if a != [] {
      assert (a + b)[0] == a[0];
      assert (a + b)[1..] == a[1..] + b;
      OkPathsAppend(a[1..], b);
    } else {
      assert a + b == b;
    }
  }

  /** What `item_completed` does with the item: stores the paths, or raises `DropItem`. */
  datatype ItemOutcome = Kept(imagePaths: seq<string>) | Dropped

  /** `ImgPipeline.item_completed`. */
  function ItemCompleted(results: seq<ImageResult>): (r: ItemOutcome)
    ensures r.Dropped? <==> forall x :: x in results ==> x.ImageFailed?
    ensures r.Kept? ==> r.imagePaths != [] && forall p :: p in r.imagePaths <==> ImageOk(p) in results
    ensures r.Kept? ==> r.imagePaths == OkPaths(results)
  {
    var paths := OkPaths(results);
    assert forall x :: x in results && x.ImageOk? ==> ImageOk(x.path) in results;
    if paths == [] then Dropped
    else
      assert ImageOk(paths[0]) in results;
      Kept(paths)
  }
}
