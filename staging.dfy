/**
 * The staging primitives of `bcache::file`: unique ids, the scoped temporary
 * entry (`tmp_file_t`) and the scoped working directory (`scoped_work_dir_t`),
 * over a model of the process's file system and working directory.
 */
module Staging {
  import opened FileUtils
  import Decimal

  /** What can stand at a path. */
  datatype Node = File(data: string) | Dir

  /** Minimum number of characters of a unique id. */
  const UNIQUE_ID_WIDTH: nat := 16

  /** The id issued for the `serial`-th request: the serial in decimal, zero-padded. */
  function UniqueId(serial: nat): (id: string)
    ensures |id| >= UNIQUE_ID_WIDTH
    ensures SEP !in id && '.' !in id
  {
    var id := Decimal.PaddedNatToString(serial, UNIQUE_ID_WIDTH);
    assert forall i :: 0 <= i < |id| ==> Decimal.IsDigit(id[i]);
    id
  }

  /** Different serials give different ids. */
  lemma UniqueIdInjective(m: nat, n: nat)
    requires m != n
    ensures UniqueId(m) != UniqueId(n)
  {
    Decimal.PaddedNatToStringInjective(m, n, UNIQUE_ID_WIDTH);
  }

  /** The path a temporary entry gets: the id and the extension, appended to the base path. */
  function TmpPath(basePath: string, ext: string, serial: nat): string
  {
    AppendPath(basePath, UniqueId(serial) + ext)
  }

  /** The base path leads the temporary path, the extension ends it, and at least six characters lie between. */
  lemma TmpPathShape(basePath: string, ext: string, serial: nat)
    ensures var p := TmpPath(basePath, ext, serial);
      && |p| > |basePath| + |ext| + 6
      && p[..|basePath|] == basePath
      && p[|p| - |ext|..] == ext
  {
    var p := TmpPath(basePath, ext, serial);
    var id := UniqueId(serial);
    if basePath != [] {
      assert p == basePath + [SEP] + id + ext;
    }
  }

  /** `sub` occurs in `s` starting at index `i` (what `std::string::find` looks for). */
  predicate OccursAt(s: string, sub: string, i: nat)
  {
    i + |sub| <= |s| && s[i..i + |sub|] == sub
  }

  /**
   * With a base path free of '.', and an extension that starts with '.', no occurrence
   * of the extension starts before the end: its first occurrence is the final one.
   */
  lemma TmpPathExtensionOnlyAtEnd(basePath: string, ext: string, serial: nat)
    requires '.' !in basePath && |ext| > 0 && ext[0] == '.'
    ensures var p := TmpPath(basePath, ext, serial);
      OccursAt(p, ext, |p| - |ext|) && forall i: nat :: i < |p| - |ext| ==> !OccursAt(p, ext, i)
  {
    var p := TmpPath(basePath, ext, serial);
    var id := UniqueId(serial);
    var head := if basePath == [] then id else basePath + [SEP] + id;
    assert p == head + ext;
    assert '.' !in head;
    assert p[|head|..] == ext;
    forall i: nat | i < |p| - |ext|
      ensures !OccursAt(p, ext, i)
    {
      assert p[i] == head[i];
      assert p[i..i + |ext|][0] == p[i];
    }
  }

  /** The full-path case of the tests: base "hello/world" and extension ".myext". */
  lemma TmpPathFullPathCase(serial: nat)
    ensures var base, ext := AppendPath("hello", "world"), ".myext";
      var p := TmpPath(base, ext, serial);
      && OccursAt(p, base, 0)
      && OccursAt(p, ext, |p| - |ext|) && (forall i: nat :: i < |p| - |ext| ==> !OccursAt(p, ext, i))
      && |p| > |base| + |ext| + 6
  {
    var base := AppendPath("hello", "world");
    assert '.' !in base by {
      assert base == "hello/world";
    }
    TmpPathShape(base, ".myext", serial);
    TmpPathExtensionOnlyAtEnd(base, ".myext", serial);
  }

  /** Temporary paths issued for different serials differ. */
  lemma TmpPathInjective(basePath: string, ext: string, m: nat, n: nat)
    requires m != n
    ensures TmpPath(basePath, ext, m) != TmpPath(basePath, ext, n)
  {
    UniqueIdInjective(m, n);
    var x, y := UniqueId(m) + ext, UniqueId(n) + ext;
    assert x != y by {
      assert x[..|x| - |ext|] == UniqueId(m);
      assert y[..|y| - |ext|] == UniqueId(n);
    }
    if basePath != [] {
      assert (basePath + [SEP] + x)[|basePath| + 1..] == x;
      assert (basePath + [SEP] + y)[|basePath| + 1..] == y;
    }
  }

  /** A temporary path lies directly inside its base directory. */
  lemma TmpPathParent(basePath: string, ext: string, serial: nat)
    requires SEP !in ext
    ensures GetDirPart(TmpPath(basePath, ext, serial)) == basePath
  {
    var x := UniqueId(serial) + ext;
    assert SEP !in x by {
      assert forall i :: 0 <= i < |x| ==> x[i] == if i < |UniqueId(serial)| then UniqueId(serial)[i] else ext[i - |UniqueId(serial)|];
    }
    SplitAppendPath(basePath, x);
  }

  /** `q` is `root` itself or lies somewhere below it. */
  predicate InTree(root: string, q: string)
  {
    q == root || (|q| > |root| && q[..|root|] == root && q[|root|] == SEP)
  }

  /** Whatever lies below a path's directory lies below anything that directory lies in. */
  lemma InTreeOfParent(root: string, q: string)
    requires GetDirPart(q) != [] && InTree(root, GetDirPart(q))
    ensures InTree(root, q)
  {
    DirAndFileRebuildPath(q);
    var d := GetDirPart(q);
    assert q[..|d|] == d;
    if d != root {
      assert q[..|root|] == d[..|root|];
      assert q[|root|] == d[|root|];
    }
  }

  /** The directory that would hold `p` is a directory of `entries` (a path without a dir part needs none). */
  predicate HasParentIn(entries: map<string, Node>, p: string)
  {
    GetDirPart(p) == [] || (GetDirPart(p) in entries && entries[GetDirPart(p)].Dir?)
  }

  /** Every entry sits in an existing directory. */
  ghost predicate IsTree(entries: map<string, Node>)
  {
    forall p :: p in entries ==> HasParentIn(entries, p)
  }

  /** In a tree, nothing lies below a path that does not exist. */
  lemma {:induction false} AbsentHasNoDescendants(entries: map<string, Node>, root: string, q: string)
    requires IsTree(entries) && root != [] && root !in entries && InTree(root, q)
    ensures q !in entries
    decreases |q|
  {
    if q in entries {
      assert q != root;
      assert q[|root|] == SEP;
      var i := LastIndexOf(q, SEP);
      assert i >= |root|;
      var d := GetDirPart(q);
      assert d == q[..i];
      assert d != [];
      assert InTree(root, d) by {
        if i > |root| {
          assert d[..|root|] == q[..|root|];
          assert d[|root|] == q[|root|];
        }
      }
      AbsentHasNoDescendants(entries, root, d);
    }
  }

  /** The process's view of the file system, its working directory and its id counter. */
  class FileSystem {
    var entries: map<string, Node>
    var cwd: string
    var idCounter: nat

    constructor (initial: map<string, Node>, workDir: string)
      ensures entries == initial && cwd == workDir && idCounter == 0
    {
      entries, cwd, idCounter := initial, workDir, 0;
    }

    predicate FileExists(path: string)
      reads this
      ensures FileExists(path) ==> path in entries && !DirExists(path)
    {
      path in entries && entries[path].File?
    }

    predicate DirExists(path: string)
      reads this
      ensures DirExists(path) ==> path in entries
    {
      path in entries && entries[path].Dir?
    }

    /** The directory that would hold `path` exists (a path without a dir part needs none). */
    predicate ParentExists(path: string)
      reads this
    {
      HasParentIn(entries, path)
    }

    /** A file system is a tree: every entry sits in an existing directory. */
    ghost predicate Valid()
      reads this
    {
      IsTree(entries)
    }

    /** Writes `data` to the file at `path`, creating or replacing it; fails on a directory or a missing parent. */
    method Write(data: string, path: string) returns (ok: bool)
      modifies this`entries
      ensures ok == (old(!DirExists(path)) && old(ParentExists(path)))
      ensures entries == if ok then old(entries)[path := File(data)] else old(entries)
      ensures old(Valid()) ==> Valid()
    {
      ok := !DirExists(path) && ParentExists(path);
      if ok {
        entries := entries[path := File(data)];
      }
    }

    /** Creates a directory; fails when something is already there or the parent is missing. */
    method CreateDir(path: string) returns (ok: bool)
      modifies this`entries
      ensures ok == (path !in old(entries) && old(ParentExists(path)))
      ensures entries == if ok then old(entries)[path := Dir] else old(entries)
      ensures old(Valid()) ==> Valid()
    {
      ok := path !in entries && ParentExists(path);
      if ok {
        entries := entries[path := Dir];
      }
    }

    /** Removes the file at `path`, if there is one. */
    method RemoveFile(path: string)
      modifies this`entries
      ensures entries == if old(FileExists(path)) then old(entries) - {path} else old(entries)
      ensures old(Valid()) ==> Valid()
    {
      if FileExists(path) {
        entries := entries - {path};
      }
    }

    /** Removes `path` and everything below it. */
    method RemoveDirRecursive(path: string)
      modifies this`entries
      ensures entries == map q | q in old(entries) && !InTree(path, q) :: old(entries)[q]
      ensures old(Valid()) ==> Valid()
    {
      entries := map q | q in entries && !InTree(path, q) :: entries[q];
      forall q | q in entries && GetDirPart(q) != [] && InTree(path, GetDirPart(q))
        ensures false
      {
        InTreeOfParent(path, q);
      }
    }

    /** Issues the next id; ids are never repeated within a run. */
    method GetUniqueId() returns (id: string)
      modifies this`idCounter
      ensures id == UniqueId(old(idCounter)) && idCounter == old(idCounter) + 1
    {
      id := UniqueId(idCounter);
      idCounter := idCounter + 1;
    }

    /** Issues `count` ids in a row, as the unique-id test does. */
    method UniqueIds(count: nat) returns (ids: seq<string>)
      modifies this`idCounter
      ensures |ids| == count && idCounter == old(idCounter) + count
      ensures forall i, j :: 0 <= i < j < count ==> ids[i] != ids[j]
    {
      ids := [];
      while |ids| < count
        invariant |ids| <= count && idCounter == old(idCounter) + |ids|
        invariant forall k :: 0 <= k < |ids| ==> ids[k] == UniqueId(old(idCounter) + k)
      {
        var id := GetUniqueId();
        ids := ids + [id];
      }
      forall i, j | 0 <= i < j < count
        ensures ids[i] != ids[j]
      {
        UniqueIdInjective(old(idCounter) + i, old(idCounter) + j);
      }
    }

    function GetCwd(): string
      reads this
    {
      cwd
    }

    /** Changes the working directory; fails, leaving it unchanged, unless `path` is a directory. */
    method SetCwd(path: string) returns (ok: bool)
      modifies this`cwd
      ensures ok == DirExists(path)
      ensures GetCwd() == if ok then path else old(GetCwd())
    {
      ok := DirExists(path);
      if ok {
        cwd := path;
      }
    }
  }

  /**
   * A temporary entry: owns a fresh path under a base path and removes whatever
   * was created there when its scope ends (`Close` stands for the destructor).
   */
  class TmpFile {
    const fs: FileSystem
    const path: string
    ghost const serial: nat

    /** Picks the first issued id whose path is not taken yet. */
    constructor (fs: FileSystem, basePath: string, ext: string)
      modifies fs`idCounter
      ensures this.fs == fs && path == TmpPath(basePath, ext, serial)
      ensures old(fs.idCounter) <= serial < fs.idCounter
      ensures path !in fs.entries
      ensures fs.entries == old(fs.entries)
      ensures fs.Valid() ==> forall q :: InTree(path, q) ==> q !in fs.entries
    {
      ghost var start := fs.idCounter;
      var id := fs.GetUniqueId();
      ghost var s := start;
      ghost var tried: set<string> := {};
      var candidate := AppendPath(basePath, id + ext);
      while candidate in fs.entries
        invariant start <= s && fs.idCounter == s + 1
        invariant candidate == TmpPath(basePath, ext, s)
        invariant tried <= fs.entries.Keys
        invariant forall q :: q in tried ==> exists k :: start <= k < s && q == TmpPath(basePath, ext, k)
        invariant fs.entries == old(fs.entries)
        decreases fs.entries.Keys - tried
      {
        if candidate in tried {
          var k :| start <= k < s && candidate == TmpPath(basePath, ext, k);
          TmpPathInjective(basePath, ext, k, s);
          assert false;
        }
        tried := tried + {candidate};
        id := fs.GetUniqueId();
        s := s + 1;
        candidate := AppendPath(basePath, id + ext);
      }
      this.fs := fs;
      path := candidate;
      serial := s;
      TmpPathShape(basePath, ext, s);
      forall q | fs.Valid() && InTree(candidate, q)
        ensures q !in fs.entries
      {
        AbsentHasNoDescendants(fs.entries, candidate, q);
      }
    }

    /** End of scope: a directory is removed with all its contents, a file is deleted. */
    method Close()
      modifies fs`entries
      ensures old(fs.DirExists(path)) ==>
                fs.entries == map q | q in old(fs.entries) && !InTree(path, q) :: old(fs.entries)[q]
      ensures old(fs.FileExists(path)) ==> fs.entries == old(fs.entries) - {path}
      ensures path !in old(fs.entries) ==> fs.entries == old(fs.entries)
      ensures !fs.FileExists(path) && !fs.DirExists(path)
      ensures old(fs.DirExists(path)) ==> forall q :: InTree(path, q) ==> q !in fs.entries
      ensures old(fs.Valid()) ==> fs.Valid()
    {
      if fs.DirExists(path) {
        fs.RemoveDirRecursive(path);
      } else {
        fs.RemoveFile(path);
      }
    }
  }

  /** Changes the working directory for a scope and restores it at the end (`Close`). */
  class ScopedWorkDir {
    const fs: FileSystem
    const oldWorkDir: string
    /** Whether the change succeeded; `false` stands for the I/O error that `set_cwd` raises. */
    const entered: bool

    constructor (fs: FileSystem, newWorkDir: string)
      modifies fs`cwd
      ensures this.fs == fs && oldWorkDir == old(fs.GetCwd())
      ensures entered == old(fs.DirExists(newWorkDir))
      ensures fs.GetCwd() == if entered then newWorkDir else old(fs.GetCwd())
    {
      this.fs := fs;
      oldWorkDir := fs.cwd;
      var ok := fs.SetCwd(newWorkDir);
      entered := ok;
    }

    /**
     * End of scope: changes back to the saved directory, whatever happened inside
     * the scope; the change is refused, as `set_cwd` refuses it, when that
     * directory no longer exists.
     */
    method Close()
      modifies fs`cwd
      ensures fs.GetCwd() == if old(fs.DirExists(oldWorkDir)) then oldWorkDir else old(fs.GetCwd())
    {
      var ok := fs.SetCwd(oldWorkDir);
    }
  }

  // ---------------------------------------------------------------------------
  // The scenarios of file_utils_test.cpp, restated over the model.

  /** The facts about two temporary paths in one directory that the two-handle scenario needs. */
  lemma TwoTmpPaths(tempDir: string, ext: string, m: nat, n: nat)
    requires m != n && SEP !in ext
    ensures TmpPath(tempDir, ext, m) != TmpPath(tempDir, ext, n)
    ensures GetDirPart(TmpPath(tempDir, ext, m)) == tempDir && GetDirPart(TmpPath(tempDir, ext, n)) == tempDir
    ensures TmpPath(tempDir, ext, m) != tempDir && TmpPath(tempDir, ext, n) != tempDir
  {
    TmpPathInjective(tempDir, ext, m, n);
    TmpPathParent(tempDir, ext, m);
    TmpPathParent(tempDir, ext, n);
    TmpPathShape(tempDir, ext, m);
    TmpPathShape(tempDir, ext, n);
  }

  /** Writes a file at a fresh path directly inside an existing directory; the write succeeds. */
  method WriteNewFile(fs: FileSystem, dir: string, path: string)
    requires fs.DirExists(dir) && GetDirPart(path) == dir && path !in fs.entries
    modifies fs`entries
    ensures fs.entries == old(fs.entries)[path := File("Hello world!")]
  {
    var ok := fs.Write("Hello world!", path);
    assert ok;
  }

  /** First half of the scenario below: two handles on one base, each with a file written at its path. */
  method CreateTwoTmpFiles(fs: FileSystem, tempDir: string) returns (tmp1: TmpFile, tmp2: TmpFile)
    requires fs.DirExists(tempDir)
    modifies fs
    ensures tmp1.fs == fs && tmp2.fs == fs
    ensures tmp1.path != tmp2.path && tmp1.path != tempDir && tmp2.path != tempDir
    ensures GetDirPart(tmp1.path) == tempDir && GetDirPart(tmp2.path) == tempDir
    ensures fs.FileExists(tmp1.path) && fs.FileExists(tmp2.path) && fs.DirExists(tempDir)
  {
    tmp1 := new TmpFile(fs, tempDir, ".foo");
    tmp2 := new TmpFile(fs, tempDir, ".foo");
    TwoTmpPaths(tempDir, ".foo", tmp1.serial, tmp2.serial);
    WriteNewFile(fs, tempDir, tmp1.path);
    assert fs.FileExists(tmp1.path) && !fs.FileExists(tmp2.path);
    WriteNewFile(fs, tempDir, tmp2.path);
  }

  /** Two handles on one base: each path is fresh, and closing both removes both files. */
  method TwoTmpFilesScenario(fs: FileSystem, tempDir: string) returns (path1: string, path2: string)
    requires fs.DirExists(tempDir)
    modifies fs
    ensures path1 != path2
    ensures GetDirPart(path1) == tempDir && GetDirPart(path2) == tempDir
    ensures !fs.FileExists(path1) && !fs.FileExists(path2)
    ensures fs.DirExists(tempDir)
  {
    var tmp1, tmp2 := CreateTwoTmpFiles(fs, tempDir);
    path1, path2 := tmp1.path, tmp2.path;

    // Destruction runs in reverse order of construction.
    ghost var before := fs.entries;
    tmp2.Close();
    assert fs.entries == before - {path2};
    tmp1.Close();
    assert fs.entries == before - {path2} - {path1};
  }

  /** First half of the scenario below: a directory at a handle's path, with one file written inside. */
  method CreateTmpDirWithFile(fs: FileSystem, tempDir: string) returns (tmp: TmpFile, filePath: string)
    requires fs.DirExists(tempDir) && fs.Valid()
    modifies fs
    ensures tmp.fs == fs && fs.DirExists(tmp.path) && fs.FileExists(filePath)
    ensures InTree(tmp.path, filePath) && !InTree(tmp.path, tempDir) && fs.DirExists(tempDir)
    ensures GetDirPart(tmp.path) == tempDir && GetDirPart(filePath) == tmp.path && GetFilePart(filePath) == "hello.foo"
  {
    tmp := new TmpFile(fs, tempDir, "");
    filePath := AppendPath(tmp.path, "hello.foo");
    TmpPathParent(tempDir, "", tmp.serial);
    TmpPathShape(tempDir, "", tmp.serial);

    var ok := fs.CreateDir(tmp.path);
    assert ok;
    SplitAppendPath(tmp.path, "hello.foo");
    assert InTree(tmp.path, filePath);
    assert filePath !in fs.entries;
    WriteNewFile(fs, tmp.path, filePath);
  }

  /** A directory with a file inside, created at a handle's path, is gone after the scope. */
  method TmpDirScenario(fs: FileSystem, tempDir: string) returns (dirPath: string, filePath: string)
    requires fs.DirExists(tempDir) && fs.Valid()
    modifies fs
    ensures !fs.DirExists(dirPath) && !fs.FileExists(filePath)
    ensures GetDirPart(dirPath) == tempDir && GetDirPart(filePath) == dirPath && GetFilePart(filePath) == "hello.foo"
    ensures fs.DirExists(tempDir)
  {
    var tmp;
    tmp, filePath := CreateTmpDirWithFile(fs, tempDir);
    dirPath := tmp.path;
    tmp.Close();
  }

  /** Setting the working directory and reading it back, then returning to the old one. */
  method SetCwdScenario(fs: FileSystem, newCwd: string)
    requires fs.DirExists(newCwd) && fs.DirExists(fs.GetCwd())
    modifies fs`cwd
    ensures fs.GetCwd() == old(fs.GetCwd())
  {
    var oldCwd := fs.GetCwd();
    var ok := fs.SetCwd(newCwd);
    assert fs.GetCwd() == newCwd;
    ok := fs.SetCwd(oldCwd);
  }

  /** Inside the scope the working directory is the requested one; after it, the old one. */
  method ScopedWorkDirScenario(fs: FileSystem, newCwd: string)
    requires fs.DirExists(newCwd) && fs.DirExists(fs.GetCwd())
    modifies fs`cwd
    ensures fs.GetCwd() == old(fs.GetCwd())
  {
    var scoped := new ScopedWorkDir(fs, newCwd);
    assert scoped.entered && fs.GetCwd() == newCwd;
    scoped.Close();
  }
}
