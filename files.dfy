/**
 * The filesystem adapter of src/file.ts: normalisation of OS error codes, the entry type chosen
 * by `FileStat.type`, and the `_.move` / `_.copy` wrappers that skip a transfer whose target name
 * is already taken. The filesystem is a map from paths to nodes.
 */
module Files {
  import opened Common
  import opened Paths

  /** `vscode.FileType`. */
  datatype FileType = Unknown | File | Directory | SymbolicLink

  /** The three predicates of `fs.Stats` that `FileStat.type` consults. */
  datatype Stats = Stats(isFile: bool, isDirectory: bool, isSymbolicLink: bool)

  /** `FileStat.type`: the first of file, directory, symbolic link that the stats report. */
  function StatType(s: Stats): (t: FileType)
    ensures t == File <==> s.isFile
    ensures t == Directory <==> !s.isFile && s.isDirectory
    ensures t == SymbolicLink <==> !s.isFile && !s.isDirectory && s.isSymbolicLink
    ensures t == Unknown <==> !s.isFile && !s.isDirectory && !s.isSymbolicLink
  {
    if s.isFile then File
    else if s.isDirectory then Directory
    else if s.isSymbolicLink then SymbolicLink
    else Unknown
  }

  /** One filesystem object: what `fs.stat` reports about it and, for a regular file, its text. */
  datatype Node = Node(stats: Stats, text: string)

  /** The stats of a regular file, as `fs.writeFile` creates one. */
  const RegularFile: Stats := Stats(true, false, false)

  /** Every object that exists, by path; a directory is present as a node of its own. */
  type FileSystem = map<Path, Node>

  // ---------------------------------------------------------------------------------------------
  // Errors
  // ---------------------------------------------------------------------------------------------

  /** An error as Node's `fs` reports it: its `code`, possibly undefined. */
  datatype OsError = OsError(code: Option<string>)

  /** What `massageError` can return: one of the four `vscode.FileSystemError` kinds, or the
      original error unchanged. */
  datatype FsError = FileNotFound | FileIsADirectory | FileExists | NoPermissions | Unmapped(cause: OsError)

  /** `massageError`. The permission case tests the literal 'EACCESS', so Node's real EACCES
      code is passed through unchanged like every other unlisted code. */
  function MassageError(e: OsError): (r: FsError)
    ensures r == FileNotFound <==> e.code == Some("ENOENT")
    ensures r == FileIsADirectory <==> e.code == Some("EISDIR")
    ensures r == FileExists <==> e.code == Some("EEXIST")
    ensures r == NoPermissions <==> e.code == Some("EPERM") || e.code == Some("EACCESS")
    ensures r.Unmapped? <==> e.code !in {Some("ENOENT"), Some("EISDIR"), Some("EEXIST"), Some("EPERM"), Some("EACCESS")}
    ensures r.Unmapped? ==> r.cause == e
  {
    if e.code == Some("ENOENT") then FileNotFound
    else if e.code == Some("EISDIR") then FileIsADirectory
    else if e.code == Some("EEXIST") then FileExists
    else if e.code == Some("EPERM") || e.code == Some("EACCESS") then NoPermissions
    else Unmapped(e)
  }

  const NoEntry: OsError := OsError(Some("ENOENT"))
  const IsADirectory: OsError := OsError(Some("EISDIR"))
  const InvalidTarget: OsError := OsError(Some("EINVAL"))
  const NotADirectory: OsError := OsError(Some("ENOTDIR"))

  // ---------------------------------------------------------------------------------------------
  // Reading and writing files
  // ---------------------------------------------------------------------------------------------

  /** `fs.readFile`: the text of a regular file; reading anything else fails. */
  function ReadText(fs: FileSystem, p: Path): (t: Option<string>)
    ensures t.Some? <==> p in fs && fs[p].stats.isFile
    ensures t.Some? ==> t.value == fs[p].text
  {
    if p in fs && fs[p].stats.isFile then Some(fs[p].text) else None
  }

  /** The result of a call that may change the filesystem. */
  datatype Outcome = Outcome(fs: FileSystem, error: Option<FsError>)

  /** `fs.writeFile`, normalised: it fails with ENOENT when the directory is missing, with
      ENOTDIR when the parent is not a directory and with EISDIR when the path names a
      directory, and otherwise leaves a regular file holding `text`. */
  function WriteFile(fs: FileSystem, p: Path, text: string): (o: Outcome)
    ensures o.error.Some? ==> o.fs == fs
    ensures o.error.None? <==> Parent(p) in fs && fs[Parent(p)].stats.isDirectory && !(p in fs && fs[p].stats.isDirectory)
    ensures Parent(p) !in fs ==> o.error == Some(FileNotFound)
    ensures Parent(p) in fs && !fs[Parent(p)].stats.isDirectory ==> o.error == Some(Unmapped(NotADirectory))
    ensures o.error.None? ==> ReadText(o.fs, p) == Some(text) && o.fs.Keys == fs.Keys + {p}
    ensures o.error.None? ==> forall q :: q in fs && q != p ==> o.fs[q] == fs[q]
  {
    if Parent(p) !in fs then Outcome(fs, Some(MassageError(NoEntry)))
    else if !fs[Parent(p)].stats.isDirectory then Outcome(fs, Some(MassageError(NotADirectory)))
    else if p in fs && fs[p].stats.isDirectory then Outcome(fs, Some(MassageError(IsADirectory)))
    else Outcome(fs[p := Node(RegularFile, text)], None)
  }

  // ---------------------------------------------------------------------------------------------
  // rename and copyFile
  // ---------------------------------------------------------------------------------------------

  lemma RebaseInjective(src: Path, dst: Path)
    ensures forall p, q :: IsPrefix(src, p) && IsPrefix(src, q) && dst + p[|src|..] == dst + q[|src|..] ==> p == q
  {
    forall p, q | IsPrefix(src, p) && IsPrefix(src, q) && dst + p[|src|..] == dst + q[|src|..]
      ensures p == q
    {
      assert p[|src|..] == (dst + p[|src|..])[|dst|..];
      assert q[|src|..] == (dst + q[|src|..])[|dst|..];
      assert p == p[..|src|] + p[|src|..];
      assert q == q[..|src|] + q[|src|..];
    }
  }

  /** The entries outside the subtree at `src`. */
  function Kept(fs: FileSystem, src: Path): FileSystem
  {
    map p | p in fs && !IsPrefix(src, p) :: fs[p]
  }

  /** The entries of the subtree at `src`, each rebased from `src` to `dst`. */
  function Moved(fs: FileSystem, src: Path, dst: Path): FileSystem
  {
    RebaseInjective(src, dst);
    map p | p in fs && IsPrefix(src, p) :: dst + p[|src|..] := fs[p]
  }

  /** The filesystem after the subtree at `src` is renamed to `dst`: every path below `src`
      moves to the same place below `dst`, everything else stays. */
  function Relocate(fs: FileSystem, src: Path, dst: Path): FileSystem
  {
    Kept(fs, src) + Moved(fs, src, dst)
  }

  lemma MovedEntry(fs: FileSystem, src: Path, dst: Path, p: Path)
    requires p in fs && IsPrefix(src, p)
    ensures dst + p[|src|..] in Moved(fs, src, dst) && Moved(fs, src, dst)[dst + p[|src|..]] == fs[p]
  {
    RebaseInjective(src, dst);
  }

  lemma MovedKeysBelow(fs: FileSystem, src: Path, dst: Path)
    ensures forall k :: k in Moved(fs, src, dst) ==> IsPrefix(dst, k)
  {
    forall k | k in Moved(fs, src, dst) ensures IsPrefix(dst, k) {
      var p :| p in fs && IsPrefix(src, p) && k == dst + p[|src|..];
      assert k[..|dst|] == dst;
    }
  }

  /** Relocation moves the whole subtree and leaves everything outside both subtrees alone. */
  lemma RelocateMovesSubtree(fs: FileSystem, src: Path, dst: Path)
    requires src in fs
    ensures var r := Relocate(fs, src, dst);
      && dst in r && r[dst] == fs[src]
      && (!IsPrefix(dst, src) ==> src !in r)
      && (forall p :: p in fs && IsPrefix(src, p) ==> dst + p[|src|..] in r && r[dst + p[|src|..]] == fs[p])
      && (forall p :: !IsPrefix(src, p) && !IsPrefix(dst, p) ==> (p in r <==> p in fs) && (p in r ==> r[p] == fs[p]))
  {
    forall p | p in fs && IsPrefix(src, p)
      ensures dst + p[|src|..] in Moved(fs, src, dst) && Moved(fs, src, dst)[dst + p[|src|..]] == fs[p]
    {
      MovedEntry(fs, src, dst, p);
    }
    assert IsPrefix(src, src) && src[|src|..] == [];
    assert dst + src[|src|..] == dst;
    MovedKeysBelow(fs, src, dst);
  }

  /** `fs.rename(src, dst)`, normalised. It fails with ENOENT when `src` or the directory of
      `dst` is missing, with ENOTDIR when that directory is not one, and with EINVAL when `dst`
      lies inside `src`; any further failure is what the OS reports in `os` (None when the call
      succeeds). A rename moves the whole subtree at `src` (lemma RelocateMovesSubtree). */
  function RenameOutcome(fs: FileSystem, src: Path, dst: Path, os: Option<OsError>): (o: Outcome)
    ensures o.error.Some? ==> o.fs == fs
    ensures o.error.None? ==> src in fs && Parent(dst) in fs && fs[Parent(dst)].stats.isDirectory && os.None?
    ensures o.error.None? ==> !(IsPrefix(src, dst) && src != dst) && o.fs == Relocate(fs, src, dst)
    ensures o.error.None? && !IsPrefix(dst, src) ==> dst in o.fs && o.fs[dst] == fs[src] && src !in o.fs
  {
    if src !in fs || Parent(dst) !in fs then Outcome(fs, Some(MassageError(NoEntry)))
    else if !fs[Parent(dst)].stats.isDirectory then Outcome(fs, Some(MassageError(NotADirectory)))
    else if IsPrefix(src, dst) && src != dst then Outcome(fs, Some(MassageError(InvalidTarget)))
    else if os.Some? then Outcome(fs, Some(MassageError(os.value)))
    else
      RelocateMovesSubtree(fs, src, dst);
      Outcome(Relocate(fs, src, dst), None)
  }

  /** `fs.copyFile(src, dst)`, normalised. It fails with ENOENT when `src` or the directory of
      `dst` is missing, with ENOTDIR when that directory is not one, and with EISDIR when `src`
      is a directory, which `copyFile` refuses to copy; any further failure is what the OS
      reports in `os`. A copy adds `dst` holding what `src` holds and changes nothing else. */
  function CopyFileOutcome(fs: FileSystem, src: Path, dst: Path, os: Option<OsError>): (o: Outcome)
    ensures o.error.Some? ==> o.fs == fs
    ensures o.error.None? ==> src in fs && Parent(dst) in fs && fs[Parent(dst)].stats.isDirectory && os.None?
    ensures src in fs && fs[src].stats.isDirectory ==> o.error.Some?
    ensures src in fs && fs[src].stats.isDirectory && Parent(dst) in fs && fs[Parent(dst)].stats.isDirectory ==>
      o.error == Some(FileIsADirectory)
    ensures o.error.None? ==> o.fs.Keys == fs.Keys + {dst} && o.fs[dst] == fs[src]
    ensures o.error.None? ==> forall p :: p in fs && p != dst ==> o.fs[p] == fs[p]
  {
    if src !in fs || Parent(dst) !in fs then Outcome(fs, Some(MassageError(NoEntry)))
    else if !fs[Parent(dst)].stats.isDirectory then Outcome(fs, Some(MassageError(NotADirectory)))
    else if fs[src].stats.isDirectory then Outcome(fs, Some(MassageError(IsADirectory)))
    else if os.Some? then Outcome(fs, Some(MassageError(os.value)))
    else Outcome(fs[dst := fs[src]], None)
  }

  // ---------------------------------------------------------------------------------------------
  // _.move and _.copy
  // ---------------------------------------------------------------------------------------------

  /** `path.join(targetDir, path.parse(src).base)`. */
  function TargetPath(src: Path, targetDir: Path): Path
  {
    Join(targetDir, BaseName(src))
  }

  /** `_.move(src, targetDir)`: when the target name is taken it succeeds and changes nothing;
      otherwise it renames `src` to the target. */
  function MoveEntry(fs: FileSystem, src: Path, targetDir: Path, os: Option<OsError>): (o: Outcome)
    ensures TargetPath(src, targetDir) in fs ==> o == Outcome(fs, None)
    ensures o.error.Some? ==> o.fs == fs
    ensures TargetPath(src, targetDir) !in fs ==> o == RenameOutcome(fs, src, TargetPath(src, targetDir), os)
  {
    var target := TargetPath(src, targetDir);
    if target in fs then Outcome(fs, None) else RenameOutcome(fs, src, target, os)
  }

  /** `_.copy(src, targetDir)`: when the target name is taken it succeeds and changes nothing;
      otherwise it copies `src` to the target. */
  function CopyEntry(fs: FileSystem, src: Path, targetDir: Path, os: Option<OsError>): (o: Outcome)
    ensures TargetPath(src, targetDir) in fs ==> o == Outcome(fs, None)
    ensures o.error.Some? ==> o.fs == fs
    ensures TargetPath(src, targetDir) !in fs ==> o == CopyFileOutcome(fs, src, TargetPath(src, targetDir), os)
  {
    var target := TargetPath(src, targetDir);
    if target in fs then Outcome(fs, None) else CopyFileOutcome(fs, src, target, os)
  }

  /** A real filesystem is closed under taking parents: the directory of every entry exists. */
  predicate Closed(fs: FileSystem)
  {
    forall p :: p in fs && p != [] ==> Parent(p) in fs
  }

  /** In a closed filesystem every ancestor of an entry exists. */
  lemma {:induction false} AncestorPresent(fs: FileSystem, a: Path, p: Path)
    requires Closed(fs) && p in fs && IsPrefix(a, p)
    ensures a in fs
    decreases |p|
  {
    if a != p {
      assert |a| < |p|;
      assert IsPrefix(a, Parent(p)) by {
        assert Parent(p) == p[..|p| - 1];
        assert a == p[..|a|];
      }
      AncestorPresent(fs, a, Parent(p));
    }
  }

  /** In a closed filesystem a successful move leaves `src`'s node under the target name and
      nothing at `src`; a successful copy leaves the node at both. */
  lemma TransferPlacesSource(fs: FileSystem, src: Path, targetDir: Path, os: Option<OsError>)
    requires Closed(fs) && TargetPath(src, targetDir) !in fs
    ensures var target := TargetPath(src, targetDir);
      var m := MoveEntry(fs, src, targetDir, os);
      var c := CopyEntry(fs, src, targetDir, os);
      && (m.error.None? ==> m.fs == Relocate(fs, src, target) && src !in m.fs && target in m.fs && m.fs[target] == fs[src])
      && (c.error.None? ==> src in c.fs && c.fs[src] == fs[src] && c.fs[target] == fs[src])
  {
    var target := TargetPath(src, targetDir);
    if src in fs && IsPrefix(target, src) {
      AncestorPresent(fs, target, src);
      assert false;
    }
  }

  /** The disk as the adapter sees it; every call of the adapter that changes it goes through
      one of these methods. */
  class Disk {
    var entries: FileSystem

    constructor (initial: FileSystem)
      ensures entries == initial
    {
      entries := initial;
    }

    /** `FM.write`. */
    method Write(p: Path, text: string) returns (error: Option<FsError>)
      modifies this
      ensures Outcome(entries, error) == WriteFile(old(entries), p, text)
    {
      var o := WriteFile(entries, p, text);
      entries, error := o.fs, o.error;
    }

    /** `fs.rename`. */
    method Rename(src: Path, dst: Path, os: Option<OsError>) returns (error: Option<FsError>)
      modifies this
      ensures Outcome(entries, error) == RenameOutcome(old(entries), src, dst, os)
    {
      var o := RenameOutcome(entries, src, dst, os);
      entries, error := o.fs, o.error;
    }

    /** `fs.copyFile`. */
    method CopyFile(src: Path, dst: Path, os: Option<OsError>) returns (error: Option<FsError>)
      modifies this
      ensures Outcome(entries, error) == CopyFileOutcome(old(entries), src, dst, os)
    {
      var o := CopyFileOutcome(entries, src, dst, os);
      entries, error := o.fs, o.error;
    }

    /** `_.move`: an existence check, then the rename. */
    method Move(src: Path, targetDir: Path, os: Option<OsError>) returns (error: Option<FsError>)
      modifies this
      ensures Outcome(entries, error) == MoveEntry(old(entries), src, targetDir, os)
    {
      var targetPath := TargetPath(src, targetDir);
      if targetPath in entries {
        error := None;
      } else {
        error := Rename(src, targetPath, os);
      }
    }

    /** `_.copy`: an existence check, then the copy. */
    method Copy(src: Path, targetDir: Path, os: Option<OsError>) returns (error: Option<FsError>)
      modifies this
      ensures Outcome(entries, error) == CopyEntry(old(entries), src, targetDir, os)
    {
      var targetPath := TargetPath(src, targetDir);
      if targetPath in entries {
        error := None;
      } else {
        error := CopyFile(src, targetPath, os);
      }
    }
  }
}
