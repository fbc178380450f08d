/**
 * The note explorer of src/FileExplorer.ts: the item and directory the tree selection
 * designates, the existence check for a new name, moving or copying entries into a target
 * directory, the copy/cut/paste buffer, and moving an entry up or down in its directory's
 * `.sort` order.
 */
module Explorer {
  import opened Common
  import opened Lists
  import Strings
  import opened Paths
  import opened Files
  import opened Listings

  // ---------------------------------------------------------------------------------------------
  // Selection and target directories
  // ---------------------------------------------------------------------------------------------

  /** `currentItem`: the last selected entry, if any. */
  function CurrentItem(selection: seq<Entry>): (r: Option<Entry>)
    ensures r.None? <==> |selection| == 0
    ensures r.Some? ==> r.value == selection[|selection| - 1]
  {
    if |selection| > 0 then Some(selection[|selection| - 1]) else None
  }

  /** `currentItemParentDir`: the directory holding the current item, or the notes root. */
  function CurrentItemParentDir(selection: seq<Entry>, location: Path): (d: Path)
    ensures |selection| == 0 ==> d == location
    ensures |selection| > 0 ==> d == Parent(selection[|selection| - 1].path)
  {
    match CurrentItem(selection)
    case None => location
    case Some(item) => Parent(item.path)
  }

  /** `currentDir`: the notes root without a selection, the current item when it is a
      directory, and otherwise the directory holding it. */
  function CurrentDir(selection: seq<Entry>, location: Path): (d: Path)
    ensures |selection| == 0 ==> d == location
    ensures |selection| > 0 && selection[|selection| - 1].kind == Directory ==> d == selection[|selection| - 1].path
    ensures |selection| > 0 && selection[|selection| - 1].kind != Directory ==> d == CurrentItemParentDir(selection, location)
  {
    match CurrentItem(selection)
    case None => location
    case Some(item) => if item.kind == Directory then item.path else Parent(item.path)
  }

  /** The target directory of `move` and `copy`: a missing target stands for the notes root as
      a directory; a directory target is itself; any other target gives its directory. */
  function TargetDir(target: Option<Entry>, location: Path): (d: Path)
    ensures target.None? ==> d == location
    ensures target.Some? && target.value.kind == Directory ==> d == target.value.path
    ensures target.Some? && target.value.kind != Directory ==> d == Parent(target.value.path)
  {
    var t := if target.Some? then target.value else Entry("", location, Directory);
    if t.kind == Directory then t.path else Parent(t.path)
  }

  /** Pasting goes where new notes go: the target of a paste, the current item, resolves to the
      current directory. */
  lemma PasteTargetIsCurrentDir(selection: seq<Entry>, location: Path)
    ensures TargetDir(CurrentItem(selection), location) == CurrentDir(selection, location)
  {
  }

  /** The message `checkExist` throws. */
  const NameTaken: string := "A note with that name already exists."

  /** `checkExist`: a path that exists is rejected; any other is passed on unchanged. */
  function CheckExist(fs: FileSystem, p: Path): (r: Result<Path, string>)
    ensures r.Failure? <==> p in fs
    ensures r.Failure? ==> r.error == NameTaken
    ensures r.Success? ==> r.value == p
  {
    if p in fs then Failure(NameTaken) else Success(p)
  }

  // ---------------------------------------------------------------------------------------------
  // Moving and copying a selection
  // ---------------------------------------------------------------------------------------------

  /** The disk after `Promise.all(sources.map(e => FM.move(...)))` or the `FM.copy` variant:
      every target name is checked against the disk as it was before the first transfer, since
      all the checks run when the promises are created; the transfers whose target was free
      then run in order, each with the outcome `os` gives it. */
  function TransferAll(initial: FileSystem, fs: FileSystem, sources: seq<Entry>, targetDir: Path, copy: bool,
                       os: seq<Option<OsError>>): FileSystem
    requires |os| == |sources|
    decreases |sources|
  {
    if |sources| == 0 then fs
    else
      var n := |sources| - 1;
      TransferOne(initial, TransferAll(initial, fs, sources[..n], targetDir, copy, os[..n]), sources[n], targetDir, copy, os[n])
  }

  /** One transfer of `TransferAll`: skipped when the target name was taken at the start. */
  function TransferOne(initial: FileSystem, fs: FileSystem, source: Entry, targetDir: Path, copy: bool,
                       os: Option<OsError>): FileSystem
  {
    var target := TargetPath(source.path, targetDir);
    if target in initial then fs
    else if copy then CopyFileOutcome(fs, source.path, target, os).fs
    else RenameOutcome(fs, source.path, target, os).fs
  }

  lemma TransferAllPrefix(initial: FileSystem, fs: FileSystem, sources: seq<Entry>, targetDir: Path, copy: bool,
                          os: seq<Option<OsError>>, i: nat)
    requires |os| == |sources| && i < |sources|
    ensures TransferAll(initial, fs, sources[..i + 1], targetDir, copy, os[..i + 1]) ==
      TransferOne(initial, TransferAll(initial, fs, sources[..i], targetDir, copy, os[..i]), sources[i], targetDir, copy, os[i])
  {
    assert sources[..i + 1][..i] == sources[..i] && os[..i + 1][..i] == os[..i];
  }

  /** When every target name is already taken, nothing changes. */
  lemma {:induction false} TransferSkipsTaken(initial: FileSystem, fs: FileSystem, sources: seq<Entry>, targetDir: Path,
                                              copy: bool, os: seq<Option<OsError>>)
    requires |os| == |sources|
    requires forall k :: 0 <= k < |sources| ==> TargetPath(sources[k].path, targetDir) in initial
    ensures TransferAll(initial, fs, sources, targetDir, copy, os) == fs
    decreases |sources|
  {
    if |sources| > 0 {
      var n := |sources| - 1;
      TransferSkipsTaken(initial, fs, sources[..n], targetDir, copy, os[..n]);
    }
  }

  /** Copying never changes or removes an entry that existed before: every copy goes to a
      target name that was free. */
  lemma {:induction false} CopyKeepsEntries(initial: FileSystem, fs: FileSystem, sources: seq<Entry>, targetDir: Path,
                                            os: seq<Option<OsError>>)
    requires |os| == |sources|
    requires forall p :: p in initial ==> p in fs && fs[p] == initial[p]
    ensures var r := TransferAll(initial, fs, sources, targetDir, true, os);
      forall p :: p in initial ==> p in r && r[p] == initial[p]
    decreases |sources|
  {
    if |sources| > 0 {
      var n := |sources| - 1;
      CopyKeepsEntries(initial, fs, sources[..n], targetDir, os[..n]);
    }
  }

  /** With one source, a transfer is one `_.move` or one `_.copy`. */
  lemma SingleTransfer(fs: FileSystem, e: Entry, targetDir: Path, os: Option<OsError>)
    ensures TransferAll(fs, fs, [e], targetDir, false, [os]) == MoveEntry(fs, e.path, targetDir, os).fs
    ensures TransferAll(fs, fs, [e], targetDir, true, [os]) == CopyEntry(fs, e.path, targetDir, os).fs
  {
    assert [e][..0] == [] && [os][..0] == [];
  }

  // ---------------------------------------------------------------------------------------------
  // Moving an entry up or down
  // ---------------------------------------------------------------------------------------------

  function PathsOf(s: seq<Entry>): (r: seq<Path>)
    ensures |r| == |s| && forall k :: 0 <= k < |s| ==> r[k] == s[k].path
  {
    seq(|s|, k requires 0 <= k < |s| => s[k].path)
  }

  /** `children.map(e => path.parse(e.uri.fsPath).base)`. */
  function Names(s: seq<Entry>): (r: seq<string>)
    ensures |r| == |s| && forall k :: 0 <= k < |s| ==> r[k] == BaseName(s[k].path)
  {
    seq(|s|, k requires 0 <= k < |s| => BaseName(s[k].path))
  }

  /** The write `itemMoveUp` makes once it has the listing `l` of the entry's directory `dir`:
      it finds the entry by path and, unless the entry is first, writes the names of the
      rearranged listing as the new `.sort`. */
  function MoveUpWrite(fs: FileSystem, dir: Path, l: seq<Entry>, entry: Entry): Outcome
  {
    match MoveUpAt(l, IndexOf(PathsOf(l), entry.path), entry)
    case None => Outcome(fs, None)
    case Some(m) => WriteFile(fs, SortPath(dir), Strings.Join(Names(m), '\n'))
  }

  /** The write `itemMoveDown` makes once it has the listing, the mirror image of `MoveUpWrite`. */
  function MoveDownWrite(fs: FileSystem, dir: Path, l: seq<Entry>, entry: Entry): Outcome
  {
    match MoveDownAt(l, IndexOf(PathsOf(l), entry.path), entry)
    case None => Outcome(fs, None)
    case Some(m) => WriteFile(fs, SortPath(dir), Strings.Join(Names(m), '\n'))
  }

  lemma NamesSwap(l: seq<Entry>, i: nat, j: nat)
    requires i < |l| && j < |l|
    ensures Names(Swap(l, i, j)) == Swap(Names(l), i, j)
  {
    assert forall k :: 0 <= k < |l| ==> Names(Swap(l, i, j))[k] == Swap(Names(l), i, j)[k];
  }

  /** What `itemMoveUp([entry])` does to the disk, where `children` is what `readdir` returns
      for the entry's directory: a listing that fails rejects the command; otherwise the write. */
  function MoveUpEffect(fs: FileSystem, entry: Entry, children: seq<string>): (o: Outcome)
    ensures Listing(fs, Parent(entry.path), children).Failure? ==> o == Outcome(fs, Some(FileNotFound))
  {
    match Listing(fs, Parent(entry.path), children)
    case Failure(e) => Outcome(fs, Some(e))
    case Success(l) => MoveUpWrite(fs, Parent(entry.path), l, entry)
  }

  /** What `itemMoveDown([entry])` does to the disk. */
  function MoveDownEffect(fs: FileSystem, entry: Entry, children: seq<string>): (o: Outcome)
    ensures Listing(fs, Parent(entry.path), children).Failure? ==> o == Outcome(fs, Some(FileNotFound))
  {
    match Listing(fs, Parent(entry.path), children)
    case Failure(e) => Outcome(fs, Some(e))
    case Success(l) => MoveDownWrite(fs, Parent(entry.path), l, entry)
  }

  /** Moving up: the first entry is left alone and nothing is written; an entry found at `i`
      makes the written record the listing's names with positions `i - 1` and `i` exchanged; an
      entry that is not found leaves the listing's names as they are. */
  lemma MoveUpWrites(fs: FileSystem, dir: Path, l: seq<Entry>, entry: Entry)
    ensures var i := IndexOf(PathsOf(l), entry.path);
      && (i == 0 ==> MoveUpWrite(fs, dir, l, entry) == Outcome(fs, None))
      && (i == -1 ==> MoveUpWrite(fs, dir, l, entry) == WriteFile(fs, SortPath(dir), Strings.Join(Names(l), '\n')))
      && (0 < i ==> MoveUpWrite(fs, dir, l, entry) == WriteFile(fs, SortPath(dir), Strings.Join(Swap(Names(l), i - 1, i), '\n')))
  {
    var i := IndexOf(PathsOf(l), entry.path);
    if 0 < i {
      var m := MoveUpAt(l, i, entry).value;
      assert Names(m) == Swap(Names(l), i - 1, i) by {
        assert PathsOf(l)[i] == entry.path;
        forall k | 0 <= k < |l| ensures Names(m)[k] == Swap(Names(l), i - 1, i)[k] {
        }
      }
    }
  }

  /** Moving down: the last entry is left alone and nothing is written; an entry found at `i`
      makes the written record the listing's names with positions `i` and `i + 1` exchanged; an
      entry that is not found replaces the first name by its own. */
  lemma MoveDownWrites(fs: FileSystem, dir: Path, l: seq<Entry>, entry: Entry)
    ensures var i := IndexOf(PathsOf(l), entry.path);
      && (i == |l| - 1 ==> MoveDownWrite(fs, dir, l, entry) == Outcome(fs, None))
      && (i == -1 && |l| > 0 ==>
            MoveDownWrite(fs, dir, l, entry) == WriteFile(fs, SortPath(dir), Strings.Join(Names(l)[0 := BaseName(entry.path)], '\n')))
      && (0 <= i < |l| - 1 ==>
            MoveDownWrite(fs, dir, l, entry) == WriteFile(fs, SortPath(dir), Strings.Join(Swap(Names(l), i, i + 1), '\n')))
  {
    var i := IndexOf(PathsOf(l), entry.path);
    if i == |l| - 1 {
      MoveDownLastWrite(fs, dir, l, entry);
    } else if i == -1 {
      MoveDownMissingWrite(fs, dir, l, entry);
    } else {
      MoveDownSwapWrite(fs, dir, l, entry, i);
    }
  }

  /** Moving down the last entry of the listing writes nothing. */
  lemma MoveDownLastWrite(fs: FileSystem, dir: Path, l: seq<Entry>, entry: Entry)
    requires IndexOf(PathsOf(l), entry.path) == |l| - 1
    ensures MoveDownWrite(fs, dir, l, entry) == Outcome(fs, None)
  {
  }

  /** Moving down an entry the listing does not hold puts it in the first place of the record. */
  lemma MoveDownMissingWrite(fs: FileSystem, dir: Path, l: seq<Entry>, entry: Entry)
    requires IndexOf(PathsOf(l), entry.path) == -1 && |l| > 0
    ensures MoveDownWrite(fs, dir, l, entry) == WriteFile(fs, SortPath(dir), Strings.Join(Names(l)[0 := BaseName(entry.path)], '\n'))
  {
    assert Names(l[0 := entry]) == Names(l)[0 := BaseName(entry.path)];
  }

  /** Moving down an entry that has a successor records the names with the two exchanged. */
  lemma MoveDownSwapWrite(fs: FileSystem, dir: Path, l: seq<Entry>, entry: Entry, i: nat)
    requires i == IndexOf(PathsOf(l), entry.path) && i < |l| - 1
    ensures MoveDownWrite(fs, dir, l, entry) == WriteFile(fs, SortPath(dir), Strings.Join(Swap(Names(l), i, i + 1), '\n'))
  {
    var m := MoveDownAt(l, i, entry).value;
    assert Names(m) == Swap(Names(l), i, i + 1) by {
      assert PathsOf(l)[i] == entry.path;
      forall k | 0 <= k < |l| ensures Names(m)[k] == Swap(Names(l), i, i + 1)[k] {
      }
    }
  }

  /** A rearrangement of a listing of proper, distinct names has distinct names, and the name
      part of each entry's path is its name. */
  lemma RearrangementShape(fs: FileSystem, dir: Path, children: seq<string>, m: seq<Entry>)
    requires ValidChildren(children) && Listing(fs, dir, children).Success?
    requires multiset(m) == multiset(Listing(fs, dir, children).value)
    ensures DistinctNames(m)
    ensures forall k :: 0 <= k < |m| ==> Names(m)[k] == m[k].name && '\n' !in m[k].name
  {
    var l := Listing(fs, dir, children).value;
    ListingShape(fs, dir, children);
    DistinctNamesSub(l, m);
    WellNamedSub(dir, l, m);
    forall k | 0 <= k < |m| ensures Names(m)[k] == m[k].name && '\n' !in m[k].name {
      assert WellNamed(dir, m[k]);
    }
  }

  /** Writing the names of any rearrangement `m` of a listing as the record makes the next
      listing of the same children exactly `m`: the record names every visible entry, once. */
  lemma WriteRecordRelists(fs: FileSystem, dir: Path, children: seq<string>, m: seq<Entry>)
    requires ValidChildren(children) && Listing(fs, dir, children).Success?
    requires multiset(m) == multiset(Listing(fs, dir, children).value)
    ensures var o := WriteFile(fs, SortPath(dir), Strings.Join(Names(m), '\n'));
      o.error.None? ==> Listing(o.fs, dir, children) == Success(m)
  {
    var l := Listing(fs, dir, children).value;
    var o := WriteFile(fs, SortPath(dir), Strings.Join(Names(m), '\n'));
    if o.error.None? {
      RearrangementShape(fs, dir, children, m);
      var names := Names(m);
      SortWriteKeepsVisible(fs, o.fs, dir, children);
      var items := Entries(o.fs, dir, children);
      assert multiset(Filter(items, Visible)) == multiset(m);
      var order := ReadOrder(o.fs, dir);
      assert Listing(o.fs, dir, children) == Success(Sorts(order, items));
      if |m| == 0 {
        var r := Sorts(order, items);
        assert |r| == |multiset(r)| == 0;
      } else {
        Strings.SplitJoin(names, '\n');
        SortsByFullRecord(order, items, m);
      }
    }
  }

  /** Recording a listing with two of its entries exchanged lists the exchanged entries. */
  lemma SwapWriteRelists(fs: FileSystem, dir: Path, children: seq<string>, l: seq<Entry>, i: nat, j: nat)
    requires ValidChildren(children) && Listing(fs, dir, children) == Success(l)
    requires i < |l| && j < |l|
    ensures var o := WriteFile(fs, SortPath(dir), Strings.Join(Swap(Names(l), i, j), '\n'));
      o.error.None? ==> Listing(o.fs, dir, children) == Success(Swap(l, i, j))
  {
    NamesSwap(l, i, j);
    WriteRecordRelists(fs, dir, children, Swap(l, i, j));
  }

  /** After a successful move up of the entry at `i > 0` of the listing `l` of `dir`, listing
      the directory again shows the entry and its predecessor exchanged and every other entry
      where it was; when the entry is not in the listing, the listing stays as it was. */
  lemma MoveUpRelists(fs: FileSystem, dir: Path, children: seq<string>, l: seq<Entry>, entry: Entry)
    requires ValidChildren(children) && Listing(fs, dir, children) == Success(l)
    ensures var i := IndexOf(PathsOf(l), entry.path);
      var o := MoveUpWrite(fs, dir, l, entry);
      && (0 < i && o.error.None? ==> Listing(o.fs, dir, children) == Success(Swap(l, i - 1, i)))
      && (0 < i && o.error.None? ==> Listing(o.fs, dir, children + [".sort"]) == Success(Swap(l, i - 1, i)))
      && (i == -1 && o.error.None? ==> Listing(o.fs, dir, children) == Success(l))
      && (i == -1 && o.error.None? ==> Listing(o.fs, dir, children + [".sort"]) == Success(l))
  {
    var i := IndexOf(PathsOf(l), entry.path);
    var o := MoveUpWrite(fs, dir, l, entry);
    MoveUpWrites(fs, dir, l, entry);
    if 0 < i {
      SwapWriteRelists(fs, dir, children, l, i - 1, i);
    } else if i == -1 {
      WriteRecordRelists(fs, dir, children, l);
    }
    if (0 < i || i == -1) && o.error.None? {
      ListingIgnoresSortFile(o.fs, dir, children);
    }
  }

  /** After a successful move down of the entry at `i < |l| - 1` of the listing `l` of `dir`,
      listing the directory again shows the entry and its successor exchanged and every other
      entry where it was. */
  lemma MoveDownRelists(fs: FileSystem, dir: Path, children: seq<string>, l: seq<Entry>, entry: Entry)
    requires ValidChildren(children) && Listing(fs, dir, children) == Success(l)
    ensures var i := IndexOf(PathsOf(l), entry.path);
      var o := MoveDownWrite(fs, dir, l, entry);
      && (0 <= i < |l| - 1 && o.error.None? ==> Listing(o.fs, dir, children) == Success(Swap(l, i, i + 1)))
      && (0 <= i < |l| - 1 && o.error.None? ==> Listing(o.fs, dir, children + [".sort"]) == Success(Swap(l, i, i + 1)))
  {
    var i := IndexOf(PathsOf(l), entry.path);
    var o := MoveDownWrite(fs, dir, l, entry);
    if 0 <= i < |l| - 1 {
      MoveDownSwapWrite(fs, dir, l, entry, i);
      SwapWriteRelists(fs, dir, children, l, i, i + 1);
      if o.error.None? {
        ListingIgnoresSortFile(o.fs, dir, children);
      }
    }
  }

  // ---------------------------------------------------------------------------------------------
  // The explorer
  // ---------------------------------------------------------------------------------------------

  /** The explorer's state: the notes root, the tree selection and the paste buffer. */
  class FileExplorer {
    const disk: Disk
    /** `Config.location`. */
    const location: Path
    /** `treeView.selection`. */
    var selection: seq<Entry>
    var isCopy: bool
    /** `_selectedFiles`. */
    var selectedFiles: seq<Entry>

    constructor (disk: Disk, location: Path)
      ensures this.disk == disk && this.location == location
      ensures selection == [] && !isCopy && selectedFiles == []
    {
      this.disk := disk;
      this.location := location;
      selection := [];
      isCopy := false;
      selectedFiles := [];
    }

    /** The user selects `items` in the tree. */
    method Select(items: seq<Entry>)
      modifies this
      ensures selection == items && isCopy == old(isCopy) && selectedFiles == old(selectedFiles)
    {
      selection := items;
    }

    /** The transfers of `move` and `copy`. */
    method Transfer(sources: seq<Entry>, targetDir: Path, copy: bool, os: seq<Option<OsError>>)
      requires |os| == |sources|
      modifies disk
      ensures disk.entries == TransferAll(old(disk.entries), old(disk.entries), sources, targetDir, copy, os)
    {
      // `sources.map` creates every promise before any of them settles: each existence check runs first
      var taken: seq<bool> := [];
      var i := 0;
      while i < |sources|
        invariant 0 <= i <= |sources| && |taken| == i
        invariant forall k :: 0 <= k < i ==> taken[k] == (TargetPath(sources[k].path, targetDir) in disk.entries)
      {
        taken := taken + [TargetPath(sources[i].path, targetDir) in disk.entries];
        i := i + 1;
      }
      i := 0;
      while i < |sources|
        invariant 0 <= i <= |sources|
        invariant disk.entries == TransferAll(old(disk.entries), old(disk.entries), sources[..i], targetDir, copy, os[..i])
      {
        TransferAllPrefix(old(disk.entries), old(disk.entries), sources, targetDir, copy, os, i);
        if !taken[i] {
          var target := TargetPath(sources[i].path, targetDir);
          // a failed transfer rejects the `Promise.all`, which nobody observes
          var error;
          if copy {
            error := disk.CopyFile(sources[i].path, target, os[i]);
          } else {
            error := disk.Rename(sources[i].path, target, os[i]);
          }
        }
        i := i + 1;
      }
      assert sources[..i] == sources && os[..i] == os;
    }

    /** `move(target, sources)`. */
    method Move(target: Option<Entry>, sources: seq<Entry>, os: seq<Option<OsError>>)
      requires |os| == |sources|
      modifies disk
      ensures disk.entries == TransferAll(old(disk.entries), old(disk.entries), sources, TargetDir(target, location), false, os)
    {
      Transfer(sources, TargetDir(target, location), false, os);
    }

    /** `copy(target, sources)`. */
    method Copy(target: Option<Entry>, sources: seq<Entry>, os: seq<Option<OsError>>)
      requires |os| == |sources|
      modifies disk
      ensures disk.entries == TransferAll(old(disk.entries), old(disk.entries), sources, TargetDir(target, location), true, os)
    {
      Transfer(sources, TargetDir(target, location), true, os);
    }

    /** `cmdCopy`: the selection goes into the buffer, marked for copying. */
    method CmdCopy()
      modifies this
      ensures selectedFiles == old(selection) && isCopy && selection == old(selection)
    {
      selectedFiles := selection;
      isCopy := true;
    }

    /** `cmdCut`: the selection goes into the buffer, marked for moving. */
    method CmdCut()
      modifies this
      ensures selectedFiles == old(selection) && !isCopy && selection == old(selection)
    {
      isCopy := false;
      selectedFiles := selection;
    }

    /** `cmdPaste`: an empty buffer does nothing; otherwise the buffer is copied or moved into
        the current item's directory and then emptied. The decorated `copy` and `move` return
        nothing to wait for, so the buffer is emptied whatever the transfers do. */
    method CmdPaste(os: seq<Option<OsError>>)
      requires |os| == |selectedFiles|
      modifies this, disk
      ensures selection == old(selection)
      ensures |old(selectedFiles)| == 0 ==>
        isCopy == old(isCopy) && selectedFiles == old(selectedFiles) && disk.entries == old(disk.entries)
      ensures |old(selectedFiles)| > 0 ==> !isCopy && selectedFiles == []
      ensures |old(selectedFiles)| > 0 ==>
        disk.entries == TransferAll(old(disk.entries), old(disk.entries), old(selectedFiles), TargetDir(CurrentItem(old(selection)), location), old(isCopy), os)
    {
      if |selectedFiles| == 0 {
        return;
      }
      if isCopy {
        Copy(CurrentItem(selection), selectedFiles, os);
      } else {
        Move(CurrentItem(selection), selectedFiles, os);
      }
      isCopy := false;
      selectedFiles := [];
    }

    /** `itemMoveUp([entry])`. */
    method ItemMoveUp(entry: Entry, children: seq<string>) returns (error: Option<FsError>)
      modifies disk
      ensures Outcome(disk.entries, error) == MoveUpEffect(old(disk.entries), entry, children)
    {
      var dir := Parent(entry.path);
      var listing := ListDir(disk, dir, children);
      if listing.Failure? {
        return Some(listing.error);
      }
      error := MoveUpIn(dir, listing.value, entry);
    }

    /** The part of `itemMoveUp` after the listing: find the entry, exchange it with its
        predecessor in place, write the names. */
    method MoveUpIn(dir: Path, l: seq<Entry>, entry: Entry) returns (error: Option<FsError>)
      modifies disk
      ensures Outcome(disk.entries, error) == MoveUpWrite(old(disk.entries), dir, l, entry)
    {
      var a := new Entry[|l|](k requires 0 <= k < |l| => l[k]);
      assert a[..] == l;
      var matches := (e: Entry) => e.path == entry.path;
      var index := FindFirst(a, matches);
      assert forall k :: 0 <= k < a.Length ==> matches(a[k]) == (PathsOf(l)[k] == entry.path);
      FirstPositionIsIndexOf(PathsOf(l), entry.path, index);
      if index == 0 {
        return None;
      }
      if index > 0 {
        a[index] := a[index - 1];
        a[index - 1] := entry;
      }
      assert Some(a[..]) == MoveUpAt(l, index, entry);
      var sorts := Names(a[..]);
      error := disk.Write(SortPath(dir), Strings.Join(sorts, '\n'));
    }

    /** `itemMoveDown([entry])`. */
    method ItemMoveDown(entry: Entry, children: seq<string>) returns (error: Option<FsError>)
      modifies disk
      ensures Outcome(disk.entries, error) == MoveDownEffect(old(disk.entries), entry, children)
    {
      var dir := Parent(entry.path);
      var listing := ListDir(disk, dir, children);
      if listing.Failure? {
        return Some(listing.error);
      }
      error := MoveDownIn(dir, listing.value, entry);
    }

    /** The part of `itemMoveDown` after the listing: find the entry, exchange it with its
        successor in place, write the names. */
    method MoveDownIn(dir: Path, l: seq<Entry>, entry: Entry) returns (error: Option<FsError>)
      modifies disk
      ensures Outcome(disk.entries, error) == MoveDownWrite(old(disk.entries), dir, l, entry)
    {
      var a := new Entry[|l|](k requires 0 <= k < |l| => l[k]);
      assert a[..] == l;
      var matches := (e: Entry) => e.path == entry.path;
      var index := FindFirst(a, matches);
      assert forall k :: 0 <= k < a.Length ==> matches(a[k]) == (PathsOf(l)[k] == entry.path);
      FirstPositionIsIndexOf(PathsOf(l), entry.path, index);
      if index == a.Length - 1 {
        return None;
      }
      if index >= 0 {
        a[index] := a[index + 1];
        a[index + 1] := entry;
      } else {
        // `children[-1] = children[0]` sets a property; only `children[0] = entry` reaches the array
        a[0] := entry;
      }
      assert Some(a[..]) == MoveDownAt(l, index, entry);
      var sorts := Names(a[..]);
      error := disk.Write(SortPath(dir), Strings.Join(sorts, '\n'));
    }
  }
}
