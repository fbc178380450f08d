# mknotes core in Dafny

mknotes is a VS Code extension that keeps notes as plain files below one notes root
(`Config.location`). This project models three parts of it and proves their properties:

- The listing engine of `src/file.ts`:
  - `FM.listDir` stats every child.
  - `FM.sorts` drops the reserved names in `IGNORES`.
  - The children are then ordered by the three-tier comparator, driven by the directory's `.sort` record. `_sorts` and `sortRules` read that record.
  - `parseTreeList` uses the same comparator.
  - The file system adaptor provides `massageError`, `FileStat.type` and the skip-if-taken `_.move`/`_.copy`.
- The note explorer of `src/FileExplorer.ts`:
  - the directory the selection designates;
  - `checkExist`;
  - moving or copying entries into a target directory;
  - the copy/cut/paste buffer;
  - `itemMoveUp` and `itemMoveDown`, which rewrite `.sort` with a neighbour exchange.
- The favourites view of `src/Favourite.ts`:
  - `check`, `favourites` and `saveFavourites`;
  - the tree list of favourites;
  - the add, remove, move-up and move-down commands;
  - `relativePath`.

## How it is modelled

- **Disk.** The disk is a map from paths to nodes. A path is a sequence of components, and the root `/` is `[]`. Each node holds:
  - what `fs.stat` reports;
  - for a regular file, its text.
- **Adaptor.** The class `Files.Disk` holds the map. Its methods write a file, rename and copy.
- **Paths.** `Paths.Parse` and `Paths.Format` convert between a path and its `fsPath` string. `Paths.JoinText` is `path.join` of a directory string and a relative string.
- **OS outcomes.** Some outcomes of `rename` and `copyFile` cannot be derived from the map. An example is a permission error on `rename`. These are an `Option<OsError>` parameter. A write takes no such parameter: it fails only in the ways the map decides (see Files.WriteFile under Left out).
- **`readdir`.** The names `readdir` returns are a parameter of the listing.
- **`localeCompare`.** It is replaced by lexicographic order on code points (`Strings.LocaleCompare`). That order is proved to be a strict total order.
- **The sort.** `Array.prototype.sort` is modelled as a stable insertion sort driven by the source's comparator.
  - Sortedness is stated through `Listings.MustPrecede`: the pairs the comparator orders the same way in both argument orders.
  - In one case the comparator returns 1 for both orders: two unrecorded names of different types, neither a directory (`Listings.KindsClash`, `Listings.ComparatorInconsistentCase`). A list holding no such pair is `Listings.Consistent`.
  - On a consistent list there is exactly one sorted arrangement (`Listings.SortedUnique`). Any correct sort, V8's included, therefore returns what the model returns (`Listings.SortsDetermined`).
  - On a list with a clashing pair, V8's result depends on its algorithm and on the input order. The model's insertion sort is one possible engine (see Listings.SortEntries under Left out).
- **Move and copy.** `move` and `copy` run `Promise.all` over the sources.
  - Each promise makes its existence check and then its transfer. A rename may complete before a later promise makes its check, so the source allows several interleavings.
  - The model chooses one: every existence check sees the disk as it was before the first transfer, and the transfers whose target was free then apply in order (`Explorer.TransferAll`).
- **`cmdPaste`.** The `RunLoading` decorator makes `move` and `copy` return nothing to wait for. So `cmdPaste` empties the buffer whatever the transfers do.
- **A missing entry (`findIndex` returns -1).** The move commands model this case as written:
  - Moving up writes the listing unchanged, because the two assignments go to properties `-1` and `-2`.
  - Moving down overwrites the first element with the entry. In the favourites this loses the first favourite from the saved list.
- **Favourites errors.** `favourites()` throws when `.favourite` exists but cannot be read as a file. This is modelled as `None`, and every command that reads the favourites then leaves the disk alone.
- **In-place code.**
  - The loop of `listDir` is a method with a loop invariant.
  - The in-place exchanges of `itemMoveUp`/`itemMoveDown` and `cmdMoveUp`/`cmdMoveDown` are methods over an `array`.
  - The loop of `favouriteList` is a method with a loop invariant.
  - The explorer and the favourites view are classes whose methods change the disk and their own fields.

## Model

| member | source | states |
|---|---|---|
| Files.StatType | src/file.ts:139-141 | An entry is a file exactly when it stats as a file. It is a directory exactly when it is a directory and not a file. It is a symbolic link exactly when it is only that. It is Unknown when it is none of the three. |
| Files.MassageError | src/file.ts:18-36 | ENOENT → FileNotFound, EISDIR → FileIsADirectory, EEXIST → FileExists, EPERM or the literal 'EACCESS' → NoPermissions, each an if-and-only-if. Every other code, including EACCES and an undefined code, yields the original error unchanged. |
| Files.ReadText | src/file.ts:70-74 | A read yields text exactly when the path is a regular file, and then it yields that file's text. |
| Files.WriteFile | src/file.ts:76-80 | Within the failures the map decides, a write succeeds exactly when the parent exists and is a directory and the target is not a directory. A missing parent gives FileNotFound. A parent that is not a directory gives ENOTDIR. On success, reading the target gives the written text, exactly the target path is added, and every other entry is unchanged. On failure the disk is unchanged. |
| Files.RelocateMovesSubtree | src/file.ts:100-104 | A rename puts the source at the destination and every descendant at its rebased path. The source is gone, and entries outside both subtrees are untouched. |
| Files.RenameOutcome | src/file.ts:100-104 | A failed rename leaves the disk unchanged. A successful one needs the source to exist, the destination's parent to be a directory, and the destination not to lie strictly inside the source. Its disk is Relocate's: the whole subtree moves to the destination and every other entry stays (RelocateMovesSubtree). The source's node lands at the destination and the source is gone. |
| Files.CopyFileOutcome | src/file.ts:129 | A successful copy needs the source and a destination parent that is a directory. It adds exactly the destination with the source's node and keeps every other entry. A directory source never copies: with an existing directory as parent it fails with FileIsADirectory. A failed copy changes nothing. |
| Files.MoveEntry | src/file.ts:112-121 | When `join(targetDir, base(src))` is taken, the move succeeds and changes nothing. Otherwise it is a rename of `src` to that path. |
| Files.CopyEntry | src/file.ts:123-132 | When the target name is taken, the copy succeeds and changes nothing. Otherwise it is a copy of `src` to that path. |
| Files.TransferPlacesSource | src/file.ts:112-132 | On a disk where every entry's parent exists and the target name is free: a successful move relocates the source's whole subtree to the target, leaves every other entry alone, and leaves the source's node at the target and no source; a successful copy leaves it at both places. |
| Files.AncestorPresent | src/file.ts:112-132 | On such a disk, every ancestor of an existing entry exists. When the target name is free, the target is therefore never the source or one of its ancestors. |
| Files.Disk.Write | src/file.ts:201-202 | The disk after `FM.write`, and its error, are those of WriteFile. |
| Files.Disk.Rename | src/file.ts:100-104 | The disk after `_.rename`, and its error, are those of RenameOutcome. |
| Files.Disk.CopyFile | src/file.ts:129 | The disk after `fs.copyFile`, and its error, are those of CopyFileOutcome. |
| Files.Disk.Move | src/file.ts:112-121 | The disk after `_.move`, and its error, are those of MoveEntry. |
| Files.Disk.Copy | src/file.ts:123-132 | The disk after `_.copy`, and its error, are those of CopyEntry. |
| Strings.Split | src/file.ts:189 | Splitting on `'\n'` yields at least one part, and no part holds the separator. |
| Strings.JoinSplit | src/file.ts:189 | Joining the parts of a split with the separator gives back the text. |
| Strings.SplitJoin | src/FileExplorer.ts:250-251 | Splitting a `'\n'`-join of a non-empty list of newline-free names gives back the names: the round trip between writing `.sort` and reading it. |
| Strings.Trim | src/Favourite.ts:49 | `e.trim()` is empty exactly when `e` consists of whitespace only. |
| Strings.IndexOfSub | src/Favourite.ts:101 | Yields the first position where the pattern occurs, or -1 exactly when it occurs nowhere. |
| Strings.ReplaceFirst | src/Favourite.ts:101 | `String.replace` with a string pattern returns the text unchanged when the pattern does not occur. Otherwise it removes the first occurrence: the text before it followed by the text after it. |
| Strings.LocaleCompare | src/file.ts:258 | The name comparison is zero exactly for equal names. Its sign agrees with the lexicographic order `Less`. |
| Strings.LessTransitive | src/file.ts:258 | The name order is transitive. |
| Strings.LessTotal | src/file.ts:258 | Any two distinct names are ordered one way or the other. |
| Strings.LessAsymmetric | src/file.ts:258 | No two names are ordered both ways. |
| Paths.Join | src/file.ts:233 | `path.join(dir, name)` with a non-empty name is a path whose parent is `dir` and whose base name is `name`. The empty name gives `dir`. |
| Paths.FormatParse | src/FileExplorer.ts:244 | Parsing the `fsPath` of a well-formed path gives the path back. |
| Paths.JoinTextParses | src/Favourite.ts:49 | `path.join(ws, e)` is the parse of `ws + "/" + e`. |
| Lists.IndexOf | src/FileExplorer.ts:246 | `findIndex`/`indexOf` yield the first position holding the value, or -1 exactly when it is absent. |
| Lists.FindFirst | src/FileExplorer.ts:246 | The loop over the array finds the first index that matches, and -1 exactly when none matches. |
| Lists.Swap | src/FileExplorer.ts:248-249 | The two positions are exchanged and every other position is unchanged. The length is kept, and the result is a permutation. |
| Lists.MoveUpAt | src/FileExplorer.ts:246-249 | Index 0 does nothing, and index -1 leaves the list unchanged. Otherwise the entry and its predecessor are exchanged, the length is kept and every other position is unchanged. When the element at `i` is the entry, this is a swap. |
| Lists.MoveDownAt | src/FileExplorer.ts:260-263 | The last index does nothing, and index -1 on a non-empty list overwrites position 0. Otherwise the entry and its successor are exchanged, with every other position and the length kept. |
| Lists.MoveUpAtFound | src/Favourite.ts:129-132 | At the index `findIndex` reports, a move up is an exchange with the predecessor. |
| Lists.MoveDownAtFound | src/Favourite.ts:142-146 | At the index `findIndex` reports, a move down is an exchange with the successor. |
| Lists.Filter | src/file.ts:248 | `filter` keeps exactly the elements satisfying the test, each as often as before. |
| Lists.FilterConcat | src/file.ts:248 | Filtering distributes over concatenation. |
| Listings.ReadOrder | src/file.ts:185-195 | A record that is missing or unreadable gives no order. Otherwise the order lines contain no line break and join back to the record's text. `sortRules` at src/file.ts:266-273 reads the same. |
| Listings.CompareRespectsPrecedence | src/file.ts:249-262 | A pair that must come first takes a negative comparator result in one order and a positive one in the other. |
| Listings.PrecedenceThroughCompare | src/file.ts:249-262 | Whatever must precede `a` must also precede every `c` such that `a` compares below `c`. This is what insertion relies on. |
| Listings.ComparatorInconsistentCase | src/file.ts:256-260 | For two unrecorded names of different types, neither a directory, the comparator returns 1 in both argument orders. Neither must precede the other. |
| Listings.Insert | src/file.ts:249 | Inserting adds the element once: the result's multiset is the old one plus the element. |
| Listings.InsertSorted | src/file.ts:249 | Inserting into a sorted list keeps it sorted. |
| Listings.SortEntries | src/file.ts:249-262 | The model's sort yields a permutation of its input that is sorted by the comparator. |
| Listings.PrecedenceIrreflexive | src/file.ts:249-262 | No entry must precede itself. |
| Listings.PrecedenceTotal | src/file.ts:249-262 | Two entries with different names are ordered one way exactly when they do not clash. |
| Listings.ConsistentExactly | src/file.ts:249-262 | A list with distinct names is consistent exactly when no two of its entries clash. |
| Listings.RecordedConsistent | src/file.ts:252-253 | Distinct names that are all in the record form a consistent list. |
| Listings.ConsistentPermutation | src/file.ts:249-262 | Rearranging a consistent list keeps it consistent. |
| Listings.SortedSameFirst | src/file.ts:249-262 | Two sorted arrangements of the same consistent entries start with the same entry. |
| Listings.SortedUnique | src/file.ts:249-262 | Two sorted arrangements of the same consistent entries are equal. |
| Listings.SortsDetermined | src/file.ts:245-263 | On consistent visible entries, every sorted arrangement of them is the model's `FM.sorts` result. |
| Listings.SortedTiers | src/file.ts:252-260 | In a sorted list, these hold for every i < j: (1) a recorded name never follows an unrecorded one; (2) recorded names appear in increasing record position; (3) among unrecorded names a directory never follows a non-directory; (4) unrecorded names of the same type are in name order. |
| Listings.Sorts | src/file.ts:245-263 | `FM.sorts` never yields a name from `IGNORES`. It yields exactly the visible entries, each once. When the comparator is consistent on them, the result is sorted. |
| Listings.Entries | src/file.ts:231-241 | The loop records one entry per child, in `readdir` order, at `path.join(dir, child)`. |
| Listings.ListDir | src/file.ts:229-243 | The loop of `FM.listDir` computes the listing Listing specifies. |
| Listings.ListingProperties | src/file.ts:229-243 | A listing fails with FileNotFound exactly when some child cannot be stat'ed. Otherwise it holds every visible child once and no reserved name. It is sorted when the comparator is consistent on the visible children. |
| Listings.PairEntries | src/file.ts:293 | Each pair becomes an entry at `path.join(dir, name)` with its type. |
| Listings.ParseTreeList | src/file.ts:275-294 | Every entry lies at `path.join(dir, name)` and has no reserved name. The entries are exactly the visible pairs, each once. When the comparator is consistent on them, they are sorted by the same comparator as FM.sorts. |
| Listings.ListingShape | src/file.ts:229-248 | For a directory whose names are distinct and newline-free, the listing's names are distinct. It also shows each one at `path.join(dir, name)`. |
| Listings.FollowsRecordUnique | src/file.ts:252-253 | Two arrangements of the same entries that both follow a record's positions are equal. |
| Listings.SortsByFullRecord | src/file.ts:252-253 | When the record names every visible entry once, in the order of `m`, the sort yields exactly `m`. |
| Listings.ListingIgnoresSortFile | src/file.ts:229-248 | Once `.sort` exists, `readdir` also returns it. The listing of the children plus `.sort` is the listing of the children alone. |
| Listings.SortWriteKeepsVisible | src/file.ts:248 | Rewriting `.sort` changes no visible child's entry. |
| Listings.SortedDistinctFollows | src/file.ts:252-253 | A sorted list of distinct recorded names follows the record positions. |
| Explorer.CurrentItem | src/FileExplorer.ts:36-41 | The current item is absent exactly when nothing is selected. Otherwise it is the last selected entry. |
| Explorer.CurrentItemParentDir | src/FileExplorer.ts:43-49 | With no selection this is the notes root. Otherwise it is the parent of the current item. |
| Explorer.CurrentDir | src/FileExplorer.ts:51-60 | With no selection this is the root. A selected directory gives itself. Any other item gives its parent. |
| Explorer.TargetDir | src/FileExplorer.ts:189-193 | An absent target gives the root, a directory target gives itself, and any other gives its parent. This is the same rule at src/FileExplorer.ts:199-203. |
| Explorer.PasteTargetIsCurrentDir | src/FileExplorer.ts:223-230 | Pasting onto the current item targets the current directory. |
| Explorer.CheckExist | src/FileExplorer.ts:62-67 | The check fails with the fixed message exactly when the path exists. Otherwise it returns the path unchanged. |
| Explorer.TransferSkipsTaken | src/FileExplorer.ts:188-205 | When every target name was taken at the start, move or copy leaves the disk unchanged. |
| Explorer.CopyKeepsEntries | src/FileExplorer.ts:197-205 | Copying a selection never changes or removes an entry that existed before. |
| Explorer.SingleTransfer | src/FileExplorer.ts:194 | With one source, `move` and `copy` are one `_.move` or `_.copy`. |
| Explorer.PathsOf | src/FileExplorer.ts:246 | The paths of the listing, position by position. |
| Explorer.Names | src/FileExplorer.ts:250 | The base names of the listing, position by position, form the new `.sort` lines. |
| Explorer.NamesSwap | src/FileExplorer.ts:248-250 | Exchanging two entries exchanges their names in the record. |
| Explorer.MoveUpEffect | src/FileExplorer.ts:245 | A listing that fails rejects `itemMoveUp` with FileNotFound and leaves the disk unchanged. |
| Explorer.MoveDownEffect | src/FileExplorer.ts:259 | A listing that fails rejects `itemMoveDown` with FileNotFound and leaves the disk unchanged. |
| Explorer.MoveUpWrites | src/FileExplorer.ts:246-251 | Moving up the first entry writes nothing. An entry at i > 0 writes the `'\n'`-join of all the listing's names with positions i-1 and i exchanged. A missing entry writes the names unchanged. |
| Explorer.MoveDownWrites | src/FileExplorer.ts:260-265 | Moving down the last entry writes nothing. An entry at i < last writes all the names with i and i+1 exchanged. A missing entry writes the names with the first replaced by the entry's base name. |
| Explorer.MoveDownLastWrite | src/FileExplorer.ts:261 | Moving down the last entry writes nothing. |
| Explorer.MoveDownMissingWrite | src/FileExplorer.ts:262-265 | Moving down an entry that is not in the listing writes the names with the first one replaced. |
| Explorer.MoveDownSwapWrite | src/FileExplorer.ts:262-265 | Moving down the entry at i writes the names with i and i+1 exchanged. |
| Explorer.RearrangementShape | src/FileExplorer.ts:250 | Any rearrangement of a listing has distinct, newline-free names, equal to the base names of its paths. |
| Explorer.WriteRecordRelists | src/FileExplorer.ts:250-251 | After the names of any rearrangement of the listing are written as `.sort`, listing the directory again yields exactly that rearrangement. |
| Explorer.SwapWriteRelists | src/FileExplorer.ts:248-251 | After a record with two entries exchanged is written, the listing shows them exchanged. |
| Explorer.MoveUpRelists | src/FileExplorer.ts:241-253 | After a successful move up of the entry at i > 0, the next listing has it exchanged with its predecessor and every other entry in place. With a missing entry the listing is as before. Both hold whether or not the next `readdir` also returns the new `.sort`. |
| Explorer.MoveDownRelists | src/FileExplorer.ts:255-267 | After a successful move down of the entry at i < last, the next listing has it exchanged with its successor and every other entry in place. This holds whether or not the next `readdir` also returns the new `.sort`. |
| Explorer.FileExplorer.Select | src/FileExplorer.ts:28-33 | The tree selection (`canSelectMany`) is the UI's input. Selecting sets it to the given entries and leaves the buffer and `isCopy` alone. |
| Explorer.FileExplorer.constructor | src/FileExplorer.ts:207-208 | The explorer starts with an empty selection, an empty buffer and `isCopy` false. |
| Explorer.FileExplorer.Transfer | src/FileExplorer.ts:194 | The two loops make all the existence checks first and then the transfers. The disk ends as TransferAll says. |
| Explorer.FileExplorer.Move | src/FileExplorer.ts:187-195 | `move(target, sources)` transfers the sources by rename into TargetDir(target). |
| Explorer.FileExplorer.Copy | src/FileExplorer.ts:197-205 | `copy(target, sources)` transfers the sources by copy into TargetDir(target). |
| Explorer.FileExplorer.CmdCopy | src/FileExplorer.ts:212-216 | The buffer becomes the selection, marked for copying. The selection is kept. |
| Explorer.FileExplorer.CmdCut | src/FileExplorer.ts:217-221 | The buffer becomes the selection, marked for moving. The selection is kept. |
| Explorer.FileExplorer.CmdPaste | src/FileExplorer.ts:223-233 | An empty buffer changes nothing. Otherwise the buffer is copied (if `isCopy`) or moved into the current item's target directory. The buffer is then empty and `isCopy` false. |
| Explorer.FileExplorer.ItemMoveUp | src/FileExplorer.ts:241-253 | The disk and error after `itemMoveUp` are MoveUpEffect's: the listing, then the write MoveUpWrites describes. |
| Explorer.FileExplorer.MoveUpIn | src/FileExplorer.ts:246-251 | The in-place exchange on the listing's array produces the write MoveUpWrite specifies. |
| Explorer.FileExplorer.ItemMoveDown | src/FileExplorer.ts:255-267 | The disk and error after `itemMoveDown` are MoveDownEffect's. |
| Explorer.FileExplorer.MoveDownIn | src/FileExplorer.ts:260-265 | The in-place exchange on the array produces the write MoveDownWrite specifies. This includes the missing entry, where only `children[0]` is assigned. |
| Favourites.FavouritePathJoins | src/Favourite.ts:55 | The favourites file is `path.join(ws, '.favourite')`. |
| Favourites.Check | src/Favourite.ts:47-50 | `check` never lengthens the list. Every line it keeps is non-blank and names an existing path under the root. A kept line that ends in `/` names a directory, since `path.join` keeps the slash and the OS resolves such a path only to a directory. |
| Favourites.CheckDropsSlashedFile | src/Favourite.ts:49 | A line ending in `/` that names a regular file is dropped: `check` of a list with it appended is `check` of the list alone. |
| Favourites.CheckCounts | src/Favourite.ts:47-50 | `check` keeps each surviving line exactly as often as it occurred and drops every other line. |
| Favourites.CheckFrom | src/Favourite.ts:49 | Every line `check` keeps comes from its input. |
| Favourites.CheckConcat | src/Favourite.ts:49 | `check` distributes over concatenation, so it keeps the input's order. |
| Favourites.CheckAllKept | src/Favourite.ts:49 | A list whose lines all survive is returned unchanged. |
| Favourites.CheckIdempotent | src/Favourite.ts:58-65 | Checking a checked list changes nothing. The re-check in `saveFavourites` of what `favourites` read is therefore harmless. |
| Favourites.CheckAppend | src/Favourite.ts:108-111 | Checking a checked list with one more line gives the list, plus the line when that line survives. |
| Favourites.ReadFavourites | src/Favourite.ts:52-59 | An empty root or a missing file gives []. A `.favourite` that is not a readable file throws. Otherwise the favourites are `check` of the file's text split on `'\n'`, so every favourite is a surviving, newline-free line of the file, in file order. |
| Favourites.Saved | src/Favourite.ts:61-66 | An empty root writes nothing. On success the file holds the checked list, one per line. No path other than `.favourite` is created, every other path is untouched, and a failed save leaves the disk unchanged. |
| Favourites.ReadAfterSave | src/Favourite.ts:52-66 | Reading back after a successful save gives exactly `check(list)`, provided the list is newline-free. |
| Favourites.RelativePathResolves | src/Favourite.ts:100-102 | For an entry under the notes root, joining the root with `relativePath` of the entry's path gives the entry back. The root may be `/` and the entry may be the root itself. |
| Favourites.StripPrefix | src/Favourite.ts:101 | Replacing a leading root string in a path string leaves the rest. |
| Favourites.AddSaves | src/Favourite.ts:108-111 | Adding a path that is not yet a favourite saves the favourites with the path appended. |
| Favourites.AddThenRead | src/Favourite.ts:104-113 | Adding when the read throws, or adding a path that is already a favourite, changes nothing. Otherwise, after a successful save, the favourites read back as before plus the path at the end, unless the path names nothing. |
| Favourites.Without | src/Favourite.ts:120 | The filter never lengthens the list. |
| Favourites.WithoutConcat | src/Favourite.ts:120 | The filter distributes over concatenation, so the kept lines stay in their order. |
| Favourites.WithoutCounts | src/Favourite.ts:120 | Removing drops every copy of the path and keeps every other line as often as before. |
| Favourites.WithoutFrom | src/Favourite.ts:120 | Every line kept by the filter comes from the list. |
| Favourites.WithoutKeepsOthers | src/Favourite.ts:120 | The path is gone and every other favourite remains. |
| Favourites.RemoveSaves | src/Favourite.ts:119-120 | `cmdRemove` saves the favourites without the path. |
| Favourites.RemovedKept | src/Favourite.ts:119-120 | Filtering checked favourites keeps them checked and newline-free. The path is gone and all the others stay. |
| Favourites.RemoveThenRead | src/Favourite.ts:115-122 | When the read throws, nothing changes. Otherwise, after a successful save, the favourites read back as the old ones without the path, in order. The path is absent and every other favourite present. |
| Favourites.MoveUpSwapSaves | src/Favourite.ts:129-133 | Moving up the favourite at i > 0 saves the list with i-1 and i exchanged. |
| Favourites.MoveUpFirstUnchanged | src/Favourite.ts:130 | Moving up the first favourite leaves the disk unchanged. |
| Favourites.MoveUpMissingSaves | src/Favourite.ts:129-133 | Moving up a path that is not a favourite saves the list unchanged. |
| Favourites.MoveDownSwapSaves | src/Favourite.ts:142-146 | Moving down the favourite at i < last saves the list with i and i+1 exchanged. |
| Favourites.MoveDownLastUnchanged | src/Favourite.ts:143 | Moving down the last favourite leaves the disk unchanged. |
| Favourites.MoveDownMissingSaves | src/Favourite.ts:142-146 | Moving down a path that is not a favourite saves the list with its first favourite replaced by the path. |
| Favourites.MoveUpSaves | src/Favourite.ts:124-135 | `cmdMoveUp` saves the rearranged list, or changes nothing where it returns early. |
| Favourites.MoveDownSaves | src/Favourite.ts:137-148 | `cmdMoveDown` saves the rearranged list, or changes nothing where it returns early. |
| Favourites.SwapThenRead | src/Favourite.ts:131-133 | Saving the favourites with two of them exchanged reads back as exactly that exchange. |
| Favourites.MoveUpSwapThenRead | src/Favourite.ts:124-135 | After a successful move up of the favourite at i > 0, the favourites read back with i-1 and i exchanged, the length and every other position kept. |
| Favourites.MoveUpAbsentThenRead | src/Favourite.ts:129-133 | Moving up a path that is not a favourite leaves the favourites reading as before. |
| Favourites.MoveDownSwapThenRead | src/Favourite.ts:137-148 | After a successful move down of the favourite at i < last, the favourites read back with i and i+1 exchanged. |
| Favourites.MoveDownAbsentThenRead | src/Favourite.ts:142-146 | Moving down a path that is not a favourite replaces the first favourite by the path when the path names something. Otherwise it drops the first favourite. |
| Favourites.FirstReplacedCheck | src/Favourite.ts:144-146 | Checking a checked list with its first line replaced keeps the new line if it survives. Otherwise it drops the first line. |
| Favourites.StatEach | src/Favourite.ts:78-92 | The loop never yields more entries than favourites. Each entry lies at `path.join(ws, name)`, exists (as a directory when the name ends in `/`), and has the type `FileStat.type` gives it. |
| Favourites.StatEachPresent | src/Favourite.ts:78-92 | When every favourite resolves (it exists, and is a directory when it ends in `/`), one entry per favourite is yielded, in order. |
| Favourites.FavouriteListShape | src/Favourite.ts:68-98 | The tree shows exactly the favourites, in order, each at its place below the root. The save that comes with it leaves the favourites reading the same. |
| Favourites.RaiseAmong | src/Favourite.ts:129-132 | `findIndex` and the two in-place assignments compute the rearrangement MoveUpAt specifies. |
| Favourites.LowerAmong | src/Favourite.ts:142-146 | `findIndex` and the in-place assignments compute the rearrangement MoveDownAt specifies. |
| Favourites.FavouriteView.SaveFavourites | src/Favourite.ts:61-66 | The disk after `saveFavourites(list)` is the one Saved specifies. |
| Favourites.FavouriteView.CmdAdd | src/Favourite.ts:104-113 | The disk after `cmdAdd([entry])` is the one AddEffect gives for the entry's relative path. |
| Favourites.FavouriteView.CmdRemove | src/Favourite.ts:115-122 | The disk after `cmdRemove([entry])` is RemoveEffect's. |
| Favourites.FavouriteView.CmdMoveUp | src/Favourite.ts:124-135 | The disk after `cmdMoveUp([entry])` is MoveUpEffect's. |
| Favourites.FavouriteView.CmdMoveDown | src/Favourite.ts:137-148 | The disk after `cmdMoveDown([entry])` is MoveDownEffect's. |
| Favourites.FavouriteView.FavouriteList | src/Favourite.ts:68-98 | The loop returns the entries FavouriteEntries specifies, and the disk ends as FavouriteListSave says. |

## Left out

- I/O and asynchrony:
  - Real file system calls, `rimraf`, `mkdirp`, promises and callbacks are replaced by the disk map.
  - The names `readdir` returns are a parameter.
  - Outcomes of `rename` and `copyFile` that the map cannot decide are a parameter.
  - Concurrent transfers are given one chosen interleaving: all checks, then transfers in order. Interleavings where a rename lands before a later existence check are not modelled.
  - The unawaited write in `saveFavourites` is treated as completing before the next command. Errors from it are not observed.
- Host and UI plumbing:
  - tree rendering (`getTreeItem` and its `contextValue`);
  - drag and drop;
  - dialogs;
  - `open`;
  - refresh events and `cmdRefresh`;
  - command registration;
  - the `RunLoading` progress wrapper;
  - the configuration setting, which is taken as the fixed notes root.
- The other commands of the explorer: `newItem`, `newGroup`, `renameItem`, `deleteItem`, `setupFolder`, `openFile`, `revealInFinder` and `openInNewWindow`. Only `checkExist` is modelled.
- `normalizeNFC` and Unicode: strings are sequences of code points, with no normalisation.
- Strings.LocaleCompare: locale collation is replaced by code point order; only its being a strict total order is relied on.
- `Uri` details are not modelled:
  - `uri.path` versus `uri.fsPath`;
  - the notes root read through `vscode.workspace.getConfiguration` in `favouriteList`;
  - relative or non-normalised roots.

  Paths are normalised absolute component sequences.
- Files.CopyFileOutcome: where the source is a directory and the destination's parent is missing or not a directory, the model reports the parent's error. It does not decide which error `copyFile` reports first. Either way nothing is created.
- Files.WriteFile: permission (EACCES), read-only (EROFS) and full-disk (ENOSPC) failures are not modelled. A write fails only when the parent is missing or not a directory, or when the target is a directory.
- Listings.SortEntries: on a list with a clashing pair (two unrecorded entries of different types, neither a directory), V8's `Array.prototype.sort` order depends on its algorithm and the input order. The model uses insertion sort, one such engine. So Sorts, ListingProperties and ParseTreeList promise sortedness only for consistent lists. On such lists, Explorer.MoveUpWrites and Explorer.MoveDownWrites describe the write from the model's listing order, not from V8's. After a full-record write every name is recorded and the relisting is engine-independent (RecordedConsistent, SortsDetermined).
- Files.RenameOutcome: renaming onto an existing directory and the other OS-specific refusals are left to the `os` parameter, not derived.
- Explorer.MoveUpRelists and Explorer.MoveDownRelists are proved only when the directory's names are distinct and free of line breaks (ValidChildren). A name holding `'\n'` would split into two record lines.
- Favourites.AddThenRead and Favourites.MoveDownAbsentThenRead assume that the relative path holds no line break, for the same reason.
- The `_favourites` cache filled by the Favourite constructor is never read by the modelled commands, so it is not modelled.
- `FavouriteView.FavouriteList`: a favourite whose `stat` fails is skipped, as in the source. `stat` following symbolic links is not distinguished from the link itself.
- The empty-path guard in `getChildren` and the `getChildren` dispatch itself are not modelled.
- The `ctime`, `mtime` and `size` getters of `FileStat`.
