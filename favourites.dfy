/**
 * The favourites view: a `.favourite` file in the notes root holds one path per line, each
 * relative to the root. Reading it drops blank lines and lines that name nothing on disk;
 * saving re-applies the same check. The commands add, remove and move one path and save.
 */
module Favourites {
  import opened Common
  import opened Lists
  import Strings
  import opened Paths
  import opened Files
  import opened Listings

  /** `path.join(ws, '.favourite')`: where the favourites of the notes root `ws` are kept
      (lemma FavouritePathJoins). */
  function FavouritePath(ws: string): Path
  {
    Parse(ws) + [".favourite"]
  }

  lemma FavouritePathJoins(ws: string)
    ensures FavouritePath(ws) == JoinText(ws, ".favourite")
  {
    Strings.SplitWithoutSeparator(".favourite", '/');
    assert Normalize(Parse(ws), [".favourite"]) == Normalize(Parse(ws) + [".favourite"], []);
  }

  /** `path.join(ws, e)` names something the OS can reach: it exists, and since the join keeps
      a trailing `/` of `e` and such a path resolves only to a directory, a line ending in `/`
      must name a directory. */
  predicate Resolves(fs: FileSystem, ws: string, e: string)
  {
    && JoinText(ws, e) in fs
    && (|e| > 0 && e[|e| - 1] == '/' ==> fs[JoinText(ws, e)].stats.isDirectory)
  }

  /** A line survives `check` when it is not blank and `fs.existsSync(path.join(ws, e))`. */
  predicate Kept(fs: FileSystem, ws: string, e: string)
  {
    Strings.Trim(e) != "" && Resolves(fs, ws, e)
  }

  /** `check(children)`: the lines that survive, in their order, each as often as before. */
  function Check(fs: FileSystem, ws: string, l: seq<string>): (r: seq<string>)
    ensures |r| <= |l|
    ensures forall k :: 0 <= k < |r| ==> Kept(fs, ws, r[k])
    decreases |l|
  {
    if l == [] then [] else Check(fs, ws, l[..|l| - 1]) + if Kept(fs, ws, l[|l| - 1]) then [l[|l| - 1]] else []
  }

  /** A line ending in `/` that names a regular file does not survive: `path.join` keeps the
      slash and the OS refuses to resolve a file through it (ENOTDIR). */
  lemma CheckDropsSlashedFile(fs: FileSystem, ws: string, l: seq<string>, e: string)
    requires |e| > 0 && e[|e| - 1] == '/'
    requires JoinText(ws, e) in fs && !fs[JoinText(ws, e)].stats.isDirectory
    ensures !Kept(fs, ws, e)
    ensures Check(fs, ws, l + [e]) == Check(fs, ws, l)
  {
    assert (l + [e])[..|l + [e]| - 1] == l;
  }

  /** Each line that survives is kept as often as it occurs; the others are gone. */
  lemma {:induction false} CheckCounts(fs: FileSystem, ws: string, l: seq<string>)
    ensures forall e :: multiset(Check(fs, ws, l))[e] == if Kept(fs, ws, e) then multiset(l)[e] else 0
    decreases |l|
  {
    if l != [] {
      var init := l[..|l| - 1];
      assert l == init + [l[|l| - 1]];
      CheckCounts(fs, ws, init);
    }
  }

  /** Every line that survives comes from the input. */
  lemma CheckFrom(fs: FileSystem, ws: string, l: seq<string>)
    ensures forall k :: 0 <= k < |Check(fs, ws, l)| ==> Check(fs, ws, l)[k] in l
  {
    var r := Check(fs, ws, l);
    CheckCounts(fs, ws, l);
    forall k | 0 <= k < |r| ensures r[k] in l {
      assert multiset(r)[r[k]] > 0;
    }
  }

  /** `check` keeps the order of the lines. */
  lemma {:induction false} CheckConcat(fs: FileSystem, ws: string, a: seq<string>, b: seq<string>)
    ensures Check(fs, ws, a + b) == Check(fs, ws, a) + Check(fs, ws, b)
    decreases |b|
  {
    if b == [] {
      assert a + b == a;
    } else {
      var init := b[..|b| - 1];
      assert (a + b)[..|a + b| - 1] == a + init;
      assert (a + b)[|a + b| - 1] == b[|b| - 1];
      CheckConcat(fs, ws, a, init);
    }
  }

  /** A list that already survives `check` is left as it is. */
  lemma {:induction false} CheckAllKept(fs: FileSystem, ws: string, l: seq<string>)
    requires forall k :: 0 <= k < |l| ==> Kept(fs, ws, l[k])
    ensures Check(fs, ws, l) == l
    decreases |l|
  {
    if l != [] {
      var init := l[..|l| - 1];
      assert forall k :: 0 <= k < |init| ==> init[k] == l[k];
      CheckAllKept(fs, ws, init);
      assert l == init + [l[|l| - 1]];
    }
  }

  /** Checking twice is checking once. */
  lemma CheckIdempotent(fs: FileSystem, ws: string, l: seq<string>)
    ensures Check(fs, ws, Check(fs, ws, l)) == Check(fs, ws, l)
  {
    CheckAllKept(fs, ws, Check(fs, ws, l));
  }

  /** `favourites()`: no notes root or no `.favourite` file gives no favourites; a
      `.favourite` that cannot be read as a file makes the read throw (`None`); otherwise
      the checked lines of the file. */
  function ReadFavourites(fs: FileSystem, ws: string): (r: Option<seq<string>>)
    ensures ws == "" ==> r == Some([])
    ensures ws != "" && FavouritePath(ws) !in fs ==> r == Some([])
    ensures r.None? <==> ws != "" && FavouritePath(ws) in fs && !fs[FavouritePath(ws)].stats.isFile
    ensures r.Some? ==> forall k :: 0 <= k < |r.value| ==> Kept(fs, ws, r.value[k]) && '\n' !in r.value[k]
    ensures r.Some? && ws != "" && FavouritePath(ws) in fs ==>
      r.value == Check(fs, ws, Strings.Split(fs[FavouritePath(ws)].text, '\n'))
  {
    if ws == "" then Some([])
    else if FavouritePath(ws) !in fs then Some([])
    else match ReadText(fs, FavouritePath(ws))
      case None => None
      case Some(text) =>
        var parts := Strings.Split(text, '\n');
        var c := Check(fs, ws, parts);
        CheckFrom(fs, ws, parts);
        assert forall k :: 0 <= k < |c| ==> '\n' !in c[k] by {
          forall k | 0 <= k < |c| ensures '\n' !in c[k] {
            var j :| 0 <= j < |parts| && parts[j] == c[k];
          }
        }
        Some(c)
  }

  /** `saveFavourites(list)`: with a notes root, the checked list is written one per line. */
  function Saved(fs: FileSystem, ws: string, l: seq<string>): (o: Outcome)
    ensures ws == "" ==> o == Outcome(fs, None)
    ensures o.error.None? ==> ReadText(o.fs, FavouritePath(ws)) == Some(Strings.Join(Check(fs, ws, l), '\n')) || ws == ""
    ensures forall p :: p in fs && p != FavouritePath(ws) ==> p in o.fs && o.fs[p] == fs[p]
    ensures o.fs.Keys <= fs.Keys + {FavouritePath(ws)}
    ensures o.error.Some? ==> o.fs == fs
  {
    if ws == "" then Outcome(fs, None)
    else WriteFile(fs, FavouritePath(ws), Strings.Join(Check(fs, ws, l), '\n'))
  }

  lemma SplitEmpty(sep: char)
    ensures Strings.Split("", sep) == [""]
  {
    Strings.JoinSplit("", sep);
  }

  /** Saving and reading back gives the checked list, provided no line holds a line break. */
  lemma ReadAfterSave(fs: FileSystem, ws: string, l: seq<string>)
    requires ws != "" && forall k :: 0 <= k < |l| ==> '\n' !in l[k]
    requires Saved(fs, ws, l).error.None?
    ensures ReadFavourites(Saved(fs, ws, l).fs, ws) == Some(Check(fs, ws, l))
  {
    var c := Check(fs, ws, l);
    var o := Saved(fs, ws, l);
    CheckFrom(fs, ws, l);
    assert FavouritePath(ws) in o.fs && ReadText(o.fs, FavouritePath(ws)) == Some(Strings.Join(c, '\n'));
    assert forall k :: 0 <= k < |c| ==> '\n' !in c[k] by {
      forall k | 0 <= k < |c| ensures '\n' !in c[k] {
        var j :| 0 <= j < |l| && l[j] == c[k];
      }
    }
    var parts := Strings.Split(Strings.Join(c, '\n'), '\n');
    if c == [] {
      SplitEmpty('\n');
      assert parts == [""];
      assert !Kept(o.fs, ws, "");
      assert Check(o.fs, ws, parts) == Check(o.fs, ws, []);
    } else {
      Strings.SplitJoin(c, '\n');
      assert parts == c;
      assert forall k :: 0 <= k < |c| ==> Kept(o.fs, ws, c[k]) by {
        forall k | 0 <= k < |c| ensures Kept(o.fs, ws, c[k]) {
          assert Kept(fs, ws, c[k]);
          assert JoinText(ws, c[k]) in o.fs;
        }
      }
      CheckAllKept(o.fs, ws, c);
    }
  }

  /** `relativePath(path)`: the first occurrence of the notes root removed. */
  function RelativePath(path: string, ws: string): string
  {
    Strings.ReplaceFirst(path, ws)
  }

  /** The relative path recorded for an entry below the notes root joins back to the entry. */
  lemma RelativePathResolves(root: Path, p: Path)
    requires WellFormed(p) && IsPrefix(root, p)
    ensures JoinText(Format(root), RelativePath(Format(p), Format(root))) == p
  {
    var rest := p[|root|..];
    assert p == root + rest;
    assert WellFormed(root) && WellFormed(rest) by {
      assert forall i :: 0 <= i < |root| ==> root[i] == p[i];
      assert forall i :: 0 <= i < |rest| ==> rest[i] == p[|root| + i];
    }
    FormatParse(root);
    if root == [] {
      assert Format(p) == Format(root) + Strings.Join(rest, '/');
      StripPrefix(Format(root), Strings.Join(rest, '/'));
      NormalizeText(root, rest);
    } else if rest == [] {
      assert p == root;
      assert Format(p) == Format(root) + "";
      StripPrefix(Format(root), "");
      SplitEmpty('/');
      assert Normalize(root, [""]) == Normalize(Step(root, ""), []);
    } else {
      FormatAppend(root, rest);
      StripPrefix(Format(root), "/" + Strings.Join(rest, '/'));
      NormalizeSlashText(root, rest);
    }
  }

  /** Removing the first occurrence of a prefix leaves what follows it. */
  lemma StripPrefix(a: string, b: string)
    ensures RelativePath(a + b, a) == b
  {
    assert (a + b)[..|a|] == a;
    assert (a + b)[|a|..] == b;
  }

  /** The `fsPath` of a path below a non-root directory is the directory's, a slash, and the rest. */
  lemma FormatAppend(root: Path, rest: Path)
    requires root != [] && rest != []
    ensures Format(root + rest) == Format(root) + ("/" + Strings.Join(rest, '/'))
  {
    Strings.JoinConcat(root, rest, '/');
  }

  /** Joining the text of plain names onto a directory appends them. */
  lemma NormalizeText(root: Path, rest: Path)
    requires WellFormed(rest)
    ensures Normalize(root, Strings.Split(Strings.Join(rest, '/'), '/')) == root + rest
  {
    if rest == [] {
      SplitEmpty('/');
      assert Normalize(root, [""]) == Normalize(Step(root, ""), []);
    } else {
      Strings.SplitJoin(rest, '/');
      NormalizeNames(root, rest);
    }
  }

  /** The same with a leading slash, which normalisation drops. */
  lemma NormalizeSlashText(root: Path, rest: Path)
    requires WellFormed(rest) && rest != []
    ensures Normalize(root, Strings.Split("/" + Strings.Join(rest, '/'), '/')) == root + rest
  {
    assert "/" + Strings.Join(rest, '/') == [] + ['/'] + Strings.Join(rest, '/');
    Strings.SplitConcat([], Strings.Join(rest, '/'), '/');
    SplitEmpty('/');
    Strings.SplitJoin(rest, '/');
    assert Strings.Split("/" + Strings.Join(rest, '/'), '/') == [""] + rest;
    NormalizeConcat(root, [""], rest);
    assert Normalize(root, [""]) == Normalize(Step(root, ""), []);
    NormalizeNames(root, rest);
  }

  // ---------------------------------------------------------------------------------------------
  // The commands, as changes of the disk
  // ---------------------------------------------------------------------------------------------

  /** `cmdAdd`: append the path unless it is already a favourite. */
  function AddEffect(fs: FileSystem, ws: string, rel: string): FileSystem
  {
    match ReadFavourites(fs, ws)
    case None => fs
    case Some(l) => if IndexOf(l, rel) >= 0 then fs else Saved(fs, ws, l + [rel]).fs
  }

  /** Adding a path that is a favourite already, or when the read throws, changes nothing;
      otherwise the path is appended, dropped again if it names nothing. */
  lemma AddThenRead(fs: FileSystem, ws: string, rel: string)
    requires ws != "" && '\n' !in rel
    ensures ReadFavourites(fs, ws).None? ==> AddEffect(fs, ws, rel) == fs
    ensures ReadFavourites(fs, ws).Some? && rel in ReadFavourites(fs, ws).value ==> AddEffect(fs, ws, rel) == fs
    ensures var l := ReadFavourites(fs, ws);
      l.Some? && rel !in l.value && Saved(fs, ws, l.value + [rel]).error.None? ==>
        ReadFavourites(AddEffect(fs, ws, rel), ws) == Some(if Kept(fs, ws, rel) then l.value + [rel] else l.value)
  {
    var r := ReadFavourites(fs, ws);
    if r.Some? && rel !in r.value {
      var l := r.value;
      var m := l + [rel];
      AddSaves(fs, ws, rel, l);
      if Saved(fs, ws, m).error.None? {
        assert forall k :: 0 <= k < |m| ==> '\n' !in m[k];
        ReadAfterSave(fs, ws, m);
        CheckAppend(fs, ws, l, rel);
      }
    }
  }

  /** Checking a checked list with one more line keeps the list and the line if it survives. */
  lemma CheckAppend(fs: FileSystem, ws: string, l: seq<string>, rel: string)
    requires forall k :: 0 <= k < |l| ==> Kept(fs, ws, l[k])
    ensures Check(fs, ws, l + [rel]) == if Kept(fs, ws, rel) then l + [rel] else l
  {
    CheckConcat(fs, ws, l, [rel]);
    CheckAllKept(fs, ws, l);
    if Kept(fs, ws, rel) {
      CheckAllKept(fs, ws, [rel]);
    } else {
      assert Check(fs, ws, [rel]) == Check(fs, ws, []);
    }
  }

  /** `favourites.filter(e => relativePath !== e)`. */
  function Without(l: seq<string>, rel: string): (r: seq<string>)
    ensures |r| <= |l|
    decreases |l|
  {
    if l == [] then [] else Without(l[..|l| - 1], rel) + if l[|l| - 1] != rel then [l[|l| - 1]] else []
  }

  /** Removing drops every copy of the path and keeps every other line as often as before. */
  lemma {:induction false} WithoutCounts(l: seq<string>, rel: string)
    ensures forall e :: multiset(Without(l, rel))[e] == if e == rel then 0 else multiset(l)[e]
    decreases |l|
  {
    if l != [] {
      var init := l[..|l| - 1];
      assert l == init + [l[|l| - 1]];
      WithoutCounts(init, rel);
    }
  }

  /** The filter keeps the order of the lines. */
  lemma {:induction false} WithoutConcat(a: seq<string>, b: seq<string>, rel: string)
    ensures Without(a + b, rel) == Without(a, rel) + Without(b, rel)
    decreases |b|
  {
    if b == [] {
      assert a + b == a;
    } else {
      var init := b[..|b| - 1];
      assert (a + b)[..|a + b| - 1] == a + init;
      assert (a + b)[|a + b| - 1] == b[|b| - 1];
      WithoutConcat(a, init, rel);
    }
  }

  /** `cmdRemove`: save the favourites without the path. */
  function RemoveEffect(fs: FileSystem, ws: string, rel: string): FileSystem
  {
    match ReadFavourites(fs, ws)
    case None => fs
    case Some(l) => Saved(fs, ws, Without(l, rel)).fs
  }

  /** After a remove that saved, the path is no favourite and every other favourite stays,
      in its order. */
  lemma RemoveThenRead(fs: FileSystem, ws: string, rel: string)
    requires ws != ""
    ensures ReadFavourites(fs, ws).None? ==> RemoveEffect(fs, ws, rel) == fs
    ensures var l := ReadFavourites(fs, ws);
      l.Some? && Saved(fs, ws, Without(l.value, rel)).error.None? ==>
        && ReadFavourites(RemoveEffect(fs, ws, rel), ws) == Some(Without(l.value, rel))
        && rel !in Without(l.value, rel)
        && forall e :: e in l.value && e != rel ==> e in Without(l.value, rel)
  {
    var r := ReadFavourites(fs, ws);
    if r.Some? {
      var l := r.value;
      var m := Without(l, rel);
      RemoveSaves(fs, ws, rel, l);
      if Saved(fs, ws, m).error.None? {
        RemovedKept(fs, ws, l, rel);
        ReadAfterSave(fs, ws, m);
      }
    }
  }

  /** Dropping a path from checked favourites leaves checked favourites: all the others. */
  lemma RemovedKept(fs: FileSystem, ws: string, l: seq<string>, rel: string)
    requires forall k :: 0 <= k < |l| ==> Kept(fs, ws, l[k]) && '\n' !in l[k]
    ensures var m := Without(l, rel);
      && (forall k :: 0 <= k < |m| ==> '\n' !in m[k])
      && Check(fs, ws, m) == m
      && rel !in m
      && forall e :: e in l && e != rel ==> e in m
  {
    var m := Without(l, rel);
    WithoutFrom(l, rel);
    assert forall k :: 0 <= k < |m| ==> '\n' !in m[k] && Kept(fs, ws, m[k]) by {
      forall k | 0 <= k < |m| ensures '\n' !in m[k] && Kept(fs, ws, m[k]) {
        var j :| 0 <= j < |l| && l[j] == m[k];
      }
    }
    CheckAllKept(fs, ws, m);
    WithoutKeepsOthers(l, rel);
  }

  /** Every line left after removing comes from the input. */
  lemma WithoutFrom(l: seq<string>, rel: string)
    ensures forall k :: 0 <= k < |Without(l, rel)| ==> Without(l, rel)[k] in l
  {
    var m := Without(l, rel);
    WithoutCounts(l, rel);
    forall k | 0 <= k < |m| ensures m[k] in l {
      assert multiset(m)[m[k]] > 0;
    }
  }

  lemma WithoutKeepsOthers(l: seq<string>, rel: string)
    ensures rel !in Without(l, rel)
    ensures forall e :: e in l && e != rel ==> e in Without(l, rel)
  {
    var m := Without(l, rel);
    WithoutCounts(l, rel);
    assert multiset(m)[rel] == 0;
    forall e | e in l && e != rel ensures e in m {
      assert multiset(m)[e] == multiset(l)[e];
    }
  }

  /** `cmdMoveUp`: the `findIndex` position of the path decides what is saved. */
  function MoveUpEffect(fs: FileSystem, ws: string, rel: string): FileSystem
  {
    match ReadFavourites(fs, ws)
    case None => fs
    case Some(l) =>
      match MoveUpAt(l, IndexOf(l, rel), rel)
      case None => fs
      case Some(m) => Saved(fs, ws, m).fs
  }

  /** `cmdMoveDown`. */
  function MoveDownEffect(fs: FileSystem, ws: string, rel: string): FileSystem
  {
    match ReadFavourites(fs, ws)
    case None => fs
    case Some(l) =>
      match MoveDownAt(l, IndexOf(l, rel), rel)
      case None => fs
      case Some(m) => Saved(fs, ws, m).fs
  }

  // What each command saves, given the favourites it read.

  lemma AddSaves(fs: FileSystem, ws: string, rel: string, l: seq<string>)
    requires ReadFavourites(fs, ws) == Some(l) && rel !in l
    ensures AddEffect(fs, ws, rel) == Saved(fs, ws, l + [rel]).fs
  {
  }

  lemma RemoveSaves(fs: FileSystem, ws: string, rel: string, l: seq<string>)
    requires ReadFavourites(fs, ws) == Some(l)
    ensures RemoveEffect(fs, ws, rel) == Saved(fs, ws, Without(l, rel)).fs
  {
  }

  lemma MoveUpSwapSaves(fs: FileSystem, ws: string, rel: string, l: seq<string>, i: nat)
    requires ReadFavourites(fs, ws) == Some(l) && i == IndexOf(l, rel) && 0 < i
    ensures MoveUpEffect(fs, ws, rel) == Saved(fs, ws, Swap(l, i - 1, i)).fs
  {
    MoveUpAtFound(l, rel, i);
  }

  /** Moving up the first favourite changes nothing. */
  lemma MoveUpFirstUnchanged(fs: FileSystem, ws: string, rel: string, l: seq<string>)
    requires ReadFavourites(fs, ws) == Some(l) && IndexOf(l, rel) == 0
    ensures MoveUpEffect(fs, ws, rel) == fs
  {
  }

  lemma MoveUpMissingSaves(fs: FileSystem, ws: string, rel: string, l: seq<string>)
    requires ReadFavourites(fs, ws) == Some(l) && IndexOf(l, rel) == -1
    ensures MoveUpEffect(fs, ws, rel) == Saved(fs, ws, l).fs
  {
  }

  lemma MoveDownSwapSaves(fs: FileSystem, ws: string, rel: string, l: seq<string>, i: nat)
    requires ReadFavourites(fs, ws) == Some(l) && i == IndexOf(l, rel) && i < |l| - 1
    ensures MoveDownEffect(fs, ws, rel) == Saved(fs, ws, Swap(l, i, i + 1)).fs
  {
    MoveDownAtFound(l, rel, i);
  }

  /** Moving down the last favourite changes nothing. */
  lemma MoveDownLastUnchanged(fs: FileSystem, ws: string, rel: string, l: seq<string>)
    requires ReadFavourites(fs, ws) == Some(l) && IndexOf(l, rel) == |l| - 1
    ensures MoveDownEffect(fs, ws, rel) == fs
  {
  }

  lemma MoveDownMissingSaves(fs: FileSystem, ws: string, rel: string, l: seq<string>)
    requires ReadFavourites(fs, ws) == Some(l) && IndexOf(l, rel) == -1 && |l| > 0
    ensures MoveDownEffect(fs, ws, rel) == Saved(fs, ws, l[0 := rel]).fs
  {
  }

  /** An exchange of two favourites, once saved, reads back as the exchanged list. */
  lemma SwapThenRead(fs: FileSystem, ws: string, l: seq<string>, i: nat, j: nat)
    requires ws != "" && ReadFavourites(fs, ws) == Some(l) && i < |l| && j < |l|
    requires Saved(fs, ws, Swap(l, i, j)).error.None?
    ensures ReadFavourites(Saved(fs, ws, Swap(l, i, j)).fs, ws) == Some(Swap(l, i, j))
  {
    var m := Swap(l, i, j);
    assert forall k :: 0 <= k < |m| ==> '\n' !in m[k] && Kept(fs, ws, m[k]) by {
      forall k | 0 <= k < |m| ensures '\n' !in m[k] && Kept(fs, ws, m[k]) {
        if k != i && k != j {
          assert m[k] == l[k];
        }
      }
    }
    ReadAfterSave(fs, ws, m);
    CheckAllKept(fs, ws, m);
  }

  /** Moving up a favourite past the first place exchanges it with its predecessor. */
  lemma MoveUpSwapThenRead(fs: FileSystem, ws: string, rel: string, l: seq<string>, i: nat)
    requires ws != "" && ReadFavourites(fs, ws) == Some(l)
    requires i == IndexOf(l, rel) && 0 < i
    ensures Saved(fs, ws, Swap(l, i - 1, i)).error.None? ==>
      ReadFavourites(MoveUpEffect(fs, ws, rel), ws) == Some(Swap(l, i - 1, i))
  {
    MoveUpSwapSaves(fs, ws, rel, l, i);
    if Saved(fs, ws, Swap(l, i - 1, i)).error.None? {
      SwapThenRead(fs, ws, l, i - 1, i);
    }
  }

  /** Moving up a path that is no favourite saves the favourites unchanged. */
  lemma MoveUpAbsentThenRead(fs: FileSystem, ws: string, rel: string, l: seq<string>)
    requires ws != "" && ReadFavourites(fs, ws) == Some(l)
    requires IndexOf(l, rel) == -1
    ensures Saved(fs, ws, l).error.None? ==> ReadFavourites(MoveUpEffect(fs, ws, rel), ws) == Some(l)
  {
    MoveUpMissingSaves(fs, ws, rel, l);
    if Saved(fs, ws, l).error.None? {
      ReadAfterSave(fs, ws, l);
      CheckAllKept(fs, ws, l);
    }
  }

  /** Moving down a favourite before the last place exchanges it with its successor. */
  lemma MoveDownSwapThenRead(fs: FileSystem, ws: string, rel: string, l: seq<string>, i: nat)
    requires ws != "" && ReadFavourites(fs, ws) == Some(l)
    requires i == IndexOf(l, rel) && i < |l| - 1
    ensures Saved(fs, ws, Swap(l, i, i + 1)).error.None? ==>
      ReadFavourites(MoveDownEffect(fs, ws, rel), ws) == Some(Swap(l, i, i + 1))
  {
    MoveDownSwapSaves(fs, ws, rel, l, i);
    if Saved(fs, ws, Swap(l, i, i + 1)).error.None? {
      SwapThenRead(fs, ws, l, i, i + 1);
    }
  }

  /** Moving down a path that is no favourite puts it in the place of the first favourite,
      which is lost; the path itself stays only if it names something. */
  lemma MoveDownAbsentThenRead(fs: FileSystem, ws: string, rel: string, l: seq<string>)
    requires ws != "" && ReadFavourites(fs, ws) == Some(l) && '\n' !in rel
    requires IndexOf(l, rel) == -1 && |l| > 0
    ensures Saved(fs, ws, l[0 := rel]).error.None? ==>
      ReadFavourites(MoveDownEffect(fs, ws, rel), ws) == Some(if Kept(fs, ws, rel) then l[0 := rel] else l[1..])
  {
    var m := l[0 := rel];
    MoveDownMissingSaves(fs, ws, rel, l);
    if Saved(fs, ws, m).error.None? {
      assert forall k :: 0 <= k < |m| ==> '\n' !in m[k];
      ReadAfterSave(fs, ws, m);
      FirstReplacedCheck(fs, ws, rel, l);
    }
  }

  /** Checking the favourites with the first replaced by `rel`. */
  lemma FirstReplacedCheck(fs: FileSystem, ws: string, rel: string, l: seq<string>)
    requires forall k :: 0 <= k < |l| ==> Kept(fs, ws, l[k])
    requires |l| > 0
    ensures Check(fs, ws, l[0 := rel]) == if Kept(fs, ws, rel) then l[0 := rel] else l[1..]
  {
    assert l[0 := rel] == [rel] + l[1..];
    CheckConcat(fs, ws, [rel], l[1..]);
    assert forall k :: 0 <= k < |l[1..]| ==> Kept(fs, ws, l[1..][k]) by {
      forall k | 0 <= k < |l[1..]| ensures Kept(fs, ws, l[1..][k]) {
        assert l[1..][k] == l[k + 1];
      }
    }
    CheckAllKept(fs, ws, l[1..]);
    if Kept(fs, ws, rel) {
      CheckAllKept(fs, ws, [rel]);
    } else {
      assert Check(fs, ws, [rel]) == Check(fs, ws, []);
    }
  }

  // ---------------------------------------------------------------------------------------------
  // The tree of favourites
  // ---------------------------------------------------------------------------------------------

  /** The loop of `favouriteList`: one entry per favourite that `stat` finds, in order. */
  function StatEach(fs: FileSystem, ws: string, favs: seq<string>): (r: seq<Entry>)
    ensures |r| <= |favs|
    ensures forall k :: 0 <= k < |r| ==>
      && r[k].path == JoinText(ws, r[k].name) && Resolves(fs, ws, r[k].name)
      && r[k].kind == StatType(fs[r[k].path].stats)
    decreases |favs|
  {
    if favs == [] then []
    else
      var child := favs[|favs| - 1];
      var p := JoinText(ws, child);
      StatEach(fs, ws, favs[..|favs| - 1]) + (if Resolves(fs, ws, child) then [Entry(child, p, StatType(fs[p].stats))] else [])
  }

  /** When every favourite exists, each has its entry, in the favourites' order. */
  lemma {:induction false} StatEachPresent(fs: FileSystem, ws: string, favs: seq<string>)
    requires forall k :: 0 <= k < |favs| ==> Resolves(fs, ws, favs[k])
    ensures |StatEach(fs, ws, favs)| == |favs|
    ensures forall k :: 0 <= k < |favs| ==> StatEach(fs, ws, favs)[k].name == favs[k]
    decreases |favs|
  {
    if favs != [] {
      var init := favs[..|favs| - 1];
      assert forall k :: 0 <= k < |init| ==> init[k] == favs[k];
      StatEachPresent(fs, ws, init);
    }
  }

  /** The entries `favouriteList` returns. */
  function FavouriteEntries(fs: FileSystem, ws: string): seq<Entry>
  {
    if ws == "" || FavouritePath(ws) !in fs then []
    else match ReadFavourites(fs, ws)
      case None => []
      case Some(favs) => StatEach(fs, ws, favs)
  }

  /** The disk after `favouriteList`, which saves the favourites it read. */
  function FavouriteListSave(fs: FileSystem, ws: string): FileSystem
  {
    if ws == "" || FavouritePath(ws) !in fs then fs
    else match ReadFavourites(fs, ws)
      case None => fs
      case Some(favs) => Saved(fs, ws, favs).fs
  }

  /** The tree shows exactly the favourites, each at its place below the notes root, and the
      save that comes with it leaves the favourites as they read. */
  lemma FavouriteListShape(fs: FileSystem, ws: string)
    ensures var e := FavouriteEntries(fs, ws);
      ReadFavourites(fs, ws).Some? && ws != "" && FavouritePath(ws) in fs ==>
        var favs := ReadFavourites(fs, ws).value;
        && |e| == |favs|
        && (forall k :: 0 <= k < |e| ==> e[k].name == favs[k] && e[k].path == JoinText(ws, favs[k]))
        && (Saved(fs, ws, favs).error.None? ==> ReadFavourites(FavouriteListSave(fs, ws), ws) == Some(favs))
  {
    var r := ReadFavourites(fs, ws);
    if r.Some? && ws != "" && FavouritePath(ws) in fs {
      var favs := r.value;
      StatEachPresent(fs, ws, favs);
      if Saved(fs, ws, favs).error.None? {
        ReadAfterSave(fs, ws, favs);
        CheckAllKept(fs, ws, favs);
      }
    }
  }

  /** The body of `cmdMoveUp` between reading and saving: `findIndex`, then the two
      assignments on the array in place; `None` where it returns early. */
  method RaiseAmong(l: seq<string>, rel: string) returns (moved: Option<seq<string>>)
    ensures moved == MoveUpAt(l, IndexOf(l, rel), rel)
  {
    var children := new string[|l|](k requires 0 <= k < |l| => l[k]);
    assert children[..] == l;
    var matches := (e: string) => e == rel;
    var index := FindFirst(children, matches);
    assert forall k :: 0 <= k < children.Length ==> matches(children[k]) == (l[k] == rel);
    FirstPositionIsIndexOf(l, rel, index);
    if index == 0 {
      return None;
    }
    if index > 0 {
      children[index] := children[index - 1];
      children[index - 1] := rel;
    }
    moved := Some(children[..]);
  }

  /** The body of `cmdMoveDown` between reading and saving. */
  method LowerAmong(l: seq<string>, rel: string) returns (moved: Option<seq<string>>)
    ensures moved == MoveDownAt(l, IndexOf(l, rel), rel)
  {
    var children := new string[|l|](k requires 0 <= k < |l| => l[k]);
    assert children[..] == l;
    var matches := (e: string) => e == rel;
    var index := FindFirst(children, matches);
    assert forall k :: 0 <= k < children.Length ==> matches(children[k]) == (l[k] == rel);
    FirstPositionIsIndexOf(l, rel, index);
    if index == children.Length - 1 {
      return None;
    }
    if index >= 0 {
      children[index] := children[index + 1];
      children[index + 1] := rel;
    } else {
      children[0] := rel;
    }
    moved := Some(children[..]);
  }

  lemma MoveUpSaves(fs: FileSystem, ws: string, rel: string, l: seq<string>)
    requires ReadFavourites(fs, ws) == Some(l)
    ensures var moved := MoveUpAt(l, IndexOf(l, rel), rel);
      MoveUpEffect(fs, ws, rel) == if moved.Some? then Saved(fs, ws, moved.value).fs else fs
  {
  }

  lemma MoveDownSaves(fs: FileSystem, ws: string, rel: string, l: seq<string>)
    requires ReadFavourites(fs, ws) == Some(l)
    ensures var moved := MoveDownAt(l, IndexOf(l, rel), rel);
      MoveDownEffect(fs, ws, rel) == if moved.Some? then Saved(fs, ws, moved.value).fs else fs
  {
  }

  // ---------------------------------------------------------------------------------------------
  // The view
  // ---------------------------------------------------------------------------------------------

  /** The favourites view over the disk and the notes root `Config.location`. */
  class FavouriteView {
    const disk: Disk
    const location: string

    constructor (disk: Disk, location: string)
      ensures this.disk == disk && this.location == location
    {
      this.disk := disk;
      this.location := location;
    }

    /** `saveFavourites(list)`; the write is not awaited, so its failure reaches nobody. */
    method SaveFavourites(list: seq<string>)
      modifies disk
      ensures disk.entries == Saved(old(disk.entries), location, list).fs
    {
      if location != "" {
        var ignored := disk.Write(FavouritePath(location), Strings.Join(Check(disk.entries, location, list), '\n'));
      }
    }

    /** `cmdAdd([entry])`. */
    method CmdAdd(entry: Entry)
      modifies disk
      ensures disk.entries == AddEffect(old(disk.entries), location, RelativePath(Format(entry.path), location))
    {
      var rel := RelativePath(Format(entry.path), location);
      var favourites := ReadFavourites(disk.entries, location);
      if favourites.None? {
        return;
      }
      if IndexOf(favourites.value, rel) >= 0 {
        return;
      }
      SaveFavourites(favourites.value + [rel]);
    }

    /** `cmdRemove([entry])`. */
    method CmdRemove(entry: Entry)
      modifies disk
      ensures disk.entries == RemoveEffect(old(disk.entries), location, RelativePath(Format(entry.path), location))
    {
      var rel := RelativePath(Format(entry.path), location);
      var favourites := ReadFavourites(disk.entries, location);
      if favourites.None? {
        return;
      }
      SaveFavourites(Without(favourites.value, rel));
    }

    /** `cmdMoveUp([entry])`: `findIndex`, then the two assignments in place. */
    method CmdMoveUp(entry: Entry)
      modifies disk
      ensures disk.entries == MoveUpEffect(old(disk.entries), location, RelativePath(Format(entry.path), location))
    {
      var rel := RelativePath(Format(entry.path), location);
      var favourites := ReadFavourites(disk.entries, location);
      if favourites.None? {
        return;
      }
      var moved := RaiseAmong(favourites.value, rel);
      MoveUpSaves(disk.entries, location, rel, favourites.value);
      if moved.Some? {
        SaveFavourites(moved.value);
      }
    }

    /** `cmdMoveDown([entry])`. */
    method CmdMoveDown(entry: Entry)
      modifies disk
      ensures disk.entries == MoveDownEffect(old(disk.entries), location, RelativePath(Format(entry.path), location))
    {
      var rel := RelativePath(Format(entry.path), location);
      var favourites := ReadFavourites(disk.entries, location);
      if favourites.None? {
        return;
      }
      var moved := LowerAmong(favourites.value, rel);
      MoveDownSaves(disk.entries, location, rel, favourites.value);
      if moved.Some? {
        SaveFavourites(moved.value);
      }
    }

    /** `favouriteList()`: stat each favourite, skip those `stat` cannot find, save. */
    method FavouriteList() returns (lists: seq<Entry>)
      modifies disk
      ensures lists == FavouriteEntries(old(disk.entries), location)
      ensures disk.entries == FavouriteListSave(old(disk.entries), location)
    {
      if location == "" || FavouritePath(location) !in disk.entries {
        return [];
      }
      var read := ReadFavourites(disk.entries, location);
      if read.None? {
        return [];
      }
      var favourites := read.value;
      lists := [];
      var i := 0;
      while i < |favourites|
        invariant 0 <= i <= |favourites|
        invariant lists == StatEach(disk.entries, location, favourites[..i])
      {
        var child := favourites[i];
        var p := JoinText(location, child);
        assert favourites[..i + 1][..i] == favourites[..i];
        if p in disk.entries && (|child| > 0 && child[|child| - 1] == '/' ==> disk.entries[p].stats.isDirectory) {
          lists := lists + [Entry(child, p, StatType(disk.entries[p].stats))];
        }
        i := i + 1;
      }
      assert favourites[..i] == favourites;
      SaveFavourites(favourites);
    }
  }
}
