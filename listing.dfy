/**
 * The listing engine of src/file.ts: `FM.listDir` stats every child of a directory, drops the
 * reserved names, and sorts the rest by the directory's `.sort` record, the entry type and the
 * name; `parseTreeList` applies the same filter and comparator to (name, type) pairs.
 */
module Listings {
  import opened Common
  import opened Lists
  import Strings
  import opened Paths
  import opened Files

  /** One listed child: its name, its path and the type `FileStat.type` gives it. */
  datatype Entry = Entry(name: string, path: Path, kind: FileType)

  /** `IGNORES`: names a listing never shows. */
  const Ignores: seq<string> := [".git", ".DS_Store", ".sort", ".favourite"]

  /** `IGNORES.indexOf(name) < 0`. */
  predicate Visible(e: Entry)
  {
    IndexOf(Ignores, e.name) < 0
  }

  /** `path.join(dir, '.sort')`. */
  function SortPath(dir: Path): Path
  {
    Join(dir, ".sort")
  }

  /** `_sorts` and `sortRules`: the lines of the `.sort` record, or none when the record cannot
      be read. (`_sorts` asks `exists` first, but a missing file fails the read just the same.) */
  function ReadOrder(fs: FileSystem, dir: Path): (order: seq<string>)
    ensures ReadText(fs, SortPath(dir)).None? ==> order == []
    ensures ReadText(fs, SortPath(dir)).Some? ==>
      && Strings.Join(order, '\n') == ReadText(fs, SortPath(dir)).value
      && forall i :: 0 <= i < |order| ==> '\n' !in order[i]
  {
    match ReadText(fs, SortPath(dir))
    case None => []
    case Some(text) =>
      Strings.JoinSplit(text, '\n');
      Strings.Split(text, '\n')
  }

  // ---------------------------------------------------------------------------------------------
  // The comparator
  // ---------------------------------------------------------------------------------------------

  predicate InRecord(order: seq<string>, e: Entry)
  {
    e.name in order
  }

  /** The comparator of `FM.sorts` and `parseTreeList`. */
  function Compare(order: seq<string>, a: Entry, b: Entry): int
  {
    var ai := IndexOf(order, a.name);
    var bi := IndexOf(order, b.name);
    if ai >= 0 && bi >= 0 then (if ai > bi then 1 else -1)
    else if ai >= 0 || bi >= 0 then (if ai > bi then -1 else 1)
    else if a.kind == b.kind then Strings.LocaleCompare(a.name, b.name)
    else if a.kind == Directory then -1
    else 1
  }

  /** The pairs the comparator orders the same way whichever argument comes first: a recorded
      name before an unrecorded one, recorded names by position in the record, and among
      unrecorded names a directory before a non-directory and same-type names by name. */
  predicate MustPrecede(order: seq<string>, a: Entry, b: Entry)
  {
    var ai := IndexOf(order, a.name);
    var bi := IndexOf(order, b.name);
    if ai >= 0 && bi >= 0 then ai < bi
    else if ai >= 0 || bi >= 0 then ai >= 0
    else (a.kind == Directory && b.kind != Directory) || (a.kind == b.kind && Strings.Less(a.name, b.name))
  }

  /** The comparator agrees with `MustPrecede` in both argument orders. */
  lemma CompareRespectsPrecedence(order: seq<string>, a: Entry, b: Entry)
    ensures MustPrecede(order, a, b) ==> Compare(order, a, b) < 0
    ensures MustPrecede(order, b, a) ==> Compare(order, a, b) > 0
  {
  }

  /** Where `MustPrecede` places `b` before `a` and the comparator places `a` before `c`,
      `MustPrecede` places `b` before `c`. */
  lemma PrecedenceThroughCompare(order: seq<string>, a: Entry, b: Entry, c: Entry)
    requires Compare(order, a, c) < 0
    ensures MustPrecede(order, b, a) ==> MustPrecede(order, b, c)
  {
    if IndexOf(order, b.name) < 0 && IndexOf(order, a.name) < 0 && IndexOf(order, c.name) < 0
       && a.kind == c.kind && b.kind == a.kind && Strings.Less(b.name, a.name)
    {
      Strings.LessTransitive(b.name, a.name, c.name);
    }
  }

  /** The one case the comparator handles inconsistently: two unrecorded entries of different
      types, neither a directory, each compare greater than the other. */
  lemma ComparatorInconsistentCase(order: seq<string>, a: Entry, b: Entry)
    requires !InRecord(order, a) && !InRecord(order, b)
    requires a.kind != b.kind && a.kind != Directory && b.kind != Directory
    ensures Compare(order, a, b) == 1 && Compare(order, b, a) == 1
    ensures !MustPrecede(order, a, b) && !MustPrecede(order, b, a)
  {
  }

  /** No later entry must come before an earlier one. */
  predicate Sorted(order: seq<string>, s: seq<Entry>)
  {
    forall i, j :: 0 <= i < j < |s| ==> !MustPrecede(order, s[j], s[i])
  }

  /** Two unrecorded entries of different types, neither a directory: the pair the comparator
      orders inconsistently. */
  predicate KindsClash(order: seq<string>, a: Entry, b: Entry)
  {
    !InRecord(order, a) && !InRecord(order, b) && a.kind != b.kind && a.kind != Directory && b.kind != Directory
  }

  /** The comparator orders every two positions of `s` one way, whichever argument comes first;
      only on such lists does a sort have a single correct result. */
  predicate Consistent(order: seq<string>, s: seq<Entry>)
  {
    forall i, j :: 0 <= i < j < |s| ==> MustPrecede(order, s[i], s[j]) || MustPrecede(order, s[j], s[i])
  }

  // ---------------------------------------------------------------------------------------------
  // Sorting
  // ---------------------------------------------------------------------------------------------

  /** Insertion of `x` before the first entry the comparator places after it. */
  function Insert(order: seq<string>, x: Entry, s: seq<Entry>): (r: seq<Entry>)
    ensures multiset(r) == multiset(s) + multiset{x}
    decreases |s|
  {
    if |s| == 0 then [x]
    else if Compare(order, x, s[0]) < 0 then [x] + s
    else
      assert s == [s[0]] + s[1..];
      [s[0]] + Insert(order, x, s[1..])
  }

  lemma {:induction false} InsertSorted(order: seq<string>, x: Entry, s: seq<Entry>)
    requires Sorted(order, s)
    ensures Sorted(order, Insert(order, x, s))
    decreases |s|
  {
    if |s| == 0 {
    } else if Compare(order, x, s[0]) < 0 {
      var r := [x] + s;
      forall i, j | 0 <= i < j < |r| ensures !MustPrecede(order, r[j], r[i]) {
        if i == 0 {
          CompareRespectsPrecedence(order, x, s[0]);
          if j > 1 {
            assert r[j] == s[j - 1];
            assert !MustPrecede(order, r[j], s[0]);
            PrecedenceThroughCompare(order, x, r[j], s[0]);
          }
        } else {
          assert r[i] == s[i - 1] && r[j] == s[j - 1];
        }
      }
    } else {
      var t := Insert(order, x, s[1..]);
      assert Sorted(order, s[1..]) by {
        forall i, j | 0 <= i < j < |s[1..]| ensures !MustPrecede(order, s[1..][j], s[1..][i]) {
          assert s[1..][i] == s[i + 1] && s[1..][j] == s[j + 1];
        }
      }
      InsertSorted(order, x, s[1..]);
      var r := [s[0]] + t;
      forall i, j | 0 <= i < j < |r| ensures !MustPrecede(order, r[j], r[i]) {
        if i == 0 {
          assert r[j] in multiset(s[1..]) + multiset{x} by {
            assert r[j] == t[j - 1];
          }
          if r[j] == x {
            CompareRespectsPrecedence(order, x, s[0]);
          } else {
            assert r[j] in s[1..];
            var k :| 0 <= k < |s[1..]| && s[1..][k] == r[j];
            assert s[k + 1] == r[j];
          }
        } else {
          assert r[i] == t[i - 1] && r[j] == t[j - 1];
        }
      }
    }
  }

  /** A stable insertion sort by the comparator. */
  function SortEntries(order: seq<string>, s: seq<Entry>): (r: seq<Entry>)
    ensures multiset(r) == multiset(s)
    ensures Sorted(order, r)
    decreases |s|
  {
    if |s| == 0 then []
    else
      var t := SortEntries(order, s[..|s| - 1]);
      InsertSorted(order, s[|s| - 1], t);
      assert s == s[..|s| - 1] + [s[|s| - 1]];
      Insert(order, s[|s| - 1], t)
  }

  /** The tiers of the comparator, as they show in a sorted list: recorded names first, in the
      order of the record; then, among unrecorded names, directories first and same-type names
      in name order. */
  lemma SortedTiers(order: seq<string>, s: seq<Entry>)
    requires Sorted(order, s)
    ensures forall i, j :: 0 <= i < j < |s| && InRecord(order, s[j]) ==> InRecord(order, s[i])
    ensures forall i, j :: 0 <= i < j < |s| && InRecord(order, s[i]) && InRecord(order, s[j]) ==>
      IndexOf(order, s[i].name) <= IndexOf(order, s[j].name)
    ensures forall i, j :: 0 <= i < j < |s| && !InRecord(order, s[i]) && !InRecord(order, s[j]) && s[j].kind == Directory ==>
      s[i].kind == Directory
    ensures forall i, j :: 0 <= i < j < |s| && !InRecord(order, s[i]) && !InRecord(order, s[j]) && s[i].kind == s[j].kind ==>
      !Strings.Less(s[j].name, s[i].name)
  {
    forall i, j | 0 <= i < j < |s| ensures !MustPrecede(order, s[j], s[i]) {
    }
  }

  /** `FM.sorts`: the entries with reserved names dropped, sorted by the comparator. Where the
      comparator is consistent on the visible entries, the result is sorted, and it is the only
      sorted arrangement (`SortsDetermined`). */
  function Sorts(order: seq<string>, items: seq<Entry>): (r: seq<Entry>)
    ensures forall i :: 0 <= i < |r| ==> r[i].name !in Ignores
    ensures multiset(r) == multiset(Filter(items, Visible))
    ensures Consistent(order, Filter(items, Visible)) ==> Sorted(order, r)
  {
    var visible := Filter(items, Visible);
    var r := SortEntries(order, visible);
    forall i | 0 <= i < |r| ensures r[i].name !in Ignores {
      assert r[i] in multiset(visible);
      var k :| 0 <= k < |visible| && visible[k] == r[i];
    }
    r
  }

  // ---------------------------------------------------------------------------------------------
  // listDir and parseTreeList
  // ---------------------------------------------------------------------------------------------

  /** Every child can be stat'ed. */
  predicate AllPresent(fs: FileSystem, dir: Path, children: seq<string>)
  {
    forall i :: 0 <= i < |children| ==> Join(dir, children[i]) in fs
  }

  /** A child as the loop of `listDir` records it. */
  function StatEntry(fs: FileSystem, dir: Path, name: string): Entry
    requires Join(dir, name) in fs
  {
    Entry(name, Join(dir, name), StatType(fs[Join(dir, name)].stats))
  }

  /** The entries the loop of `listDir` collects, in `readdir` order. */
  function Entries(fs: FileSystem, dir: Path, children: seq<string>): (r: seq<Entry>)
    requires AllPresent(fs, dir, children)
    ensures |r| == |children|
    ensures forall i :: 0 <= i < |r| ==> r[i].name == children[i] && r[i].path == Join(dir, children[i])
  {
    seq(|children|, i requires 0 <= i < |children| => StatEntry(fs, dir, children[i]))
  }

  /** What `FM.listDir(dir)` yields for the names `readdir` returned: a `stat` failure on a
      vanished child rejects the whole listing; otherwise the entries go through `FM.sorts`. */
  function Listing(fs: FileSystem, dir: Path, children: seq<string>): Result<seq<Entry>, FsError>
  {
    if AllPresent(fs, dir, children) then Success(Sorts(ReadOrder(fs, dir), Entries(fs, dir, children)))
    else Failure(MassageError(NoEntry))
  }

  /** A listing fails exactly when some child has vanished; otherwise it holds every visible
      child once, no reserved name, sorted by the directory's record. */
  lemma ListingProperties(fs: FileSystem, dir: Path, children: seq<string>)
    ensures var r := Listing(fs, dir, children);
      && (r.Failure? <==> exists i :: 0 <= i < |children| && Join(dir, children[i]) !in fs)
      && (r.Failure? ==> r.error == FileNotFound)
      && (r.Success? ==> forall k :: 0 <= k < |r.value| ==> r.value[k].name !in Ignores)
      && (r.Success? ==> multiset(r.value) == multiset(Filter(Entries(fs, dir, children), Visible)))
      && (r.Success? && Consistent(ReadOrder(fs, dir), Filter(Entries(fs, dir, children), Visible)) ==>
            Sorted(ReadOrder(fs, dir), r.value))
  {
  }

  /** `FM.listDir`: the loop that stats every child, then the sort. */
  method ListDir(disk: Disk, dir: Path, children: seq<string>) returns (r: Result<seq<Entry>, FsError>)
    ensures r == Listing(disk.entries, dir, children)
  {
    var res: seq<Entry> := [];
    var i := 0;
    while i < |children|
      invariant 0 <= i <= |children|
      invariant AllPresent(disk.entries, dir, children[..i])
      invariant res == Entries(disk.entries, dir, children[..i])
    {
      var p := Join(dir, children[i]);
      if p !in disk.entries {
        return Failure(MassageError(NoEntry));
      }
      res := res + [Entry(children[i], p, StatType(disk.entries[p].stats))];
      i := i + 1;
    }
    assert children[..i] == children;
    r := Success(Sorts(ReadOrder(disk.entries, dir), res));
  }

  /** The (name, type) pairs given to `parseTreeList`, as entries under `dir`. */
  function PairEntries(dir: Path, children: seq<(string, FileType)>): (r: seq<Entry>)
    ensures |r| == |children|
    ensures forall i :: 0 <= i < |r| ==> r[i] == Entry(children[i].0, Join(dir, children[i].0), children[i].1)
  {
    seq(|children|, i requires 0 <= i < |children| => Entry(children[i].0, Join(dir, children[i].0), children[i].1))
  }

  /** `parseTreeList`: the pairs with reserved names dropped, sorted by the record of `dir` with
      the same comparator, each located at `path.join(dir, name)`. The model attaches the path
      before sorting; the comparator reads only the name and the type, so the order is the same. */
  function ParseTreeList(fs: FileSystem, dir: Path, children: seq<(string, FileType)>): (r: seq<Entry>)
    ensures forall i :: 0 <= i < |r| ==> r[i].path == Join(dir, r[i].name) && r[i].name !in Ignores
    ensures multiset(r) == multiset(Filter(PairEntries(dir, children), Visible))
    ensures Consistent(ReadOrder(fs, dir), Filter(PairEntries(dir, children), Visible)) ==> Sorted(ReadOrder(fs, dir), r)
  {
    var items := PairEntries(dir, children);
    var r := Sorts(ReadOrder(fs, dir), items);
    forall i | 0 <= i < |r| ensures r[i].path == Join(dir, r[i].name) {
      assert r[i] in multiset(Filter(items, Visible));
      assert r[i] in items;
    }
    r
  }

  // ---------------------------------------------------------------------------------------------
  // A record that names every entry fixes the listing
  // ---------------------------------------------------------------------------------------------

  /** The names `readdir` returns for one directory: proper names without a line break, none
      twice. */
  predicate ValidChildren(children: seq<string>)
  {
    && (forall i :: 0 <= i < |children| ==> IsName(children[i]) && '\n' !in children[i])
    && (forall i, j :: 0 <= i < j < |children| ==> children[i] != children[j])
  }

  /** No two entries share a name. */
  predicate DistinctNames(s: seq<Entry>)
  {
    forall i, j :: 0 <= i < j < |s| ==> s[i].name != s[j].name
  }

  lemma CountTwo<T>(s: seq<T>, i: nat, j: nat)
    requires i < j < |s| && s[i] == s[j]
    ensures multiset(s)[s[i]] >= 2
  {
    assert s == s[..j] + [s[j]] + s[j + 1..];
    assert s[..j][i] == s[i];
  }

  lemma {:induction false} TwoPositions<T>(s: seq<T>, x: T)
    requires multiset(s)[x] >= 2
    ensures exists p, q :: 0 <= p < q < |s| && s[p] == x && s[q] == x
    decreases |s|
  {
    assert s == [s[0]] + s[1..];
    if s[0] == x {
      assert x in s[1..];
      var q :| 0 <= q < |s[1..]| && s[1..][q] == x;
      assert s[q + 1] == x;
    } else {
      TwoPositions(s[1..], x);
      var p, q :| 0 <= p < q < |s[1..]| && s[1..][p] == x && s[1..][q] == x;
      assert s[p + 1] == x && s[q + 1] == x;
    }
  }

  /** An entry of directory `dir` whose name is a proper child name. */
  predicate WellNamed(dir: Path, e: Entry)
  {
    e.path == Join(dir, e.name) && IsName(e.name) && '\n' !in e.name
  }

  /** Well-named entries stay well-named when taking a sub-multiset in any order. */
  lemma WellNamedSub(dir: Path, a: seq<Entry>, b: seq<Entry>)
    requires forall k :: 0 <= k < |a| ==> WellNamed(dir, a[k])
    requires multiset(b) <= multiset(a)
    ensures forall k :: 0 <= k < |b| ==> WellNamed(dir, b[k])
  {
    forall k | 0 <= k < |b| ensures WellNamed(dir, b[k]) {
      assert b[k] in multiset(a);
      var q :| 0 <= q < |a| && a[q] == b[k];
    }
  }

  /** Distinct names survive taking a sub-multiset in any order. */
  lemma DistinctNamesSub(a: seq<Entry>, b: seq<Entry>)
    requires DistinctNames(a) && multiset(b) <= multiset(a)
    ensures DistinctNames(b)
  {
    forall i, j | 0 <= i < j < |b| ensures b[i].name != b[j].name {
      assert b[i] in multiset(a) && b[j] in multiset(a);
      var p :| 0 <= p < |a| && a[p] == b[i];
      var q :| 0 <= q < |a| && a[q] == b[j];
      if b[i] == b[j] {
        CountTwo(b, i, j);
        TwoPositions(a, b[i]);
      }
    }
  }

  /** Every entry's name is in the record, at strictly increasing positions. */
  predicate FollowsRecord(order: seq<string>, s: seq<Entry>)
  {
    && (forall i :: 0 <= i < |s| ==> s[i].name in order)
    && (forall i, j :: 0 <= i < j < |s| ==> IndexOf(order, s[i].name) < IndexOf(order, s[j].name))
  }

  /** The first entry of a list that follows the record has the smallest position. */
  lemma FirstOfRecord(order: seq<string>, s: seq<Entry>)
    requires FollowsRecord(order, s) && |s| > 0
    ensures forall j :: 0 < j < |s| ==> IndexOf(order, s[0].name) < IndexOf(order, s[j].name)
  {
  }

  /** Two arrangements of the same entries that follow the record start alike. */
  lemma SameFirst(order: seq<string>, a: seq<Entry>, b: seq<Entry>)
    requires multiset(a) == multiset(b) && |a| > 0
    requires FollowsRecord(order, a) && FollowsRecord(order, b)
    ensures |b| > 0 && a[0] == b[0]
  {
    assert |a| == |multiset(a)| == |b|;
    assert a[0] in multiset(b) && b[0] in multiset(a);
    var k :| 0 <= k < |b| && b[k] == a[0];
    var m :| 0 <= m < |a| && a[m] == b[0];
    FirstOfRecord(order, a);
    FirstOfRecord(order, b);
    assert IndexOf(order, a[0].name) <= IndexOf(order, a[m].name);
    assert IndexOf(order, b[0].name) <= IndexOf(order, b[k].name);
    assert IndexOf(order, b[k].name) == IndexOf(order, b[0].name);
    assert k == 0;
  }

  lemma FollowsRecordTail(order: seq<string>, s: seq<Entry>)
    requires FollowsRecord(order, s) && |s| > 0
    ensures FollowsRecord(order, s[1..])
  {
    forall i, j | 0 <= i < j < |s[1..]| ensures IndexOf(order, s[1..][i].name) < IndexOf(order, s[1..][j].name) {
      assert s[1..][i] == s[i + 1] && s[1..][j] == s[j + 1];
    }
  }

  /** Two arrangements of the same entries that both follow the record are the same list. */
  lemma {:induction false} FollowsRecordUnique(order: seq<string>, a: seq<Entry>, b: seq<Entry>)
    requires multiset(a) == multiset(b)
    requires FollowsRecord(order, a) && FollowsRecord(order, b)
    ensures a == b
    decreases |a|
  {
    if |a| > 0 {
      SameFirst(order, a, b);
      MultisetTails(a, b);
      FollowsRecordTail(order, a);
      FollowsRecordTail(order, b);
      FollowsRecordUnique(order, a[1..], b[1..]);
    } else {
      assert |b| == |multiset(b)| == 0;
    }
  }

  /** A record that lists the entries' names, each once, in their order, is followed by them. */
  lemma RecordPositions(order: seq<string>, s: seq<Entry>)
    requires |order| == |s| && DistinctNames(s)
    requires forall k :: 0 <= k < |s| ==> order[k] == s[k].name
    ensures FollowsRecord(order, s)
  {
    forall k | 0 <= k < |s| ensures s[k].name in order && IndexOf(order, s[k].name) == k {
      assert order[k] == s[k].name;
    }
  }

  /** A sorted list of distinct, recorded names follows the record. */
  lemma SortedDistinctFollows(order: seq<string>, s: seq<Entry>)
    requires Sorted(order, s) && DistinctNames(s)
    requires forall k :: 0 <= k < |s| ==> s[k].name in order
    ensures FollowsRecord(order, s)
  {
    SortedTiers(order, s);
  }

  /** A successful listing of distinct proper names holds each child at `path.join(dir, name)`,
      with distinct names. */
  lemma ListingShape(fs: FileSystem, dir: Path, children: seq<string>)
    requires ValidChildren(children) && Listing(fs, dir, children).Success?
    ensures var l := Listing(fs, dir, children).value;
      && DistinctNames(l)
      && forall k :: 0 <= k < |l| ==> WellNamed(dir, l[k])
  {
    var items := Entries(fs, dir, children);
    var l := Listing(fs, dir, children).value;
    assert l == Sorts(ReadOrder(fs, dir), items);
    assert multiset(l) <= multiset(items) by {
      forall x ensures multiset(l)[x] <= multiset(items)[x] {
      }
    }
    DistinctNamesSub(items, l);
    assert forall k :: 0 <= k < |items| ==> WellNamed(dir, items[k]);
    WellNamedSub(dir, items, l);
  }

  lemma EntriesAppend(fs: FileSystem, dir: Path, children: seq<string>, name: string)
    requires AllPresent(fs, dir, children) && Join(dir, name) in fs
    ensures AllPresent(fs, dir, children + [name])
    ensures Entries(fs, dir, children + [name]) == Entries(fs, dir, children) + [StatEntry(fs, dir, name)]
  {
    var more := children + [name];
    assert forall i :: 0 <= i < |children| ==> more[i] == children[i];
    assert more[|children|] == name;
  }

  /** The sort sees only the visible entries. */
  lemma SortsByVisible(order: seq<string>, a: seq<Entry>, b: seq<Entry>)
    requires Filter(a, Visible) == Filter(b, Visible)
    ensures Sorts(order, a) == Sorts(order, b)
  {
  }

  /** Once the record exists, `readdir` also returns `.sort`; the listing drops it again, so
      listing the children with it added is listing them without it. */
  lemma ListingIgnoresSortFile(fs: FileSystem, dir: Path, children: seq<string>)
    requires SortPath(dir) in fs
    ensures Listing(fs, dir, children + [".sort"]) == Listing(fs, dir, children)
  {
    var more := children + [".sort"];
    assert AllPresent(fs, dir, more) <==> AllPresent(fs, dir, children) by {
      assert forall i :: 0 <= i < |children| ==> more[i] == children[i];
      assert more[|children|] == ".sort";
    }
    if AllPresent(fs, dir, children) {
      var items := Entries(fs, dir, children);
      var last := StatEntry(fs, dir, ".sort");
      EntriesAppend(fs, dir, children, ".sort");
      FilterConcat(items, [last], Visible);
      assert !Visible(last) by {
        assert Ignores[2] == ".sort";
      }
      assert Filter([last], Visible) == [];
      assert Filter(Entries(fs, dir, more), Visible) == Filter(items, Visible);
      SortsByVisible(ReadOrder(fs, dir), Entries(fs, dir, more), items);
    }
  }

  /** A write to the directory's `.sort` leaves the visible entries of a listing as they were. */
  lemma SortWriteKeepsVisible(fs: FileSystem, fs2: FileSystem, dir: Path, children: seq<string>)
    requires AllPresent(fs, dir, children)
    requires forall p :: p in fs ==> p in fs2
    requires forall p :: p in fs && p != SortPath(dir) ==> fs2[p] == fs[p]
    ensures AllPresent(fs2, dir, children)
    ensures Filter(Entries(fs2, dir, children), Visible) == Filter(Entries(fs, dir, children), Visible)
  {
    var items := Entries(fs, dir, children);
    var items2 := Entries(fs2, dir, children);
    forall k | 0 <= k < |children| && Visible(items[k]) ensures items[k] == items2[k] {
      assert children[k] != ".sort";
      if children[k] != "" {
        assert Join(dir, children[k])[|dir|] == children[k];
      }
    }
    FilterAgree(items, items2, Visible);
  }

  /** Sorting by a record that lists distinct names, in order, puts them in that order. */
  lemma SortsByFullRecord(order: seq<string>, items: seq<Entry>, m: seq<Entry>)
    requires multiset(Filter(items, Visible)) == multiset(m) && DistinctNames(m)
    requires |order| == |m| && forall k :: 0 <= k < |m| ==> order[k] == m[k].name
    ensures Sorts(order, items) == m
  {
    var r := Sorts(order, items);
    RecordPositions(order, m);
    RecordedConsistent(order, m);
    ConsistentPermutation(order, m, Filter(items, Visible));
    DistinctNamesSub(m, r);
    forall k | 0 <= k < |r| ensures r[k].name in order {
      assert r[k] in multiset(m);
      var q :| 0 <= q < |m| && m[q] == r[k];
      assert order[q] == r[k].name;
    }
    SortedDistinctFollows(order, r);
    FollowsRecordUnique(order, r, m);
  }
  // ---------------------------------------------------------------------------------------------
  // Where the comparator is consistent, the sorted order is unique
  // ---------------------------------------------------------------------------------------------

  /** No entry must precede itself. */
  lemma PrecedenceIrreflexive(order: seq<string>, a: Entry)
    ensures !MustPrecede(order, a, a)
  {
    Strings.LessIrreflexive(a.name);
  }

  /** Two entries with different names are ordered one way exactly when they do not clash. */
  lemma PrecedenceTotal(order: seq<string>, a: Entry, b: Entry)
    requires a.name != b.name
    ensures MustPrecede(order, a, b) || MustPrecede(order, b, a) <==> !KindsClash(order, a, b)
  {
    Strings.LessTotal(a.name, b.name);
  }

  /** A list of distinct names is consistent exactly when no two of its entries clash. */
  lemma ConsistentExactly(order: seq<string>, s: seq<Entry>)
    requires DistinctNames(s)
    ensures Consistent(order, s) <==> forall i, j :: 0 <= i < j < |s| ==> !KindsClash(order, s[i], s[j])
  {
    forall i, j | 0 <= i < j < |s|
      ensures MustPrecede(order, s[i], s[j]) || MustPrecede(order, s[j], s[i]) <==> !KindsClash(order, s[i], s[j])
    {
      PrecedenceTotal(order, s[i], s[j]);
    }
  }

  /** Distinct names that are all in the record are consistent. */
  lemma RecordedConsistent(order: seq<string>, s: seq<Entry>)
    requires DistinctNames(s) && forall k :: 0 <= k < |s| ==> s[k].name in order
    ensures Consistent(order, s)
  {
    ConsistentExactly(order, s);
  }

  /** Consistency is a property of the entries, not of their arrangement. */
  lemma ConsistentPermutation(order: seq<string>, a: seq<Entry>, b: seq<Entry>)
    requires multiset(a) == multiset(b) && Consistent(order, a)
    ensures Consistent(order, b)
  {
    forall i, j | 0 <= i < j < |b| ensures MustPrecede(order, b[i], b[j]) || MustPrecede(order, b[j], b[i]) {
      assert b[i] in multiset(a) && b[j] in multiset(a);
      var p :| 0 <= p < |a| && a[p] == b[i];
      var q :| 0 <= q < |a| && a[q] == b[j];
      if b[i] == b[j] {
        CountTwo(b, i, j);
        TwoPositions(a, b[i]);
        var p', q' :| 0 <= p' < q' < |a| && a[p'] == b[i] && a[q'] == b[i];
        PrecedenceIrreflexive(order, b[i]);
        assert false;
      }
      assert p != q;
    }
  }

  lemma SortedTail(order: seq<string>, s: seq<Entry>)
    requires Sorted(order, s) && |s| > 0
    ensures Sorted(order, s[1..])
  {
    forall i, j | 0 <= i < j < |s[1..]| ensures !MustPrecede(order, s[1..][j], s[1..][i]) {
      assert s[1..][i] == s[i + 1] && s[1..][j] == s[j + 1];
    }
  }

  lemma ConsistentTail(order: seq<string>, s: seq<Entry>)
    requires Consistent(order, s) && |s| > 0
    ensures Consistent(order, s[1..])
  {
    forall i, j | 0 <= i < j < |s[1..]|
      ensures MustPrecede(order, s[1..][i], s[1..][j]) || MustPrecede(order, s[1..][j], s[1..][i])
    {
      assert s[1..][i] == s[i + 1] && s[1..][j] == s[j + 1];
    }
  }

  /** Two sorted arrangements of the same consistent entries start alike. */
  lemma SortedSameFirst(order: seq<string>, a: seq<Entry>, b: seq<Entry>)
    requires multiset(a) == multiset(b) && |a| > 0
    requires Consistent(order, a) && Sorted(order, a) && Sorted(order, b)
    ensures |b| > 0 && a[0] == b[0]
  {
    assert |a| == |multiset(a)| == |b|;
    assert a[0] in multiset(b) && b[0] in multiset(a);
    var q :| 0 <= q < |b| && b[q] == a[0];
    var p :| 0 <= p < |a| && a[p] == b[0];
    if a[0] != b[0] {
      assert false;
    }
  }

  /** Two sorted arrangements of the same consistent entries are the same list. */
  lemma {:induction false} SortedUnique(order: seq<string>, a: seq<Entry>, b: seq<Entry>)
    requires multiset(a) == multiset(b)
    requires Consistent(order, a) && Sorted(order, a) && Sorted(order, b)
    ensures a == b
    decreases |a|
  {
    if |a| > 0 {
      SortedSameFirst(order, a, b);
      MultisetTails(a, b);
      SortedTail(order, a);
      SortedTail(order, b);
      ConsistentTail(order, a);
      SortedUnique(order, a[1..], b[1..]);
    } else {
      assert |b| == |multiset(b)| == 0;
    }
  }

  /** Any arrangement of the visible entries that a correct sort by the comparator may return is
      the model's result, whatever the sorting algorithm, when the comparator is consistent. */
  lemma SortsDetermined(order: seq<string>, items: seq<Entry>, r: seq<Entry>)
    requires Consistent(order, Filter(items, Visible))
    requires multiset(r) == multiset(Filter(items, Visible)) && Sorted(order, r)
    ensures r == Sorts(order, items)
  {
    ConsistentPermutation(order, Filter(items, Visible), r);
    SortedUnique(order, r, Sorts(order, items));
  }
}
