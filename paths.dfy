/**
 * Paths as the core uses them: `path.join`, `path.parse(p).dir` and `.base`,
 * `Uri.joinPath(uri, '..')`, `path.normalize`, and the `fsPath` string of an entry.
 */
module Paths {
  import Strings

  /** A normalised absolute path given by its components; the root `/` is `[]`. */
  type Path = seq<string>

  /** A component that normalisation keeps as it is. */
  predicate IsName(c: string)
  {
    c != "" && c != "." && c != ".." && '/' !in c
  }

  predicate WellFormed(p: Path)
  {
    forall i :: 0 <= i < |p| ==> IsName(p[i])
  }

  /** `path.parse(p).dir`, also `Uri.joinPath(uri, '..')`: the root is its own parent. */
  function Parent(p: Path): Path
  {
    if p == [] then [] else p[..|p| - 1]
  }

  /** `path.parse(p).base`: the last component, `""` for the root. */
  function BaseName(p: Path): string
  {
    if p == [] then "" else p[|p| - 1]
  }

  /** `path.join(dir, name)` for a single name; an empty name leaves `dir` unchanged. */
  function Join(dir: Path, name: string): (p: Path)
    ensures name == "" ==> p == dir
    ensures name != "" ==> Parent(p) == dir && BaseName(p) == name && p != dir
  {
    if name == "" then dir else dir + [name]
  }

  /** `a` is `b` or one of its ancestors. */
  predicate IsPrefix(a: Path, b: Path)
  {
    |a| <= |b| && b[..|a|] == a
  }

  /** One component of `path.normalize`: empty and `.` components vanish, `..` climbs. */
  function Step(acc: Path, c: string): Path
  {
    if c == "" || c == "." then acc else if c == ".." then Parent(acc) else acc + [c]
  }

  /** `path.normalize` applied to the components `parts`, starting from `acc`. */
  function Normalize(acc: Path, parts: seq<string>): Path
    decreases |parts|
  {
    if parts == [] then acc else Normalize(Step(acc, parts[0]), parts[1..])
  }

  lemma {:induction false} NormalizeConcat(acc: Path, x: seq<string>, y: seq<string>)
    ensures Normalize(acc, x + y) == Normalize(Normalize(acc, x), y)
    decreases |x|
  {
    if x == [] {
      assert x + y == y;
    } else {
      assert (x + y)[0] == x[0];
      assert (x + y)[1..] == x[1..] + y;
      NormalizeConcat(Step(acc, x[0]), x[1..], y);
    }
  }

  /** Plain names are appended unchanged. */
  lemma {:induction false} NormalizeNames(acc: Path, parts: seq<string>)
    requires WellFormed(parts)
    ensures Normalize(acc, parts) == acc + parts
    decreases |parts|
  {
    if parts != [] {
      NormalizeNames(acc + [parts[0]], parts[1..]);
      assert acc + [parts[0]] + parts[1..] == acc + parts;
    }
  }

  /** An absolute path string, normalised into components. */
  function Parse(s: string): Path
  {
    Normalize([], Strings.Split(s, '/'))
  }

  /** The `fsPath` string of a path. */
  function Format(p: Path): string
  {
    "/" + Strings.Join(p, '/')
  }

  /** Printing a well-formed path and parsing it back gives the path. */
  lemma FormatParse(p: Path)
    requires WellFormed(p)
    ensures Parse(Format(p)) == p
  {
    if p == [] {
      assert Format(p) == [] + ['/'] + [];
      Strings.SplitConcat([], [], '/');
      assert Strings.Split(Format(p), '/') == ["", ""];
      assert ["", ""][1..] == [""] && [""][1..] == [];
    } else {
      assert Format(p) == [] + ['/'] + Strings.Join(p, '/');
      Strings.SplitConcat([], Strings.Join(p, '/'), '/');
      Strings.SplitJoin(p, '/');
      NormalizeNames([], p);
      assert Strings.Split(Format(p), '/') == [""] + p;
      NormalizeConcat([], [""], p);
    }
  }

  /** `path.join(a, b)` for an absolute directory string `a` and a relative string `b`: the
      components of `b` normalised onto the parsed `a`. */
  function JoinText(a: string, b: string): Path
  {
    Normalize(Parse(a), Strings.Split(b, '/'))
  }

  /** Joining is parsing the two strings glued with a separator. */
  lemma JoinTextParses(a: string, b: string)
    ensures JoinText(a, b) == Parse(a + "/" + b)
  {
    Strings.SplitConcat(a, b, '/');
    NormalizeConcat([], Strings.Split(a, '/'), Strings.Split(b, '/'));
  }
}
