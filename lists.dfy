/** The array and list built-ins the core uses: `indexOf`, `findIndex`, `filter`, and swaps. */
module Lists {
  import opened Common

  /** `s.indexOf(x)`: the first position of `x`, or -1. */
  function IndexOf<T(==)>(s: seq<T>, x: T): (i: int)
    ensures -1 <= i < |s|
    ensures i == -1 <==> x !in s
    ensures 0 <= i ==> s[i] == x && x !in s[..i]
    decreases |s|
  {
    if |s| == 0 then -1
    else if s[0] == x then 0
    else
      var i := IndexOf(s[1..], x);
      assert i >= 0 ==> s[..i + 1] == [s[0]] + s[1..][..i];
      if i < 0 then -1 else i + 1
  }

  /** Any index that behaves like the first position of `x` is `IndexOf(s, x)`. */
  lemma FirstPositionIsIndexOf<T>(s: seq<T>, x: T, i: int)
    requires -1 <= i < |s|
    requires i == -1 ==> forall k :: 0 <= k < |s| ==> s[k] != x
    requires 0 <= i ==> s[i] == x && forall k :: 0 <= k < i ==> s[k] != x
    ensures i == IndexOf(s, x)
  {
    var j := IndexOf(s, x);
    if 0 <= j {
      assert forall k :: 0 <= k < j ==> s[..j][k] == s[k];
    }
  }

  /** `s` with the elements at `i` and `j` exchanged. */
  function Swap<T>(s: seq<T>, i: nat, j: nat): (r: seq<T>)
    requires i < |s| && j < |s|
    ensures |r| == |s| && r[i] == s[j] && r[j] == s[i]
    ensures forall k :: 0 <= k < |s| && k != i && k != j ==> r[k] == s[k]
    ensures multiset(r) == multiset(s)
  {
    s[i := s[j]][j := s[i]]
  }

  /** What a move-up command leaves in its list after `findIndex` returned `i` for the moved
      element `x`: nothing to write (None) when `i` is 0; the list unchanged when `i` is -1,
      since the assignments then go to the non-index properties "-1" and "-2"; otherwise
      position `i` takes position `i - 1`'s element and position `i - 1` takes `x`. */
  function MoveUpAt<T>(s: seq<T>, i: int, x: T): (r: Option<seq<T>>)
    requires -1 <= i < |s|
    ensures r.None? <==> i == 0
    ensures r.Some? ==> |r.value| == |s|
    ensures i == -1 ==> r == Some(s)
    ensures 0 < i ==> r.value[i] == s[i - 1] && r.value[i - 1] == x
    ensures 0 < i ==> forall k :: 0 <= k < |s| && k != i && k != i - 1 ==> r.value[k] == s[k]
    ensures 0 < i && s[i] == x ==> r == Some(Swap(s, i - 1, i))
  {
    if i == 0 then None
    else if i < 0 then Some(s)
    else
      var r := s[i := s[i - 1]][i - 1 := x];
      assert s[i] == x ==> r == Swap(s, i - 1, i) by {
        if s[i] == x {
          assert forall k :: 0 <= k < |s| ==> r[k] == Swap(s, i - 1, i)[k];
        }
      }
      Some(r)
  }

  /** What a move-down command leaves in its list after `findIndex` returned `i` for the moved
      element `x`: nothing to write when `i` is the last index (which for an empty list is -1);
      when `i` is -1 otherwise, only the assignment to position `i + 1 == 0` reaches the array;
      otherwise position `i` takes position `i + 1`'s element and position `i + 1` takes `x`. */
  function MoveDownAt<T>(s: seq<T>, i: int, x: T): (r: Option<seq<T>>)
    requires -1 <= i < |s|
    ensures r.None? <==> i == |s| - 1
    ensures r.Some? ==> |r.value| == |s|
    ensures i == -1 && |s| > 0 ==> r == Some(s[0 := x])
    ensures 0 <= i < |s| - 1 ==> r.value[i] == s[i + 1] && r.value[i + 1] == x
    ensures 0 <= i < |s| - 1 ==> forall k :: 0 <= k < |s| && k != i && k != i + 1 ==> r.value[k] == s[k]
    ensures 0 <= i < |s| - 1 && s[i] == x ==> r == Some(Swap(s, i, i + 1))
  {
    if i == |s| - 1 then None
    else if i < 0 then Some(s[0 := x])
    else
      var r := s[i := s[i + 1]][i + 1 := x];
      assert s[i] == x ==> r == Swap(s, i, i + 1) by {
        if s[i] == x {
          assert forall k :: 0 <= k < |s| ==> r[k] == Swap(s, i, i + 1)[k];
        }
      }
      Some(r)
  }

  /** Moving up where `findIndex` found `x` past the first place exchanges it with its predecessor. */
  lemma MoveUpAtFound<T>(s: seq<T>, x: T, i: nat)
    requires i == IndexOf(s, x) && 0 < i
    ensures MoveUpAt(s, i, x) == Some(Swap(s, i - 1, i))
  {
  }

  /** Moving down where `findIndex` found `x` before the last place exchanges it with its successor. */
  lemma MoveDownAtFound<T>(s: seq<T>, x: T, i: nat)
    requires i == IndexOf(s, x) && i < |s| - 1
    ensures MoveDownAt(s, i, x) == Some(Swap(s, i, i + 1))
  {
  }

  /** Two sequences with the same elements and the same head have the same elements after it. */
  lemma MultisetTails<T>(a: seq<T>, b: seq<T>)
    requires multiset(a) == multiset(b) && |a| > 0 && |b| > 0 && a[0] == b[0]
    ensures multiset(a[1..]) == multiset(b[1..])
  {
    assert a == [a[0]] + a[1..] && b == [b[0]] + b[1..];
    assert multiset(a) == multiset{a[0]} + multiset(a[1..]);
    assert multiset(b) == multiset{b[0]} + multiset(b[1..]);
    forall x ensures multiset(a[1..])[x] == multiset(b[1..])[x] {
      assert multiset(a)[x] == multiset{a[0]}[x] + multiset(a[1..])[x];
      assert multiset(b)[x] == multiset{b[0]}[x] + multiset(b[1..])[x];
    }
  }

  /** `s.filter(keep)`. */
  function Filter<T(!new)>(s: seq<T>, keep: T -> bool): (r: seq<T>)
    ensures |r| <= |s|
    ensures forall i :: 0 <= i < |r| ==> keep(r[i])
    ensures forall x :: multiset(r)[x] == if keep(x) then multiset(s)[x] else 0
    decreases |s|
  {
    if |s| == 0 then []
    else
      var rest := Filter(s[1..], keep);
      assert s == [s[0]] + s[1..];
      if keep(s[0]) then [s[0]] + rest else rest
  }

  /** Filtering distributes over concatenation; with the one-element cases this fixes the order
      of what `Filter` keeps: the survivors, in their original order. */
  lemma {:induction false} FilterConcat<T(!new)>(a: seq<T>, b: seq<T>, keep: T -> bool)
    ensures Filter(a + b, keep) == Filter(a, keep) + Filter(b, keep)
    decreases |a|
  {
    if |a| > 0 {
      assert (a + b)[0] == a[0];
      assert (a + b)[1..] == a[1..] + b;
      FilterConcat(a[1..], b, keep);
    } else {
      assert a + b == b;
    }
  }

  /** A list whose every element is kept is its own filter. */
  lemma {:induction false} FilterKeepsAll<T(!new)>(s: seq<T>, keep: T -> bool)
    requires forall i :: 0 <= i < |s| ==> keep(s[i])
    ensures Filter(s, keep) == s
    decreases |s|
  {
    if |s| > 0 {
      FilterKeepsAll(s[1..], keep);
      assert s == [s[0]] + s[1..];
    }
  }

  /** Two lists that agree on every element that is kept, position by position, have the same
      filter. */
  lemma {:induction false} FilterAgree<T(!new)>(a: seq<T>, b: seq<T>, keep: T -> bool)
    requires |a| == |b|
    requires forall k :: 0 <= k < |a| ==> keep(a[k]) == keep(b[k])
    requires forall k :: 0 <= k < |a| && keep(a[k]) ==> a[k] == b[k]
    ensures Filter(a, keep) == Filter(b, keep)
    decreases |a|
  {
    if |a| > 0 {
      FilterAgree(a[1..], b[1..], keep);
    }
  }

  /** `a.findIndex(matches)`. */
  method FindFirst<T>(a: array<T>, matches: T -> bool) returns (index: int)
    ensures -1 <= index < a.Length
    ensures index == -1 <==> forall k :: 0 <= k < a.Length ==> !matches(a[k])
    ensures 0 <= index ==> matches(a[index]) && forall k :: 0 <= k < index ==> !matches(a[k])
  {
    index := 0;
    while index < a.Length
      invariant 0 <= index <= a.Length
      invariant forall k :: 0 <= k < index ==> !matches(a[k])
    {
      if matches(a[index]) {
        return;
      }
      index := index + 1;
    }
    index := -1;
  }
}
