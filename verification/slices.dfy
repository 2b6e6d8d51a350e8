/**
 * Go string slices: duplicate-freedom, element sets, and `removeFromSlice`
 * (cmds/fixup.go:323-325), which deletes one element by index by shifting the
 * tail of the shared backing array one place to the left.
 */
module Slices {

  /** No element occurs twice. */
  ghost predicate NoDup<T>(s: seq<T>)
  {
    forall i, j :: 0 <= i < j < |s| ==> s[i] != s[j]
  }

  /** The set of elements of a slice. */
  function Elems<T>(s: seq<T>): set<T>
  {
    set x | x in s
  }

  /**
   * The value `removeFromSlice(s, i)` returns: `s` without its element at
   * index `i`, the others in their original order.
   */
  function RemoveAt<T>(s: seq<T>, i: nat): (r: seq<T>)
    requires i < |s|
    ensures |r| == |s| - 1
    ensures forall j :: 0 <= j < |r| ==> r[j] == if j < i then s[j] else s[j + 1]
    ensures multiset(r) + multiset{s[i]} == multiset(s)
  {
    assert s == s[..i] + [s[i]] + s[i + 1..];
    s[..i] + s[i + 1..]
  }

  /** On a duplicate-free slice, removal keeps it duplicate-free and drops exactly `s[i]`. */
  lemma RemoveAtElems<T>(s: seq<T>, i: nat)
    requires i < |s| && NoDup(s)
    ensures NoDup(RemoveAt(s, i))
    ensures Elems(RemoveAt(s, i)) == Elems(s) - {s[i]}
  {
    var r := RemoveAt(s, i);
    forall x | x in Elems(s) - {s[i]} ensures x in Elems(r) {
      var j :| 0 <= j < |s| && s[j] == x;
      assert j != i;
      if j < i { assert r[j] == x; } else { assert r[j - 1] == x; }
    }
    forall x | x in Elems(r) ensures x in Elems(s) - {s[i]} {
      var j :| 0 <= j < |r| && r[j] == x;
      if j < i { assert x == s[j]; } else { assert x == s[j + 1]; }
    }
  }

  /** A duplicate-free slice has exactly as many elements as its element set. */
  lemma {:induction false} NoDupCard<T>(s: seq<T>)
    requires NoDup(s)
    ensures |Elems(s)| == |s|
  {
    if s != [] {
      var t := s[..|s| - 1];
      assert NoDup(t);
      NoDupCard(t);
      assert s == t + [s[|s| - 1]];
      assert s[|s| - 1] !in Elems(t);
      assert Elems(s) == Elems(t) + {s[|s| - 1]};
    }
  }

  /**
   * The cells of a backing array after `removeFromSlice` on the slice of its
   * first `len` cells: that slice without its element at `index`, then the
   * old cells from `len - 1` on, the first of which is now a stale copy.
   */
  function Shifted<T>(cells: seq<T>, len: nat, index: nat): (r: seq<T>)
    requires index < len <= |cells|
    ensures |r| == |cells|
    ensures r[..len - 1] == RemoveAt(cells[..len], index) && r[len - 1..] == cells[len - 1..]
    ensures forall j :: 0 <= j < |r| ==> r[j] == if index <= j < len - 1 then cells[j + 1] else cells[j]
  {
    RemoveAt(cells[..len], index) + cells[len - 1..]
  }

  /**
   * `removeFromSlice(slice, index)` on the backing array `a` of a slice of
   * length `len`: `append(slice[:index], slice[index+1:]...)` copies the tail
   * one place left in place, so the slice that is returned has length
   * `len - 1`, and the backing array keeps a stale copy of the last element at
   * position `len - 1` (and everything after it), which other slices that
   * share the array still see.
   */
  method RemoveFromSlice<T>(a: array<T>, len: nat, index: nat)
    requires index < len <= a.Length
    modifies a
    ensures a[..] == Shifted(old(a[..]), len, index)
  {
    ghost var s := a[..];
    var j := index;
    while j < len - 1
      invariant index <= j <= len - 1
      invariant forall k :: 0 <= k < index ==> a[k] == s[k]
      invariant forall k :: index <= k < j ==> a[k] == s[k + 1]
      invariant forall k :: j <= k < a.Length ==> a[k] == s[k]
    {
      a[j] := a[j + 1];
      j := j + 1;
    }
    ShiftedIsRemoveAt(s, a[..], len, index);
  }

  /** A copy of `s` whose cells `index..len-2` are shifted one place left is `s` `Shifted` at `index`. */
  lemma ShiftedIsRemoveAt<T>(s: seq<T>, t: seq<T>, len: nat, index: nat)
    requires index < len <= |s| == |t|
    requires forall k :: 0 <= k < index ==> t[k] == s[k]
    requires forall k :: index <= k < len - 1 ==> t[k] == s[k + 1]
    requires forall k :: len - 1 <= k < |t| ==> t[k] == s[k]
    ensures t == Shifted(s, len, index)
  {
    var r := Shifted(s, len, index);
    forall k | 0 <= k < |t| ensures t[k] == r[k] {
      if k < len - 1 {
        assert r[k] == r[..len - 1][k] == RemoveAt(s[..len], index)[k];
      } else {
        assert r[k] == r[len - 1..][k - (len - 1)] == s[k];
      }
    }
  }
}
