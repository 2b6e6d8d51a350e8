/**
 * The occurrence tally of `findSourceStrings` (cmds/fixup.go:221-238): every
 * string literal passed to a translation call `T(...)`/`t(...)`, counted
 * across all Go files, stopping at the first file that does not parse.
 *
 * Parsing one file (`inspectFile`) is abstracted: each file is given as the
 * list of strings it yields, or as the error it fails with.
 */
module Tally {
  import opened Wrappers

  /** The result of `inspectFile` on one file. */
  datatype FileScan = Extracted(strings: seq<string>) | ScanError(message: string)

  /** How many times `s` occurs in `xs`. */
  function Count(xs: seq<string>, s: string): (n: nat)
    ensures n > 0 <==> s in xs
    ensures n <= |xs|
  {
    if xs == [] then 0
    else Count(xs[..|xs| - 1], s) + (if xs[|xs| - 1] == s then 1 else 0)
  }

  /** The strings extracted from `files`, in file order (failed files contribute none). */
  function Scanned(files: seq<FileScan>): seq<string>
  {
    if files == [] then []
    else Scanned(files[..|files| - 1]) + match files[|files| - 1] {
      case Extracted(strs) => strs
      case ScanError(_) => []
    }
  }

  /** The index of the first file that fails to scan, or `|files|` if none does. */
  function FirstError(files: seq<FileScan>): (n: nat)
    ensures n <= |files|
    ensures forall k :: 0 <= k < n ==> files[k].Extracted?
    ensures n < |files| ==> files[n].ScanError?
  {
    if files == [] then 0
    else if files[0].ScanError? then 0
    else 1 + FirstError(files[1..])
  }

  /** Appending one string bumps exactly that string's count. */
  lemma {:induction false} CountSnoc(xs: seq<string>, x: string, s: string)
    ensures Count(xs + [x], s) == Count(xs, s) + (if x == s then 1 else 0)
  {
    assert (xs + [x])[..|xs|] == xs;
  }

  /** `counts` holds the tally of `seen`: its keys are the strings seen, each with its count. */
  ghost predicate Tallies(counts: map<string, int>, seen: seq<string>)
  {
    && (forall s :: s in counts <==> s in seen)
    && (forall s :: s in counts ==> counts[s] == Count(seen, s))
  }

  /**
   * The inner loop of `findSourceStrings`: `sourceStrings[string]++` for each
   * string of one file, a missing key counting as zero.
   */
  method AddOccurrences(counts: map<string, int>, ghost seen: seq<string>, strs: seq<string>)
    returns (updated: map<string, int>)
    requires Tallies(counts, seen)
    ensures Tallies(updated, seen + strs)
  {
    updated := counts;
    var j := 0;
    assert seen + strs[..j] == seen;
    while j < |strs|
      invariant j <= |strs|
      invariant Tallies(updated, seen + strs[..j])
    {
      var s := strs[j];
      assert seen + strs[..j + 1] == (seen + strs[..j]) + [s];
      forall t ensures Count(seen + strs[..j + 1], t) == Count(seen + strs[..j], t) + (if s == t then 1 else 0) {
        CountSnoc(seen + strs[..j], s, t);
      }
      updated := updated[s := (if s in updated then updated[s] else 0) + 1];
      j := j + 1;
    }
    assert strs[..j] == strs;
  }

  /**
   * `findSourceStrings`: returns the map from each string seen to its number of
   * occurrences. On the first file that fails it returns the map built from
   * the files before it together with that file's error; a failed file adds
   * nothing, since `inspectFile` returns no strings with its error.
   */
  method FindSourceStrings(files: seq<FileScan>) returns (counts: map<string, int>, err: Option<string>)
    ensures var n := FirstError(files);
      && err == (if n < |files| then Some(files[n].message) else None)
      && Tallies(counts, Scanned(files[..n]))
  {
    counts := map[];
    err := None;
    var i := 0;
    while i < |files|
      invariant i <= |files|
      invariant forall k :: 0 <= k < i ==> files[k].Extracted?
      invariant Tallies(counts, Scanned(files[..i]))
    {
      if files[i].ScanError? {
        err := Some(files[i].message);
        return;
      }
      assert files[..i + 1][..i] == files[..i];
      assert Scanned(files[..i + 1]) == Scanned(files[..i]) + files[i].strings;
      counts := AddOccurrences(counts, Scanned(files[..i]), files[i].strings);
      i := i + 1;
    }
    assert files[..i] == files;
  }
}
