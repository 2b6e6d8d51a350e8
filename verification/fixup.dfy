/**
 * `Fixup.Run` (cmds/fixup.go:55-185) with its I/O taken out: the scanned
 * files, the English catalog and every locale's catalog are given as
 * values, the operator's answers as a script, and the catalogs `Run` would
 * write back are returned.
 */
module Fixup {
  import opened Slices
  import opened Tally
  import opened Catalogs
  import opened Diff
  import opened Disambiguation

  /** How a run ends. */
  datatype RunResult =
    | ScanFailed(message: string)
      /** The operator answered "exit": `os.Exit(0)` before anything is written. */
    | Aborted
      /** The disambiguation loop panicked (a failed read, or a stale slice index). */
    | Panicked
      /** The edits decided on, and each locale's catalog as it would be written. */
    | Completed(updated: map<string, string>, additions: seq<string>, removed: seq<string>,
                written: seq<map<string, StringInfo>>)

  /** The identifiers found in source, when every file scans. */
  function SourceIds(files: seq<FileScan>): set<string>
  {
    Elems(Scanned(files))
  }

  /**
   * The per-locale loop of `Run` (cmds/fixup.go:158-178): load each locale's
   * catalog afresh, apply the edits, and collect what would be written.
   */
  method ReconcileLocales(locales: seq<map<string, StringInfo>>, localeFiles: seq<string>,
                          updated: map<string, string>, additions: seq<string>, removed: seq<string>)
    returns (written: seq<map<string, StringInfo>>)
    requires |localeFiles| == |locales| && Renaming(updated)
    ensures |written| == |locales|
    ensures forall i :: 0 <= i < |locales| ==>
      written[i] == Reconciled(locales[i], localeFiles[i], updated, additions, removed)
    ensures forall i :: 0 <= i < |locales| && WellKeyed(locales[i]) ==> WellKeyed(written[i])
  {
    written := [];
    for i := 0 to |locales|
      invariant |written| == i
      invariant forall j :: 0 <= j < i ==>
        written[j] == Reconciled(locales[j], localeFiles[j], updated, additions, removed)
      invariant forall j :: 0 <= j < i && WellKeyed(locales[j]) ==> WellKeyed(written[j])
    {
      var catalog := new Catalog(locales[i]);
      ApplyEdits(catalog, localeFiles[i], updated, additions, removed);
      ghost var w := Reconciled(locales[i], localeFiles[i], updated, additions, removed);
      assert WellKeyed(locales[i]) ==> WellKeyed(w) by {
        if WellKeyed(locales[i]) {
          ReconciledWellKeyed(locales[i], localeFiles[i], updated, additions, removed);
        }
      }
      written := written + [catalog.entries];
    }
  }

  /**
   * A completed run's edits: a renaming, and duplicate-free additions and
   * removals that, with the renaming's new and old identifiers, partition
   * the identifiers found only in source (`newIds`) and only in English
   * (`goneIds`); each locale is written as `Reconciled` with those edits,
   * and a locale whose records are keyed by their identifiers is written so.
   */
  ghost predicate Accounted(result: RunResult, newIds: set<string>, goneIds: set<string>,
                            locales: seq<map<string, StringInfo>>, localeFiles: seq<string>)
    requires result.Completed? && |localeFiles| == |locales|
  {
    && Renaming(result.updated)
    && NoDup(result.additions) && NoDup(result.removed)
    && Elems(result.additions) !! result.updated.Values
    && Elems(result.additions) + result.updated.Values == newIds
    && Elems(result.removed) !! result.updated.Keys
    && Elems(result.removed) + result.updated.Keys == goneIds
    && |result.written| == |locales|
    && (forall i :: 0 <= i < |locales| ==>
          result.written[i] == Reconciled(locales[i], localeFiles[i], result.updated, result.additions, result.removed))
    && (forall i :: 0 <= i < |locales| && WellKeyed(locales[i]) ==> WellKeyed(result.written[i]))
  }

  /**
   * The run ends as the disambiguation loop over the diff's `additions` and
   * `removed` ends: aborted on "exit", panicked on a panic, and otherwise
   * completed with the edits the loop leaves.
   */
  ghost predicate EndsAsLoop(result: RunResult, additions: seq<string>, removed: seq<string>, script: seq<Answer>)
  {
    var s := Loop(additions, LoopState(|additions|, removed, map[], 0), script, 0);
    && (result.Aborted? <==> s.outcome == Exit)
    && (result.Panicked? <==> s.outcome == Fail)
    && (result.Completed? <==> s.outcome == Done)
    && (result.Completed? ==>
          result.updated == s.st.updated && result.additions == s.cells[..s.st.live] && result.removed == s.st.removed)
  }

  /**
   * The part of a run after the scan (cmds/fixup.go:73-185): diff the
   * identifiers found in source against the English catalog (in map order:
   * `additions` and `removed` are the lists the diff produced), run the
   * disambiguation loop on them, and apply update, add and remove to every
   * locale. "exit" aborts and a panic panics exactly as the loop does; a run
   * that completes moves every identifier found on one side only into
   * exactly one of additions, removals or the renaming, and writes each
   * locale as `Reconciled` with those edits. With no removals nothing is
   * prompted and the run completes with the diff's additions only.
   */
  method Reconcile(source: map<string, int>, english: map<string, StringInfo>,
                   locales: seq<map<string, StringInfo>>, localeFiles: seq<string>, script: seq<Answer>)
    returns (result: RunResult, ghost additions: seq<string>, ghost removed: seq<string>)
    requires |localeFiles| == |locales|
    ensures IsAdditions(additions, source, english) && IsRemovals(removed, source, english)
    ensures EndsAsLoop(result, additions, removed, script)
    ensures result.Completed? ==> Accounted(result, source.Keys - english.Keys, english.Keys - source.Keys, locales, localeFiles)
    ensures english.Keys <= source.Keys ==>
      result.Completed? && result.updated == map[] && result.removed == [] && result.additions == additions
  {
    var newAdditions := GetAdditionalTranslations(source, english);
    var newRemovals := GetRemovedTranslations(source, english);
    additions, removed := newAdditions, newRemovals;
    ghost var newIds, goneIds := source.Keys - english.Keys, english.Keys - source.Keys;
    assert NoDup(additions) && NoDup(removed) && Elems(additions) !! Elems(removed)
        && Elems(additions) == newIds && Elems(removed) == goneIds
        && |removed| == |goneIds| by {
      DiffPartition(additions, removed, source, english);
    }
    assert english.Keys <= source.Keys ==> removed == [] by {
      assert english.Keys <= source.Keys ==> goneIds == {};
    }

    var outcome, finalAdditions, finalRemoved, updated := Disambiguate(newAdditions, newRemovals, script);
    if outcome == Exit {
      return Aborted, additions, removed;
    } else if outcome == Fail {
      return Panicked, additions, removed;
    }
    assert Settled(finalAdditions, finalRemoved, updated, newIds, goneIds, |additions|, |removed|);
    var written := ReconcileLocales(locales, localeFiles, updated, finalAdditions, finalRemoved);
    return Completed(updated, finalAdditions, finalRemoved, written), additions, removed;
  }

  /**
   * A run: tally the source (cmds/fixup.go:55-62), then reconcile. A scan
   * error ends the run with that error; otherwise the run is `Reconcile` on
   * the identifiers found: the loop decides how it ends, a completed run
   * accounts for every identifier found on one side only, and a run with no
   * identifier gone from source completes without prompting.
   */
  method Run(files: seq<FileScan>, english: map<string, StringInfo>,
             locales: seq<map<string, StringInfo>>, localeFiles: seq<string>, script: seq<Answer>)
    returns (result: RunResult, ghost additions: seq<string>, ghost removed: seq<string>)
    requires |localeFiles| == |locales|
    ensures result.ScanFailed? <==> FirstError(files) < |files|
    ensures result.ScanFailed? ==> result.message == files[FirstError(files)].message
    ensures !result.ScanFailed? ==>
      && NoDup(additions) && Elems(additions) == SourceIds(files) - english.Keys
      && NoDup(removed) && Elems(removed) == english.Keys - SourceIds(files)
      && EndsAsLoop(result, additions, removed, script)
    ensures result.Completed? ==>
      Accounted(result, SourceIds(files) - english.Keys, english.Keys - SourceIds(files), locales, localeFiles)
    ensures FirstError(files) == |files| && english.Keys <= SourceIds(files) ==>
      result.Completed? && result.updated == map[] && result.removed == [] && result.additions == additions
  {
    var source, err := FindSourceStrings(files);
    if err.Some? {
      return ScanFailed(err.value), [], [];
    }
    assert source.Keys == SourceIds(files) by {
      assert files[..|files|] == files;
    }
    result, additions, removed := Reconcile(source, english, locales, localeFiles, script);
    DiffPartition(additions, removed, source, english);
  }
}
