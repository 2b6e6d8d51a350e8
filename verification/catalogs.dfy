/**
 * A locale's translation catalog and the three updaters of cmds/fixup.go that
 * edit it in place: `addTranslations` (289-296), `removeTranslations`
 * (298-308) and `updateTranslations` (310-321), applied per locale in the
 * order update, add, remove (165-175).
 */
module Catalogs {
  import opened Wrappers
  import opened Slices

  /** `common.I18nStringInfo`: one catalog record. */
  datatype StringInfo = StringInfo(id: string, translation: string, dirty: bool)

  /** The locale code `updateTranslations` compares its file argument with. */
  const ReferenceLocale: string := "en_US"

  /** The record `addTranslations` writes: the identifier is its own translation. */
  function Placeholder(id: string): StringInfo
  {
    StringInfo(id, id, false)
  }

  /** Every record carries its own key as its identifier. */
  ghost predicate WellKeyed(m: map<string, StringInfo>)
  {
    forall k :: k in m ==> m[k].id == k
  }

  /** `m` and `m'` agree at key `k`: both lack it, or both map it to the same record. */
  ghost predicate SameAt(m: map<string, StringInfo>, m': map<string, StringInfo>, k: string)
  {
    (k in m <==> k in m') && (k in m ==> m[k] == m'[k])
  }

  /** The catalog after `addTranslations(m, _, ids)`. */
  function Added(m: map<string, StringInfo>, ids: seq<string>): (r: map<string, StringInfo>)
    ensures forall id :: id in ids ==> id in r && r[id] == Placeholder(id)
    ensures forall k :: k !in ids ==> SameAt(r, m, k)
    ensures r.Keys == m.Keys + Elems(ids)
  {
    m + map id | id in ids :: Placeholder(id)
  }

  /** The catalog after `removeTranslations(m, _, ids)`. */
  function Removed(m: map<string, StringInfo>, ids: seq<string>): (r: map<string, StringInfo>)
    ensures r.Keys == m.Keys - Elems(ids)
    ensures forall k :: k !in ids ==> SameAt(r, m, k)
  {
    map k | k in m && k !in ids :: m[k]
  }

  /** Adding one more identifier overwrites its record with a placeholder. */
  lemma AddedSnoc(m: map<string, StringInfo>, ids: seq<string>, id: string)
    ensures Added(m, ids + [id]) == Added(m, ids)[id := Placeholder(id)]
  {
    var r, r' := Added(m, ids + [id]), Added(m, ids)[id := Placeholder(id)];
    assert Elems(ids + [id]) == Elems(ids) + {id};
    forall k | k in r ensures k in r' && r[k] == r'[k] {
      if k != id && k !in ids { assert k !in ids + [id]; }
    }
    assert r.Keys == r'.Keys;
  }

  /** Removing one more identifier deletes its record. */
  lemma RemovedSnoc(m: map<string, StringInfo>, ids: seq<string>, id: string)
    ensures Removed(m, ids + [id]) == Removed(m, ids) - {id}
  {
    var r, r' := Removed(m, ids + [id]), Removed(m, ids) - {id};
    assert Elems(ids + [id]) == Elems(ids) + {id};
    forall k | k in r ensures k in r' && r[k] == r'[k] {
      assert k !in ids + [id];
    }
    assert r.Keys == r'.Keys;
  }

  /**
   * An update map whose pairs do not interact: no two old identifiers are
   * renamed to the same new one, and no identifier is both renamed and a
   * rename target. Only then is the result of `updateTranslations`
   * independent of Go's map iteration order.
   */
  ghost predicate Renaming(upd: map<string, string>)
  {
    && (forall o, o' :: o in upd && o' in upd && o != o' ==> upd[o] != upd[o'])
    && upd.Keys !! upd.Values
  }

  /**
   * The record `updateTranslations` stores under the new identifier `n` when
   * renaming `o`: a clean placeholder when the file argument is literally
   * "en_US"; otherwise the old record's translation (the zero value "" when
   * `o` has no record), marked dirty.
   */
  function Renamed(m: map<string, StringInfo>, localeFile: string, o: string, n: string): (info: StringInfo)
    ensures info.id == n
    ensures localeFile == ReferenceLocale ==> info == Placeholder(n)
    ensures localeFile != ReferenceLocale ==> info.dirty && (o in m ==> info.translation == m[o].translation)
    ensures localeFile != ReferenceLocale && o !in m ==> info.translation == ""
  {
    if localeFile == ReferenceLocale then StringInfo(n, n, false)
    else StringInfo(n, if o in m then m[o].translation else "", true)
  }

  /** The catalog after `updateTranslations(m, localeFile, upd)`, for a renaming `upd`. */
  ghost function Updated(m: map<string, StringInfo>, localeFile: string, upd: map<string, string>): (r: map<string, StringInfo>)
    requires Renaming(upd)
    ensures r.Keys == (m.Keys - upd.Keys) + upd.Values
    ensures forall o :: o in upd ==> r[upd[o]] == Renamed(m, localeFile, o, upd[o])
    ensures forall k :: k !in upd.Keys && k !in upd.Values ==> SameAt(r, m, k)
  {
    map k | k in (m.Keys - upd.Keys) + upd.Values ::
      if k in upd.Values then (var o :| o in upd && upd[o] == k; Renamed(m, localeFile, o, k)) else m[k]
  }

  /** A catalog that agrees with `Updated` key by key is `Updated`. */
  lemma UpdatedPointwise(r: map<string, StringInfo>, m: map<string, StringInfo>, localeFile: string, upd: map<string, string>)
    requires Renaming(upd)
    requires forall k :: k !in upd.Keys && k !in upd.Values ==> SameAt(r, m, k)
    requires forall k :: k in upd && k !in upd.Values ==> k !in r
    requires forall o :: o in upd ==> upd[o] in r && r[upd[o]] == Renamed(m, localeFile, o, upd[o])
    ensures r == Updated(m, localeFile, upd)
  {
    var u := Updated(m, localeFile, upd);
    forall k ensures SameAt(r, u, k) {
      if k in upd.Values {
        var o :| o in upd && upd[o] == k;
      }
    }
    assert r.Keys == u.Keys;
  }

  /**
   * What `updateTranslations` has achieved once the pairs outside `pending`
   * are done: untouched identifiers keep their records, finished old
   * identifiers are gone, and (for a renaming) pending pairs are untouched
   * while finished ones hold their renamed records.
   */
  ghost predicate UpdateProgress(e: map<string, StringInfo>, m: map<string, StringInfo>, localeFile: string,
                                 upd: map<string, string>, pending: set<string>)
  {
    && pending <= upd.Keys
    && (forall k :: k !in upd.Keys && k !in upd.Values ==> SameAt(e, m, k))
    && (forall k :: k in upd && k !in pending && k !in upd.Values ==> k !in e)
    && (upd.Keys !! upd.Values ==> forall k :: k in pending ==> SameAt(e, m, k))
    && (Renaming(upd) ==> forall o :: o in pending ==> SameAt(e, m, upd[o]))
    && (Renaming(upd) ==> forall o :: o in upd && o !in pending ==>
          upd[o] in e && e[upd[o]] == Renamed(m, localeFile, o, upd[o]))
  }

  /** One iteration of `updateTranslations` extends the progress by one pair. */
  lemma UpdateStep(e: map<string, StringInfo>, m: map<string, StringInfo>, localeFile: string,
                   upd: map<string, string>, pending: set<string>, key: string)
    requires UpdateProgress(e, m, localeFile, upd, pending) && key in pending
    ensures UpdateProgress(e[upd[key] := Renamed(e, localeFile, key, upd[key])] - {key}, m, localeFile, upd, pending - {key})
  {
    var value := upd[key];
    var info := Renamed(e, localeFile, key, value);
    var e' := e[value := info] - {key};
    StepKeepsUntouched(e, m, upd, pending, key, info);
    if Renaming(upd) {
      assert info == Renamed(m, localeFile, key, value) by {
        assert SameAt(e, m, key);
      }
      StepRenames(e, m, localeFile, upd, pending, key, info);
    }
  }

  /** The part of one step that holds for any record written and any update map. */
  lemma StepKeepsUntouched(e: map<string, StringInfo>, m: map<string, StringInfo>,
                           upd: map<string, string>, pending: set<string>, key: string, info: StringInfo)
    requires pending <= upd.Keys && key in pending
    requires forall k :: k !in upd.Keys && k !in upd.Values ==> SameAt(e, m, k)
    requires forall k :: k in upd && k !in pending && k !in upd.Values ==> k !in e
    requires upd.Keys !! upd.Values ==> forall k :: k in pending ==> SameAt(e, m, k)
    ensures var e' := e[upd[key] := info] - {key};
      && (forall k :: k !in upd.Keys && k !in upd.Values ==> SameAt(e', m, k))
      && (forall k :: k in upd && k !in pending - {key} && k !in upd.Values ==> k !in e')
      && (upd.Keys !! upd.Values ==> forall k :: k in pending - {key} ==> SameAt(e', m, k))
  {
    var value := upd[key];
    var e' := e[value := info] - {key};
    assert value in upd.Values;
    forall k | k !in upd.Keys && k !in upd.Values ensures SameAt(e', m, k) {
      assert SameAt(e, m, k) && k != key && k != value;
    }
    forall k | k in upd && k !in pending - {key} && k !in upd.Values ensures k !in e' {
      assert k != value;
    }
    if upd.Keys !! upd.Values {
      forall k | k in pending - {key} ensures SameAt(e', m, k) {
        assert SameAt(e, m, k) && k != key && k != value;
      }
    }
  }

  /** The part of one step that holds for a renaming: the pair's new record is in place, the rest keep theirs. */
  lemma StepRenames(e: map<string, StringInfo>, m: map<string, StringInfo>, localeFile: string,
                    upd: map<string, string>, pending: set<string>, key: string, info: StringInfo)
    requires Renaming(upd) && pending <= upd.Keys && key in pending
    requires info == Renamed(m, localeFile, key, upd[key])
    requires forall o :: o in pending ==> SameAt(e, m, upd[o])
    requires forall o :: o in upd && o !in pending ==> upd[o] in e && e[upd[o]] == Renamed(m, localeFile, o, upd[o])
    ensures var e' := e[upd[key] := info] - {key};
      && (forall o :: o in pending - {key} ==> SameAt(e', m, upd[o]))
      && (forall o :: o in upd && o !in pending - {key} ==>
            upd[o] in e' && e'[upd[o]] == Renamed(m, localeFile, o, upd[o]))
  {
    var value := upd[key];
    var e' := e[value := info] - {key};
    forall o | o in pending - {key} ensures SameAt(e', m, upd[o]) {
      assert upd[o] != value && upd[o] != key by {
        assert upd[o] in upd.Values;
      }
    }
    forall o | o in upd && o !in pending - {key}
      ensures upd[o] in e' && e'[upd[o]] == Renamed(m, localeFile, o, upd[o])
    {
      assert upd[o] != key by {
        assert upd[o] in upd.Values;
      }
    }
  }

  /** One locale's catalog, a Go map that the updaters change in place. */
  class Catalog {
    var entries: map<string, StringInfo>

    constructor (entries: map<string, StringInfo>)
      ensures this.entries == entries
    {
      this.entries := entries;
    }

    /** `addTranslations`: every listed identifier gets a placeholder record, overwriting any old one. */
    method AddTranslations(ids: seq<string>)
      modifies this
      ensures entries == Added(old(entries), ids)
    {
      ghost var m0 := entries;
      for i := 0 to |ids|
        invariant entries == Added(m0, ids[..i])
      {
        AddedSnoc(m0, ids[..i], ids[i]);
        assert ids[..i + 1] == ids[..i] + [ids[i]];
        entries := entries[ids[i] := Placeholder(ids[i])];
      }
      assert ids[..|ids|] == ids;
    }

    /** `removeTranslations`: every listed identifier loses its record; the error it returns is always nil. */
    method RemoveTranslations(ids: seq<string>) returns (err: Option<string>)
      modifies this
      ensures entries == Removed(old(entries), ids)
      ensures err == None
    {
      ghost var m0 := entries;
      for i := 0 to |ids|
        invariant entries == Removed(m0, ids[..i])
      {
        RemovedSnoc(m0, ids[..i], ids[i]);
        assert ids[..i + 1] == ids[..i] + [ids[i]];
        entries := entries - {ids[i]};
      }
      assert ids[..|ids|] == ids;
      err := None;
    }

    /**
     * `updateTranslations`: for each pair (o, n), in Go's unspecified map
     * order, store the renamed record under `n` and then delete `o`.
     * Whatever the order, identifiers outside the pairs keep their records
     * and an old identifier that is not also a new one disappears; for a
     * renaming the result is exactly `Updated`.
     */
    method UpdateTranslations(localeFile: string, upd: map<string, string>)
      modifies this
      ensures forall k :: k !in upd.Keys && k !in upd.Values ==> SameAt(entries, old(entries), k)
      ensures forall k :: k in upd && k !in upd.Values ==> k !in entries
      ensures forall n :: n in upd.Values && n !in upd.Keys ==> NewRecord(entries, localeFile, n)
      ensures Renaming(upd) ==> entries == Updated(old(entries), localeFile, upd)
    {
      ghost var m0 := entries;
      var pending := upd.Keys;
      while pending != {}
        invariant UpdateProgress(entries, m0, localeFile, upd, pending)
        invariant forall o :: o in upd && o !in pending && upd[o] !in upd.Keys ==> NewRecord(entries, localeFile, upd[o])
        decreases pending
      {
        var key :| key in pending;
        var value := upd[key];
        UpdateStep(entries, m0, localeFile, upd, pending, key);
        if localeFile == ReferenceLocale {
          entries := entries[value := StringInfo(value, value, false)];
        } else {
          entries := entries[value := StringInfo(value, if key in entries then entries[key].translation else "", true)];
        }
        entries := entries - {key};
        pending := pending - {key};
      }
      forall n | n in upd.Values && n !in upd.Keys ensures NewRecord(entries, localeFile, n) {
        var o :| o in upd && upd[o] == n;
      }
      if Renaming(upd) {
        UpdatedPointwise(entries, m0, localeFile, upd);
      }
    }
  }

  /**
   * The record `updateTranslations` leaves under a new identifier `n` that
   * is not also an old one, whatever the map order: present, keyed by `n`,
   * and the clean placeholder when the file argument is "en_US".
   */
  ghost predicate NewRecord(e: map<string, StringInfo>, localeFile: string, n: string)
  {
    n in e && e[n].id == n && (localeFile == ReferenceLocale ==> e[n] == Placeholder(n))
  }

  /** One locale's catalog after the edits of a run, in the order `Run` applies them. */
  ghost function Reconciled(m: map<string, StringInfo>, localeFile: string, upd: map<string, string>,
                            additions: seq<string>, removed: seq<string>): (r: map<string, StringInfo>)
    requires Renaming(upd)
    ensures r.Keys == ((m.Keys - upd.Keys) + upd.Values + Elems(additions)) - Elems(removed)
  {
    Removed(Added(Updated(m, localeFile, upd), additions), removed)
  }

  /**
   * The per-locale body of `Run`'s final loop: update, then add, then remove,
   * each skipped when it has nothing to apply. Loading and writing the
   * catalog file are not modelled.
   */
  method ApplyEdits(catalog: Catalog, localeFile: string, updated: map<string, string>,
                    additions: seq<string>, removed: seq<string>)
    modifies catalog
    ensures Renaming(updated) ==> catalog.entries == Reconciled(old(catalog.entries), localeFile, updated, additions, removed)
  {
    ghost var m0 := catalog.entries;
    if |updated| > 0 {
      catalog.UpdateTranslations(localeFile, updated);
    }
    ghost var m1 := catalog.entries;
    if Renaming(updated) && |updated| == 0 {
      EmptyEditsChangeNothing(m0, localeFile);
    }
    if |additions| > 0 {
      catalog.AddTranslations(additions);
    }
    ghost var m2 := catalog.entries;
    if |additions| == 0 {
      EmptyEditsChangeNothing(m1, localeFile);
    }
    if |removed| > 0 {
      var _ := catalog.RemoveTranslations(removed);
    }
    if |removed| == 0 {
      EmptyEditsChangeNothing(m2, localeFile);
    }
  }

  /** The edits keep every record keyed by its own identifier. */
  lemma ReconciledWellKeyed(m: map<string, StringInfo>, localeFile: string, upd: map<string, string>,
                            additions: seq<string>, removed: seq<string>)
    requires Renaming(upd) && WellKeyed(m)
    ensures WellKeyed(Reconciled(m, localeFile, upd, additions, removed))
  {
    var u := Updated(m, localeFile, upd);
    assert WellKeyed(u) by {
      forall k | k in u ensures u[k].id == k {
        if k in upd.Values {
          var o :| o in upd && upd[o] == k;
        }
      }
    }
  }

  /** Empty edit lists leave a catalog as it is, so skipping them is harmless. */
  lemma EmptyEditsChangeNothing(m: map<string, StringInfo>, localeFile: string)
    ensures Updated(m, localeFile, map[]) == m
    ensures Added(m, []) == m
    ensures Removed(m, []) == m
  {
    assert Renaming(map[]);
  }

  /** Adding the same identifiers a second time changes nothing. */
  lemma AddTwiceIsAddOnce(m: map<string, StringInfo>, ids: seq<string>)
    ensures Added(Added(m, ids), ids) == Added(m, ids)
  {
  }

  /** Removing identifiers that have no record is a no-op. */
  lemma RemoveAbsentIsNoOp(m: map<string, StringInfo>, ids: seq<string>)
    requires forall id :: id in ids ==> id !in m
    ensures Removed(m, ids) == m
  {
  }

  /**
   * What a locale holds after the edits, when the additions, the removals and
   * the rename targets are pairwise disjoint, as the disambiguation leaves
   * them: each addition has its placeholder, each rename target its renamed
   * record, removed and renamed-away identifiers are gone, and every other
   * record is as before.
   */
  lemma ReconcileOutcome(m: map<string, StringInfo>, localeFile: string, upd: map<string, string>,
                         additions: seq<string>, removed: seq<string>)
    requires Renaming(upd)
    requires Elems(additions) !! Elems(removed)
    requires upd.Values !! Elems(additions) && upd.Values !! Elems(removed)
    ensures var r := Reconciled(m, localeFile, upd, additions, removed);
      && r.Keys == ((m.Keys - upd.Keys) + upd.Values + Elems(additions)) - Elems(removed)
      && (forall id :: id in additions ==> r[id] == Placeholder(id))
      && (forall o :: o in upd ==> r[upd[o]] == Renamed(m, localeFile, o, upd[o]))
      && (forall k :: k !in upd.Keys && k !in upd.Values && k !in additions && k !in removed ==> SameAt(r, m, k))
  {
  }

  /**
   * An addition applied after an update of the same identifier wins: the
   * identifier ends with the addition's placeholder record.
   */
  lemma AdditionOverridesUpdate(m: map<string, StringInfo>, localeFile: string, upd: map<string, string>,
                                additions: seq<string>, o: string)
    requires Renaming(upd) && o in upd && upd[o] in additions
    ensures Added(Updated(m, localeFile, upd), additions)[upd[o]] == Placeholder(upd[o])
  {
  }

  /**
   * The edits keep a locale inside the reference catalog: a locale whose
   * identifiers are all English identifiers still has only English
   * identifiers afterwards.
   */
  lemma ReconcileKeepsLocaleWithinReference(locale: map<string, StringInfo>, english: map<string, StringInfo>,
                                            localeFile: string, englishFile: string, upd: map<string, string>,
                                            additions: seq<string>, removed: seq<string>)
    requires Renaming(upd) && locale.Keys <= english.Keys
    ensures Reconciled(locale, localeFile, upd, additions, removed).Keys
         <= Reconciled(english, englishFile, upd, additions, removed).Keys
  {
  }

  /**
   * `Run` passes a file path, never the bare code "en_US", so the English
   * catalog is updated like any other locale: a renamed English record
   * keeps its old text (the old identifier) and is marked dirty, instead of
   * becoming the placeholder of the new identifier.
   */
  lemma EnglishFileTakesLocaleBranch(english: map<string, StringInfo>, englishFile: string, o: string, n: string)
    requires englishFile != ReferenceLocale && o != n
    requires o in english && english[o] == Placeholder(o)
    ensures Updated(english, englishFile, map[o := n])[n] == StringInfo(n, o, true)
    ensures Updated(english, ReferenceLocale, map[o := n])[n] == Placeholder(n)
  {
    assert map[o := n][o] == n;
  }
}
