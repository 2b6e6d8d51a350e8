# i18n4go `fixup`, modelled in Dafny

`i18n4go fixup` keeps a Go project's translation catalogs in line with the
strings its source code passes to `T(...)`. It tallies those strings, diffs
them against the English (`en_US`) catalog, and asks the operator about each
new string: is it new, or an updated (renamed) version of a string that is
no longer used? Then it applies the renames, the additions and the removals
to every locale's catalog, in that order.

This project models the core of that command, `cmds/fixup.go`, and proves
properties of the model:

- `slices.dfy` (module `Slices`): `removeFromSlice` as a value (`RemoveAt`)
  and as the in-place shift it performs on a slice's backing array
  (`RemoveFromSlice`), plus duplicate-freedom and element sets.
- `tally.dfy` (module `Tally`): `findSourceStrings`, the occurrence tally
  over the files' extracted strings. It stops at the first file that fails to
  scan and returns the partial tally together with that error.
- `diff.dfy` (module `Diff`): `getAdditionalTranslations` and
  `getRemovedTranslations`, specified as duplicate-free sequences with a
  fixed element set, in whatever order the map iteration takes.
- `catalogs.dfy` (module `Catalogs`): a locale catalog as a class whose
  `map` field the three updaters change in place; the functions `Added`,
  `Removed` and `Updated` that specify them; and the per-locale order
  update, add, remove (`ApplyEdits`, specified by `Reconciled`).
- `disambiguation.dfy` (module `Disambiguation`): the interactive loop.
  The operator's console answers are a script of `Answer`s, one per
  `fmt.Scanf` call. The range loop runs over the backing array of the
  additions slice while `removeFromSlice` shifts that array underneath it,
  exactly as the Go code does.
- `fixup.dfy` (module `Fixup`): `Run` from the tally to the catalogs each
  locale would be written with.
- `wrappers.dfy` (module `Wrappers`): an `Option` type.

The model follows the code, including behaviour a reader of the command's
prompts might not expect:

- An "upd" answer followed by a failed or out-of-range selection ends the
  candidate's cycle with no change (`escape = false` at
  `cmds/fixup.go:144`); it does not prompt again.
- A failed read of the classification word panics (`cmds/fixup.go:97-99`);
  it is not treated as an invalid answer.
- The addition is removed by the range loop's own index
  (`cmds/fixup.go:142`), not by looking the candidate up. After one removal,
  the next candidate is skipped and stale copies are visited past the live
  length (`SkipAfterRemoval`). Removing at an index that is no longer live
  panics (`StaleIndexPanics`).
- `updateTranslations` takes the English branch only when its file argument
  is literally `"en_US"` (`cmds/fixup.go:314`). `Run` passes a file path
  (`cmds/fixup.go:166`), so every catalog, English included, takes the
  other branch (`EnglishFileTakesLocaleBranch`).
- Outside that branch, a renamed identifier with no old record gets the
  translation `""`, Go's zero value (`cmds/fixup.go:317`), not the new
  identifier.
- `addTranslations` overwrites an existing record with the placeholder
  (`cmds/fixup.go:293`). It does not skip identifiers already present, so an
  addition applied after a rename of the same identifier wins
  (`AdditionOverridesUpdate`).
- The additions and removals come in Go's unspecified map order, not in a
  stable order.

## Model

| member | source | states |
|---|---|---|
| Slices.RemoveAt | cmds/fixup.go:323-325 | The slice returned is one shorter; elements before the index are kept; later elements move one place left; exactly one copy of the removed element leaves the multiset. |
| Slices.RemoveAtElems | cmds/fixup.go:323-325 | On a duplicate-free slice, removal keeps it duplicate-free and drops exactly the removed element from its element set. |
| Slices.RemoveFromSlice | cmds/fixup.go:323-325 | In place on the backing array, the array becomes `Shifted`: the first `len - 1` cells are `RemoveAt` of the old live slice. From `len - 1` on, the cells keep their old values, so a stale copy of the last element stays behind. |
| Tally.Count | cmds/fixup.go:232-234 | A string's count is positive exactly when it occurs, and is at most the number of strings. |
| Tally.FirstError | cmds/fixup.go:225-230 | The index of the first file that fails to scan; every earlier file scanned. It equals the number of files when none fails. |
| Tally.AddOccurrences | cmds/fixup.go:232-234 | After one file's strings are counted, the keys are exactly the strings seen so far, and each key maps to its exact number of occurrences. |
| Tally.FindSourceStrings | cmds/fixup.go:221-238 | The error is that of the first failing file, or none. The returned map tallies exactly the strings of the files before it, so on error it is the partial tally. |
| Diff.GetAdditionalTranslations | cmds/fixup.go:252-261 | Duplicate-free, and it contains an identifier exactly when the source has it and the English catalog does not. |
| Diff.GetRemovedTranslations | cmds/fixup.go:263-273 | Duplicate-free, and it contains an identifier exactly when the English catalog has it and the source does not. |
| Diff.DiffPartition | cmds/fixup.go:252-273 | Additions and removals are disjoint. Together they are the symmetric difference of the two key sets. Their lengths are the sizes of the two set differences. |
| Catalogs.Added | cmds/fixup.go:289-296 | Each listed identifier holds its placeholder `{id, id, false}`. Every other key keeps its record. The keys are the old keys plus the listed ones. |
| Catalogs.Removed | cmds/fixup.go:298-308 | The keys are the old keys minus the listed ones; every unlisted key keeps its record. |
| Catalogs.Renamed | cmds/fixup.go:313-318 | The record stored under the new identifier. For the literal file argument "en_US" it is the clean placeholder. Otherwise it is dirty and carries the old record's translation, or "" when the old identifier has no record. |
| Catalogs.Updated | cmds/fixup.go:310-321 | For a renaming, the keys are (old keys minus old identifiers) plus new identifiers. Each new identifier holds its `Renamed` record, and every other key keeps its record. |
| Catalogs.Catalog.AddTranslations | cmds/fixup.go:289-296 | The catalog becomes `Added(old catalog, ids)`. |
| Catalogs.Catalog.RemoveTranslations | cmds/fixup.go:298-308 | The catalog becomes `Removed(old catalog, ids)`, and the returned error is always nil. |
| Catalogs.Catalog.UpdateTranslations | cmds/fixup.go:310-321 | In any map order, keys outside the pairs keep their records, and an old identifier that is not also a new one is gone. A new identifier that is not also an old one ends present and keyed by itself, and as the clean placeholder when the file argument is "en_US". For a renaming, the catalog becomes `Updated`. |
| Catalogs.Reconciled | cmds/fixup.go:165-175 | A locale's catalog after update, then add, then remove. Its keys are the old keys without the renamed-away identifiers, plus the rename targets and the additions, minus the removals. |
| Catalogs.ReconciledWellKeyed | cmds/fixup.go:165-175 | If every record of a catalog is stored under its own identifier, it still is after the edits. Additions store `{ID: id}` under `id`, updates store `{ID: value}` under `value`, and removals only delete. |
| Catalogs.ApplyEdits | cmds/fixup.go:165-175 | The per-locale body of the final loop: skipping empty edit lists, updating, adding and then removing leaves the catalog `Reconciled`. |
| Catalogs.EmptyEditsChangeNothing | cmds/fixup.go:165-175 | Empty update, addition and removal lists leave a catalog unchanged, so the `len(...) > 0` guards do not change the outcome. |
| Catalogs.AddTwiceIsAddOnce | cmds/fixup.go:289-296 | Adding the same identifiers twice is the same as adding them once. |
| Catalogs.RemoveAbsentIsNoOp | cmds/fixup.go:298-308 | Removing identifiers that have no record leaves the catalog as it is. |
| Catalogs.ReconcileOutcome | cmds/fixup.go:165-175 | With disjoint additions, removals and rename targets: each addition ends as its placeholder, each rename target as its renamed record, and removed or renamed-away identifiers are gone. Everything else is unchanged. |
| Catalogs.AdditionOverridesUpdate | cmds/fixup.go:165-171 | When an identifier is both a rename target and an addition, the addition's placeholder wins. |
| Catalogs.ReconcileKeepsLocaleWithinReference | cmds/fixup.go:158-178 | A locale whose keys are within the English catalog's keys stays within them after the same edits. |
| Catalogs.EnglishFileTakesLocaleBranch | cmds/fixup.go:314-317 | Given a file path rather than "en_US", a renamed English record keeps its old text and is marked dirty. With the literal "en_US" it would become the clean placeholder. |
| Disambiguation.Lower | cmds/fixup.go:101 | Lower-casing keeps the length and lower-cases each character (ASCII). |
| Disambiguation.Classify | cmds/fixup.go:101-149 | An answer is a read error exactly when it is unreadable. A number is invalid. A word is "new", "upd" or "exit" exactly when it spells that word letter by letter, ignoring case; any other word is invalid. |
| Disambiguation.ClassifyWords | cmds/fixup.go:101-149 | A word's classification is decided by its lower-cased form. It is new, updated or cancel exactly when that form is "new", "upd" or "exit", and invalid exactly when it is none of them. |
| Disambiguation.ClassifyIgnoresCase | cmds/fixup.go:101-103 | A word and its lower-cased form are classified alike. |
| Disambiguation.ClassifyMixedCase | cmds/fixup.go:101-103 | "NEW", "Upd" and "eXiT" are recognised as new, upd and exit. |
| Disambiguation.Decide | cmds/fixup.go:92-149 | The prompt never settles on an invalid answer. It settles on the classification of an answer at or after the current position, or on a read error at the end when the answers run out. |
| Disambiguation.DecideSkipsOnlyInvalid | cmds/fixup.go:148-149 | Every answer the prompt passes over before the deciding one is invalid. |
| Disambiguation.Selection | cmds/fixup.go:133-136 | The `%d` read yields a value exactly when the answer there is a number, and then it is that number. |
| Disambiguation.Prompt | cmds/fixup.go:92-149 | Reading until a non-invalid classification returns exactly `Decide`'s choice. The next answer to read is the one after the deciding answer, or the end of the script. |
| Disambiguation.Step | cmds/fixup.go:87-152 | One iteration of the range loop. With no removals it prompts nothing and changes nothing. Otherwise the prompt's decision settles it: a read error panics, "exit" aborts, "new" changes only the answers read, and "upd" goes on to `Select`. The array keeps its length, the live length never grows, and the answers read only advance. |
| Disambiguation.Select | cmds/fixup.go:127-144 | The "upd" branch reads the selection at the next answer. A failed read or a number outside 1 to the number of removals ends the cycle with nothing else changed. A valid number k goes on to `Rename` of removal k-1. The live length never grows. |
| Disambiguation.Rename | cmds/fixup.go:137-142 | Records `updated[removed[k]] := cells[index]` and deletes removal k. If the range index is past the live length, the iteration panics. Otherwise the array becomes `Shifted` at that index and the live length drops by one. The answers read are unchanged. |
| Disambiguation.Loop | cmds/fixup.go:85-152 | The range loop from an index on. It visits every index of the original length, whatever has been removed since. It stops at the first iteration that panics or exits, with that iteration's state. The array keeps its length and the live length never grows. |
| Disambiguation.Offers | cmds/fixup.go:86-152 | The candidates the loop asks about from an index on, in order, as printed at line 93: the cell at each visited index while removals remain, up to the iteration that ends the loop. There is at most one per remaining index. |
| Disambiguation.StepRejects | cmds/fixup.go:133-144 | "upd" followed by a failed or out-of-range selection changes nothing but the answers read, and still ends the candidate's cycle (`escape = false` at line 144). |
| Slices.Shifted | cmds/fixup.go:323-325 | The backing array after a removal: cells before the index are kept, cells from the index up to the new length come from one place to the right, and the rest keep their old values, a stale copy included. |
| Disambiguation.Cycle | cmds/fixup.go:88-151 | The new backing array, outcome and state are exactly `Step`'s. A read error panics and "exit" aborts. "new" changes only the answers read. "upd" with a failed or out-of-range selection changes nothing else. A valid selection k records `updated[removed[k-1]] := candidate` and deletes that removal. It then shifts the array at the range index, or panics when that index is no longer live. |
| Disambiguation.Choose | cmds/fixup.go:127-144 | After "upd", the array, outcome and state are exactly `Select`'s: a failed or out-of-range selection changes nothing but the answers read, and a valid one renames. |
| Disambiguation.Move | cmds/fixup.go:136-142 | Renaming removal k to the candidate: the array, outcome and state are exactly `Rename`'s. The update is recorded and the removal dropped. The array is `Shifted` at the index, or the iteration panics when the index is past the live length. |
| Disambiguation.Visit | cmds/fixup.go:86-152 | One iteration is exactly `Step`: with no removals left it prompts nothing and changes nothing, and otherwise it is a prompt cycle. |
| Disambiguation.Resolve | cmds/fixup.go:84-154 | The final backing array, outcome and state are exactly `Loop` from a fresh state. The range runs over the original length, and the loop ends early exactly when an iteration panics or exits. |
| Disambiguation.Disambiguate | cmds/fixup.go:80-154 | The outcome, live additions, removals and updates are exactly those of `Loop` from a fresh state. With no removals nothing is prompted and nothing changes. Removals and additions only shrink, and every update maps an original removal to an original addition. Unless the loop panics, the bookkeeping ends settled. |
| Disambiguation.SettledAfterUpdate | cmds/fixup.go:136-142 | Moving one live addition and one removal into the update map keeps both partitions. The sizes are kept and the update map stays a renaming. |
| Disambiguation.SettledInitially | cmds/fixup.go:80-83 | Duplicate-free, disjoint additions and removals with an empty update map start out settled. |
| Disambiguation.MoveAccounts | cmds/fixup.go:137-142 | A rename keeps every identifier drawn from the originals, stale cells included. When the addition is then removed, settled bookkeeping stays settled. |
| Disambiguation.StepAccounts | cmds/fixup.go:88-151 | Every iteration keeps the identifiers drawn from the originals. Unless it panics, it keeps settled bookkeeping settled. |
| Disambiguation.LoopAccounts | cmds/fixup.go:85-152 | The whole range loop keeps the identifiers drawn from the originals. Unless it panics, it keeps settled bookkeeping settled. |
| Disambiguation.LoopWithoutRemovals | cmds/fixup.go:87 | With no removals, the loop offers no candidate and changes nothing. |
| Disambiguation.LoopSettles | cmds/fixup.go:80-154 | From the diff's results, removals and additions only shrink, and updates map original removals to original additions. Unless the loop panics, duplicate-free, disjoint inputs end settled. |
| Disambiguation.StepRenames | cmds/fixup.go:92-144 | "upd" followed by a valid selection k+1 is exactly a rename of removal k, with the next answer read two past the deciding one. |
| Disambiguation.GreetingRenamed | cmds/fixup.go:127-144 | For additions ["greeting.new"] and removals ["greeting.old"], the answers "upd" and 1 record `greeting.old -> greeting.new` and leave no addition and no removal. |
| Disambiguation.SkipAfterRemoval | cmds/fixup.go:85-142 | Additions ["a","b","c"] and removals ["x","y"], with answers "upd", 1, "new", "new": the candidates offered are "a", "c", "c". "b" is never offered and stays an addition, and "x" is renamed to "a". |
| Disambiguation.StaleIndexPanics | cmds/fixup.go:85-142 | Additions ["a","b"] and removals ["x","y"], with answers "upd", 1, "upd", 1: after the first rename the live slice is ["b"], the stale "b" at index 1 is offered, and renaming it panics. |
| Fixup.ReconcileLocales | cmds/fixup.go:158-178 | Each locale's catalog is written as `Reconciled` with the run's edits. A locale whose records are keyed by their identifiers is written keyed so. |
| Fixup.Reconcile | cmds/fixup.go:80-185 | The run ends as the disambiguation loop over the diff's additions and removals ends: aborted on "exit", panicked on a panic, and otherwise completed with exactly the loop's edits. A completed run's renaming, additions and removals are duplicate-free and partition the identifiers found in source or in English but not both. Each locale is written `Reconciled`, keyed by identifier when it was read so. When no English identifier is gone from source, the run completes with no update, no removal and the diff's additions. |
| Fixup.Run | cmds/fixup.go:55-185 | The run fails with a scan error exactly when some file fails to scan, and with that file's message. Otherwise it is `Reconcile` over the identifiers found in the source, with the same outcome, edits and written catalogs. |

## Left out

- Parsing Go files and extracting `T(...)`/`t(...)` literals (`inspectFile`,
  including its `strconv.Unquote` panic): each file is given as its
  extracted strings or its scan error.
- File discovery (`getGoFiles`, `findTranslationFiles`), loading catalogs
  (`findI18nStrings`) and writing them (`writeStringInfoMapToJSON`): I/O. The
  English catalog and the locale catalogs are given as values, and the
  catalogs `Run` would write are returned.
- The `locales["en_US"][0]` lookup and the empty-path check
  (`cmds/fixup.go:67-71`), and errors loading a catalog
  (`cmds/fixup.go:75-78`, `159-163`): they depend on the file system.
- Writing each catalog and its error (`cmds/fixup.go:177-184`): writing is
  not modelled. A write error is never reported in any case. The `err`
  assigned at line 177 is the one declared inside the loop at line 159,
  which shadows the function's own `err`. Lines 180-184 read that outer
  `err`, which is nil once line 75 has passed. So `Run` goes on to the next
  locale after a failed write, prints "OK" and returns nil. `Completed`
  stands for that nil return.
- Console output, the verbose `Println`/`Printf` wrappers and the prompts'
  text.
- `os.Exit(0)` and `panic` are outcome variants (`Exit`, `Fail`, and
  `Aborted`, `Panicked` in `Fixup.RunResult`). The process state at that
  point is not modelled.
- `fmt.Scanf` is abstracted to one answer per call: a word, a number or an
  unreadable answer. Partial consumption of a line is not modelled, and a
  number read by `%s` counts as an invalid word. A `Word` stands for a
  non-empty run of non-blank characters. An empty line fails the `%s` read,
  so it is scripted as `Unreadable`, not as an empty word. A line holding
  a decimal integer is always scripted as a `Number`, never as a `Word`.
- Disambiguation.Lower: lower-cases ASCII letters only, not the full Unicode
  case mapping of `strings.ToLower`.
- Go map iteration order: the diff results are specified by their element
  sets, `UpdateTranslations` processes pairs in an arbitrary order, and the
  locales are a sequence.
- Catalogs.Catalog.UpdateTranslations: the exact result is stated only when
  the update map is a renaming (injective, and no identifier is both old and
  new). Otherwise the result depends on map order, and only some
  order-independent facts are stated: untouched keys keep their records,
  an old identifier that is not a new one is gone, and a new identifier
  that is not an old one ends keyed by itself. The disambiguation loop
  always produces a renaming.
- Catalogs.ApplyEdits: stated exactly for a renaming, for the same reason.
- `common.I18nStringInfo` fields other than ID, translation and dirty.
- `removedTranslations` is modelled as a value: its own backing array is not
  shared with anything else the loop reads, so the shift in place is not
  observable there.
