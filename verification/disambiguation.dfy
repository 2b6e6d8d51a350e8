/**
 * The disambiguation loop of `Run` (cmds/fixup.go:85-154): while identifiers
 * removed from source remain, the operator classifies each added identifier
 * as new, as an update of one removed identifier, or aborts the run.
 *
 * Console input is a scripted sequence of answers, one per `fmt.Scanf` call.
 * `additionalTranslations` is kept as its backing array plus its current
 * length: `Run` ranges over the slice it started with while
 * `removeFromSlice` shifts that same array underneath, which makes the loop
 * skip the candidate after a removed one, visit stale copies past the live
 * length, and panic when it removes at an index that is no longer live.
 */
module Disambiguation {
  import opened Wrappers
  import opened Slices
  import Catalogs

  /**
   * What one `fmt.Scanf` call reads: a word, an integer, or nothing usable.
   * A `Word` stands for what `%s` yields, a non-empty run of non-blank
   * characters; an empty line fails that read and is scripted as
   * `Unreadable`, not as an empty word. A line holding a decimal integer is
   * always scripted as a `Number`, which `%d` reads as that integer and
   * `%s` as a word that is none of "new", "upd" and "exit".
   */
  datatype Answer = Word(text: string) | Number(value: int) | Unreadable

  /** How the classification prompt understands one answer. */
  datatype Choice = IsNew | IsUpdated | Cancel | Invalid | ReadFailed

  /** How the loop (or one prompt cycle) ends: normally, by "exit" (`os.Exit(0)`), or by a panic. */
  datatype Outcome = Done | Exit | Fail

  /** `unicode.ToLower` on the ASCII range; other characters are left alone. */
  function LowerChar(c: char): char
  {
    if 'A' <= c <= 'Z' then (c as int + 32) as char else c
  }

  /** `strings.ToLower`: lower-cases each character. */
  function Lower(s: string): (r: string)
    ensures |r| == |s|
    ensures forall i :: 0 <= i < |s| ==> r[i] == LowerChar(s[i])
  {
    if s == [] then [] else [LowerChar(s[0])] + Lower(s[1..])
  }

  /** `strings.ToLower(text) == w`, compared letter by letter. */
  predicate LowersTo(text: string, w: string)
  {
    |text| == |w| && forall i :: 0 <= i < |w| ==> LowerChar(text[i]) == w[i]
  }

  /** Comparing letter by letter is comparing the lower-cased word. */
  lemma LowersToIsLower(text: string, w: string)
    ensures LowersTo(text, w) <==> Lower(text) == w
  {
    if LowersTo(text, w) {
      assert forall i :: 0 <= i < |w| ==> Lower(text)[i] == w[i];
    }
  }

  /**
   * The classification of the answer to "new or updated?": the lower-cased
   * word "new", "upd" or "exit"; any other word is invalid, and so is a
   * number, which `%s` reads as a word of digits; an unreadable answer is a
   * read error, on which `Run` panics.
   */
  function Classify(a: Answer): (c: Choice)
    ensures c == ReadFailed <==> a.Unreadable?
    ensures a.Number? ==> c == Invalid
    ensures a.Word? ==> (c == IsNew <==> LowersTo(a.text, "new"))
    ensures a.Word? ==> (c == IsUpdated <==> LowersTo(a.text, "upd"))
    ensures a.Word? ==> (c == Cancel <==> LowersTo(a.text, "exit"))
  {
    match a
    case Word(text) =>
      if LowersTo(text, "new") then assert LowerChar(text[0]) == 'n'; IsNew
      else if LowersTo(text, "upd") then IsUpdated
      else if LowersTo(text, "exit") then Cancel
      else Invalid
    case Number(_) => Invalid
    case Unreadable => ReadFailed
  }

  /** A word is classified by its lower-cased form: "new", "upd" and "exit" are choices, every other word is invalid. */
  lemma ClassifyWords(text: string)
    ensures Classify(Word(text)) == IsNew <==> Lower(text) == "new"
    ensures Classify(Word(text)) == IsUpdated <==> Lower(text) == "upd"
    ensures Classify(Word(text)) == Cancel <==> Lower(text) == "exit"
    ensures Classify(Word(text)) == Invalid <==> Lower(text) != "new" && Lower(text) != "upd" && Lower(text) != "exit"
  {
    LowersToIsLower(text, "new");
    LowersToIsLower(text, "upd");
    LowersToIsLower(text, "exit");
  }

  /** Lower-casing twice is lower-casing once. */
  lemma LowerIdempotent(s: string)
    ensures Lower(Lower(s)) == Lower(s)
  {
  }

  /** Matching the classification words ignores case. */
  lemma ClassifyIgnoresCase(text: string)
    ensures Classify(Word(Lower(text))) == Classify(Word(text))
  {
    LowerIdempotent(text);
    ClassifyWords(text);
    ClassifyWords(Lower(text));
  }

  /** The three words themselves are the three choices. */
  lemma ChoiceWords()
    ensures Classify(Word("new")) == IsNew && Classify(Word("upd")) == IsUpdated && Classify(Word("exit")) == Cancel
  {
    ClassifyWords("new");
    ClassifyWords("upd");
    ClassifyWords("exit");
  }

  /** Upper- and mixed-case spellings of the three words are recognised. */
  lemma ClassifyMixedCase()
    ensures Classify(Word("NEW")) == IsNew
    ensures Classify(Word("Upd")) == IsUpdated
    ensures Classify(Word("eXiT")) == Cancel
  {
    assert Lower("NEW") == "new";
    assert Lower("Upd") == "upd";
    assert Lower("eXiT") == "exit";
    ClassifyWords("NEW");
    ClassifyWords("Upd");
    ClassifyWords("eXiT");
  }

  /** The classification the prompt settles on, and the index of the answer that settled it. */
  datatype Decision = Decision(choice: Choice, at: nat)

  /**
   * The answers from `pos` on, as the prompt loop reads them: invalid
   * answers are skipped, and the first other answer decides; running out of
   * answers is a read error at the end of the script.
   */
  function Decide(script: seq<Answer>, pos: nat): (d: Decision)
    requires pos <= |script|
    ensures pos <= d.at <= |script|
    ensures d.choice != Invalid
    ensures d.at < |script| ==> d.choice == Classify(script[d.at])
    ensures d.at == |script| ==> d.choice == ReadFailed
    decreases |script| - pos
  {
    if pos == |script| then Decision(ReadFailed, pos)
    else if Classify(script[pos]) == Invalid then Decide(script, pos + 1)
    else Decision(Classify(script[pos]), pos)
  }

  /** The prompt skips invalid answers only: every answer before the deciding one is invalid. */
  lemma {:induction false} DecideSkipsOnlyInvalid(script: seq<Answer>, pos: nat)
    requires pos <= |script|
    ensures forall j :: pos <= j < Decide(script, pos).at ==> Classify(script[j]) == Invalid
    decreases |script| - pos
  {
    if pos < |script| && Classify(script[pos]) == Invalid {
      DecideSkipsOnlyInvalid(script, pos + 1);
    }
  }

  /** What reading the answer at `pos` tells about the decision from `pos` on. */
  lemma DecideStep(script: seq<Answer>, pos: nat)
    requires pos <= |script|
    ensures pos == |script| ==> Decide(script, pos) == Decision(ReadFailed, pos)
    ensures pos < |script| && Classify(script[pos]) == Invalid ==> Decide(script, pos) == Decide(script, pos + 1)
    ensures pos < |script| && Classify(script[pos]) != Invalid ==> Decide(script, pos) == Decision(Classify(script[pos]), pos)
  {
  }

  /** The integer the answer at `i` gives to `%d`, or None when that read fails. */
  function Selection(script: seq<Answer>, i: nat): (r: Option<int>)
    ensures r.Some? <==> i < |script| && script[i].Number?
    ensures r.Some? ==> r.value == script[i].value
  {
    if i < |script| && script[i].Number? then Some(script[i].value) else None
  }

  /**
   * The loop's bookkeeping after it ends normally, for inputs as the diff
   * produces them (`a0` the original additions, `r0` the original removals,
   * disjoint): every original addition is either still an addition or the
   * new identifier of exactly one update, every original removal is either
   * still a removal or the old identifier of exactly one update, and the
   * updates form a renaming.
   */
  ghost predicate Settled(additions: seq<string>, removed: seq<string>, updated: map<string, string>,
                          a0: set<string>, r0: set<string>, total: nat, nRemoved: nat)
  {
    && NoDup(additions) && NoDup(removed)
    && Elems(additions) !! updated.Values && Elems(additions) + updated.Values == a0
    && Elems(removed) !! updated.Keys && Elems(removed) + updated.Keys == r0
    && a0 !! r0
    && |additions| + |updated| == total
    && |removed| + |updated| == nRemoved
    && Catalogs.Renaming(updated)
  }

  /** Reclassifying one live addition as an update of one removal keeps the bookkeeping settled. */
  lemma SettledAfterUpdate(additions: seq<string>, removed: seq<string>, updated: map<string, string>,
                           a0: set<string>, r0: set<string>, total: nat, nRemoved: nat, index: nat, k: nat)
    requires Settled(additions, removed, updated, a0, r0, total, nRemoved)
    requires index < |additions| && k < |removed|
    ensures Settled(RemoveAt(additions, index), RemoveAt(removed, k), updated[removed[k] := additions[index]],
                    a0, r0, total, nRemoved)
  {
    var c, key := additions[index], removed[k];
    var a1, r1, u := RemoveAt(additions, index), RemoveAt(removed, k), updated[key := c];
    assert NoDup(a1) && Elems(a1) == Elems(additions) - {c} && |a1| == |additions| - 1 by {
      RemoveAtElems(additions, index);
    }
    assert NoDup(r1) && Elems(r1) == Elems(removed) - {key} && |r1| == |removed| - 1 by {
      RemoveAtElems(removed, k);
    }
    assert c in a0 && c !in updated.Values && c !in r0 by {
      assert c in Elems(additions);
    }
    assert key in r0 && key !in updated.Keys && key !in a0 by {
      assert key in Elems(removed);
    }
    assert u.Keys == updated.Keys + {key} && u.Values == updated.Values + {c}
        && |u| == |updated| + 1 && Catalogs.Renaming(u) by {
      RenamingExtend(updated, key, c);
    }
    MoveOne(Elems(additions), updated.Values, c, a0);
    MoveOne(Elems(removed), updated.Keys, key, r0);
  }

  /** Before the loop, with no updates yet, duplicate-free and disjoint additions and removals are settled. */
  lemma SettledInitially(additions: seq<string>, removed: seq<string>)
    requires NoDup(additions) && NoDup(removed) && Elems(additions) !! Elems(removed)
    ensures Settled(additions, removed, map[], Elems(additions), Elems(removed), |additions|, |removed|)
  {
    var e: map<string, string> := map[];
    assert e.Values == {};
  }

  /** Moving one element from one part of a partition to the other keeps it a partition. */
  lemma MoveOne(from: set<string>, to: set<string>, x: string, whole: set<string>)
    requires from !! to && from + to == whole && x in from
    ensures (from - {x}) !! (to + {x}) && (from - {x}) + (to + {x}) == whole
  {
  }

  /**
   * Adding a pair whose old identifier is not yet renamed and whose new
   * identifier is not yet a target, and which is not itself a target or
   * renamed, keeps a renaming a renaming, one pair larger.
   */
  lemma RenamingExtend(updated: map<string, string>, key: string, c: string)
    requires Catalogs.Renaming(updated)
    requires key !in updated.Keys && key !in updated.Values && key != c
    requires c !in updated.Keys && c !in updated.Values
    ensures var u := updated[key := c];
      && u.Keys == updated.Keys + {key} && u.Values == updated.Values + {c}
      && |u| == |updated| + 1 && Catalogs.Renaming(u)
  {
    var u := updated[key := c];
    assert u.Values == updated.Values + {c} by {
      ValuesOfFreshKey(updated, key, c);
    }
    assert forall o, o' :: o in u && o' in u && o != o' ==> u[o] != u[o'] by {
      InjectiveExtend(updated, key, c);
    }
    assert u.Keys == updated.Keys + {key};
    assert u.Keys !! u.Values;
    assert |u| == |updated| + 1 by {
      assert u.Keys == updated.Keys + {key};
    }
  }

  /** Mapping a fresh key to a value not yet taken keeps a map injective. */
  lemma InjectiveExtend(updated: map<string, string>, key: string, c: string)
    requires forall o, o' :: o in updated && o' in updated && o != o' ==> updated[o] != updated[o']
    requires key !in updated && c !in updated.Values
    ensures var u := updated[key := c];
      forall o, o' :: o in u && o' in u && o != o' ==> u[o] != u[o']
  {
    var u := updated[key := c];
    forall o, o' | o in u && o' in u && o != o' ensures u[o] != u[o'] {
      if o == key { assert u[o'] == updated[o'] && updated[o'] in updated.Values; }
      else if o' == key { assert u[o] == updated[o] && updated[o] in updated.Values; }
      else { assert u[o] == updated[o] && u[o'] == updated[o']; }
    }
  }

  /** Mapping a key not yet in the map adds exactly its value to the values. */
  lemma ValuesOfFreshKey(m: map<string, string>, k: string, v: string)
    requires k !in m
    ensures m[k := v].Values == m.Values + {v}
  {
    var u := m[k := v];
    forall x | x in u.Values ensures x in m.Values + {v} {
      var o :| o in u && u[o] == x;
    }
    forall x | x in m.Values ensures x in u.Values {
      var o :| o in m && m[o] == x;
      assert u[o] == x;
    }
    assert u[k] == v;
  }

  /** The new identifiers of an extended map are the old ones and the added one. */
  lemma ValuesOfUpdate(m: map<string, string>, k: string, v: string)
    ensures m[k := v].Values <= m.Values + {v}
  {
    forall x | x in m[k := v].Values ensures x in m.Values + {v} {
      var o :| o in m[k := v] && m[k := v][o] == x;
      if o != k { assert m[o] == x; }
    }
  }

  /**
   * `removeFromSlice` on a backing array whose cells are all drawn from `a0`
   * leaves every cell drawn from `a0`.
   */
  lemma ShiftKeepsMembers(b: seq<string>, len: nat, index: nat, a0: set<string>)
    requires index < len <= |b|
    requires forall j :: 0 <= j < |b| ==> b[j] in a0
    ensures var b' := Shifted(b, len, index); forall j :: 0 <= j < |b'| ==> b'[j] in a0
  {
    var b' := Shifted(b, len, index);
    forall j | 0 <= j < |b'| ensures b'[j] in a0 {
      if j < len - 1 {
        assert b'[j] == b'[..len - 1][j] == RemoveAt(b[..len], index)[j];
        if j < index { assert b'[j] == b[j]; } else { assert b'[j] == b[j + 1]; }
      } else {
        assert b'[j] == b'[len - 1..][j - (len - 1)] == b[j];
      }
    }
  }

  /** The live prefix of a backing array drawn from `a0` has its elements in `a0`. */
  lemma ElemsWithin(b: seq<string>, len: nat, a0: set<string>)
    requires len <= |b| && forall j :: 0 <= j < |b| ==> b[j] in a0
    ensures Elems(b[..len]) <= a0
  {
    forall x | x in Elems(b[..len]) ensures x in a0 {
      var j :| 0 <= j < len && b[..len][j] == x;
      assert b[j] == x;
    }
  }

  /**
   * The local variables of `Run` that the disambiguation loop changes,
   * besides the backing array of `additionalTranslations`: that slice's
   * current length, `removedTranslations`, `updatedTranslations` (old
   * identifier to new identifier), and how many answers have been read.
   */
  datatype LoopState = LoopState(live: nat, removed: seq<string>, updated: map<string, string>, pos: nat)

  /** The cells of the backing array, the loop's variables, and how the loop (or one iteration of it) ended. */
  datatype Snapshot = Snapshot(outcome: Outcome, cells: seq<string>, st: LoopState)

  /**
   * The `for escape` loop's prompt (cmds/fixup.go:92-105, 145-149): each
   * pass reads one word with `fmt.Scanf("%s\n", &input)`; words that are not
   * a choice print "Invalid response." and prompt again, so the prompt
   * settles on the decision the answers from `pos` on make, and stops
   * reading just after the answer that decided it.
   */
  method Prompt(script: seq<Answer>, pos: nat) returns (c: Choice, pos': nat)
    requires pos <= |script|
    ensures c == Decide(script, pos).choice && c != Invalid
    ensures var d := Decide(script, pos); pos' == if d.at < |script| then d.at + 1 else d.at
  {
    pos' := pos;
    c := Invalid;
    while c == Invalid
      invariant pos <= pos' <= |script|
      invariant c == Invalid ==> Decide(script, pos') == Decide(script, pos)
      invariant c != Invalid ==> var d := Decide(script, pos);
        c == d.choice && pos' == if d.at < |script| then d.at + 1 else d.at
      decreases |script| - pos', if c == Invalid then 1 else 0
    {
      DecideStep(script, pos');
      if pos' == |script| {
        c := ReadFailed;
      } else {
        c := Classify(script[pos']);
        pos' := pos' + 1;
      }
    }
  }

  /**
   * One iteration of the range loop (cmds/fixup.go:87-152) for the
   * candidate at `index`, on the cells of the backing array of
   * `additionalTranslations` and the loop's variables. With no removals
   * left nothing happens. Otherwise the prompt decides: a read error panics,
   * "exit" ends the run, "new" changes nothing, and "upd" goes on to
   * `Select`.
   */
  function Step(cells: seq<string>, st: LoopState, script: seq<Answer>, index: nat): (s: Snapshot)
    requires st.live <= |cells| && st.pos <= |script| && index < |cells|
    ensures |s.cells| == |cells| && s.st.live <= st.live && st.pos <= s.st.pos <= |script|
  {
    if st.removed == [] then Snapshot(Done, cells, st)
    else
      var d := Decide(script, st.pos);
      var pos := if d.at < |script| then d.at + 1 else d.at;
      match d.choice
      case ReadFailed => Snapshot(Fail, cells, st.(pos := pos))
      case Cancel => Snapshot(Exit, cells, st.(pos := pos))
      case IsUpdated => Select(cells, st.(pos := pos), script, index)
      case IsNew => Snapshot(Done, cells, st.(pos := pos))
  }

  /**
   * After "upd" (cmds/fixup.go:126-144): the answer at `st.pos` is the
   * selection. A failed or out-of-range one changes nothing and, like
   * "new", ends the cycle; a valid one renames.
   */
  function Select(cells: seq<string>, st: LoopState, script: seq<Answer>, index: nat): (s: Snapshot)
    requires st.live <= |cells| && st.pos <= |script| && index < |cells|
    ensures |s.cells| == |cells| && s.st.live <= st.live && st.pos <= s.st.pos <= |script|
  {
    var sel := Selection(script, st.pos);
    var pos := if st.pos < |script| then st.pos + 1 else st.pos;
    if sel.None? || sel.value <= 0 || sel.value > |st.removed| then Snapshot(Done, cells, st.(pos := pos))
    else Rename(cells, st.(pos := pos), index, sel.value - 1)
  }

  /**
   * A valid selection of removal `k` (cmds/fixup.go:137-142): record it as
   * renamed to the candidate, drop it from the removals, then remove the
   * addition at the range's own `index`, which shifts the live cells left,
   * or panics when `index` is no longer live.
   */
  function Rename(cells: seq<string>, st: LoopState, index: nat, k: nat): (s: Snapshot)
    requires st.live <= |cells| && index < |cells| && k < |st.removed|
    ensures |s.cells| == |cells| && s.st.live <= st.live && s.st.pos == st.pos
  {
    var st' := st.(removed := RemoveAt(st.removed, k), updated := st.updated[st.removed[k] := cells[index]]);
    if st.live <= index then Snapshot(Fail, cells, st')
    else Snapshot(Done, Shifted(cells, st.live, index), st'.(live := st.live - 1))
  }

  /**
   * The range loop from `index` on (cmds/fixup.go:87-152): it visits every
   * index of the slice it started with, whatever has been removed since,
   * and ends at once when an iteration panics or exits.
   */
  function Loop(cells: seq<string>, st: LoopState, script: seq<Answer>, index: nat): (s: Snapshot)
    requires st.live <= |cells| && st.pos <= |script| && index <= |cells|
    ensures |s.cells| == |cells| && s.st.live <= st.live && st.pos <= s.st.pos <= |script|
    decreases |cells| - index
  {
    if index == |cells| then Snapshot(Done, cells, st)
    else
      var s := Step(cells, st, script, index);
      if s.outcome != Done then s else Loop(s.cells, s.st, script, index + 1)
  }

  /** The candidates the loop asks the operator about from `index` on, in order. */
  function Offers(cells: seq<string>, st: LoopState, script: seq<Answer>, index: nat): (o: seq<string>)
    requires st.live <= |cells| && st.pos <= |script| && index <= |cells|
    ensures |o| <= |cells| - index
    decreases |cells| - index
  {
    if index == |cells| then []
    else
      var s := Step(cells, st, script, index);
      (if st.removed == [] then [] else [cells[index]])
        + (if s.outcome != Done then [] else Offers(s.cells, s.st, script, index + 1))
  }

  /**
   * One prompt cycle (cmds/fixup.go:88-151) for the candidate at `index` of
   * the slice the range loop ranges over, `additions` being that slice's
   * backing array, updated in place by `removeFromSlice`.
   */
  method Cycle(additions: array<string>, st: LoopState, script: seq<Answer>, index: nat)
    returns (outcome: Outcome, st': LoopState)
    requires st.live <= additions.Length && st.pos <= |script| && index < additions.Length && st.removed != []
    modifies additions
    ensures Snapshot(outcome, additions[..], st') == Step(old(additions[..]), st, script, index)
  {
    var c, pos := Prompt(script, st.pos);
    st' := st.(pos := pos);
    if c == ReadFailed {
      // `panic(err)`
      return Fail, st';
    } else if c == IsNew {
      return Done, st';
    } else if c == IsUpdated {
      outcome, st' := Choose(additions, st', script, index);
    } else {
      // "exit": `os.Exit(0)`
      return Exit, st';
    }
  }

  /**
   * After "upd" (cmds/fixup.go:127-144): read the number of a removal and,
   * when it is in range, record the rename and remove the candidate.
   */
  method Choose(additions: array<string>, st: LoopState, script: seq<Answer>, index: nat)
    returns (outcome: Outcome, st': LoopState)
    requires st.live <= additions.Length && st.pos <= |script| && index < additions.Length
    modifies additions
    ensures Snapshot(outcome, additions[..], st') == Select(old(additions[..]), st, script, index)
  {
    var sel := Selection(script, st.pos);
    st' := st;
    if st.pos < |script| {
      st' := st.(pos := st.pos + 1);
    }
    if sel.None? || sel.value <= 0 || sel.value > |st.removed| {
      return Done, st';
    }
    outcome, st' := Move(additions, st', index, sel.value - 1);
  }

  /**
   * Removal `k` turns out to be the candidate at `index` under a new name
   * (cmds/fixup.go:136-142): record the update, drop the removal, and remove
   * the candidate from the live slice, which panics when `index` is past it.
   */
  method Move(additions: array<string>, st: LoopState, index: nat, k: nat)
    returns (outcome: Outcome, st': LoopState)
    requires st.live <= additions.Length && index < additions.Length && k < |st.removed|
    modifies additions
    ensures Snapshot(outcome, additions[..], st') == Rename(old(additions[..]), st, index, k)
  {
    var candidate := additions[index];
    st' := st.(updated := st.updated[st.removed[k] := candidate], removed := RemoveAt(st.removed, k));
    if st.live <= index {
      // `slice[index+1:]` is out of range: panic
      return Fail, st';
    }
    RemoveFromSlice(additions, st.live, index);
    outcome, st' := Done, st'.(live := st.live - 1);
  }

  /** One iteration of the range loop (cmds/fixup.go:87-152): a prompt cycle if removals remain. */
  method Visit(additions: array<string>, st: LoopState, script: seq<Answer>, index: nat)
    returns (outcome: Outcome, st': LoopState)
    requires st.live <= additions.Length && st.pos <= |script| && index < additions.Length
    modifies additions
    ensures Snapshot(outcome, additions[..], st') == Step(old(additions[..]), st, script, index)
  {
    if st.removed == [] {
      return Done, st;
    }
    outcome, st' := Cycle(additions, st, script, index);
  }

  /**
   * The disambiguation loop (cmds/fixup.go:84-154) over the backing array
   * `additions` of the additions `Run` started with, with `removed` as the
   * removals, an empty update map, and no answers read yet.
   */
  method Resolve(additions: array<string>, removed: seq<string>, script: seq<Answer>)
    returns (outcome: Outcome, st: LoopState)
    modifies additions
    ensures Snapshot(outcome, additions[..], st) == Loop(old(additions[..]), LoopState(additions.Length, removed, map[], 0), script, 0)
  {
    var n := additions.Length;
    ghost var cells0 := additions[..];
    st := LoopState(n, removed, map[], 0);
    ghost var st0 := st;
    outcome := Done;
    if n > 0 {
      var index := 0;
      // a panic or "exit" inside a cycle ends the range loop at once
      while index < n && outcome == Done
        invariant index <= n && st.live <= n && st.pos <= |script|
        invariant outcome == Done ==> Loop(additions[..], st, script, index) == Loop(cells0, st0, script, 0)
        invariant outcome != Done ==> Snapshot(outcome, additions[..], st) == Loop(cells0, st0, script, 0)
      {
        outcome, st := Visit(additions, st, script, index);
        index := index + 1;
      }
    }
  }

  /**
   * The disambiguation protocol run on fresh state: the diff's additions
   * (copied into a backing array of their own) and removals, an empty update
   * map, and the operator's answers. Returns how the loop ended and the
   * additions, removals and updates it leaves: exactly what `Loop` computes.
   * With no removals nothing is prompted and nothing changes. Removals and
   * additions only shrink, and every update maps an original removal to an
   * original addition. Unless the loop panics, the diff's duplicate-free,
   * disjoint results end `Settled`.
   */
  method Disambiguate(additions: seq<string>, removed: seq<string>, script: seq<Answer>)
    returns (outcome: Outcome, additions': seq<string>, removed': seq<string>, updated: map<string, string>)
    ensures var s := Loop(additions, LoopState(|additions|, removed, map[], 0), script, 0);
      && outcome == s.outcome && additions' == s.cells[..s.st.live]
      && removed' == s.st.removed && updated == s.st.updated
    ensures Elems(removed') <= Elems(removed) && updated.Keys <= Elems(removed)
    ensures Elems(additions') <= Elems(additions) && updated.Values <= Elems(additions)
    ensures removed == [] ==> outcome == Done && additions' == additions && removed' == [] && updated == map[]
    ensures outcome != Fail && NoDup(additions) && NoDup(removed) && Elems(additions) !! Elems(removed) ==>
      Settled(additions', removed', updated, Elems(additions), Elems(removed), |additions|, |removed|)
  {
    var backing := new string[|additions|](i requires 0 <= i < |additions| => additions[i]);
    assert backing[..] == additions;
    var st;
    outcome, st := Resolve(backing, removed, script);
    additions', removed', updated := backing[..st.live], st.removed, st.updated;
    LoopSettles(additions, removed, script);
    if removed == [] {
      LoopWithoutRemovals(additions, LoopState(|additions|, removed, map[], 0), script, 0);
      assert additions[..|additions|] == additions;
    }
  }

  /**
   * Where the loop's identifiers may come from: removals and old identifiers
   * are among the original removals `r0`, and every cell of the backing
   * array (stale ones included) and every new identifier is among the
   * original additions `a0`.
   */
  ghost predicate Drawn(cells: seq<string>, st: LoopState, a0: set<string>, r0: set<string>)
  {
    && Elems(st.removed) <= r0 && st.updated.Keys <= r0
    && (forall j :: 0 <= j < |cells| ==> cells[j] in a0)
    && st.updated.Values <= a0
  }

  /**
   * Moving removal `k` into the update map, with the cell at `index` as the
   * new identifier, keeps the identifiers `Drawn`; if the addition was then
   * removed (the cells are `Shifted`), settled bookkeeping stays settled.
   */
  lemma {:induction false} MoveAccounts(cells: seq<string>, cells': seq<string>, st: LoopState, st': LoopState,
                     index: nat, k: nat, failed: bool, a0: set<string>, r0: set<string>, nRemoved: nat)
    requires st.live <= |cells| && index < |cells| && k < |st.removed|
    requires Drawn(cells, st, a0, r0)
    requires st'.updated == st.updated[st.removed[k] := cells[index]]
    requires st'.removed == RemoveAt(st.removed, k)
    requires failed ==> cells' == cells
    requires !failed ==> index < st.live && st'.live == st.live - 1 && cells' == Shifted(cells, st.live, index)
    ensures Drawn(cells', st', a0, r0)
    ensures !failed && Settled(cells[..st.live], st.removed, st.updated, a0, r0, |cells|, nRemoved) ==>
      Settled(cells'[..st'.live], st'.removed, st'.updated, a0, r0, |cells|, nRemoved)
  {
    assert st'.updated.Values <= a0 by {
      ValuesOfUpdate(st.updated, st.removed[k], cells[index]);
    }
    assert st'.updated.Keys <= r0 by {
      assert st.removed[k] in Elems(st.removed);
    }
    assert Elems(st'.removed) <= r0 by {
      forall x | x in st'.removed ensures x in st.removed {
        assert x in multiset(st'.removed);
      }
    }
    if !failed {
      ShiftKeepsMembers(cells, st.live, index, a0);
      if Settled(cells[..st.live], st.removed, st.updated, a0, r0, |cells|, nRemoved) {
        SettledAfterUpdate(cells[..st.live], st.removed, st.updated, a0, r0, |cells|, nRemoved, index, k);
      }
    }
  }

  /**
   * An iteration keeps the identifiers `Drawn`, and unless it panics it
   * keeps settled bookkeeping settled.
   */
  lemma {:induction false} StepAccounts(cells: seq<string>, st: LoopState, script: seq<Answer>, index: nat,
                     a0: set<string>, r0: set<string>, nRemoved: nat)
    requires st.live <= |cells| && st.pos <= |script| && index < |cells|
    requires Drawn(cells, st, a0, r0)
    ensures var s := Step(cells, st, script, index);
      && Drawn(s.cells, s.st, a0, r0)
      && (s.outcome != Fail && Settled(cells[..st.live], st.removed, st.updated, a0, r0, |cells|, nRemoved) ==>
            Settled(s.cells[..s.st.live], s.st.removed, s.st.updated, a0, r0, |cells|, nRemoved))
  {
    var s := Step(cells, st, script, index);
    var moved := false;
    if st.removed != [] {
      var d := Decide(script, st.pos);
      var pos := if d.at < |script| then d.at + 1 else d.at;
      if d.choice == IsUpdated {
        assert s == Select(cells, st.(pos := pos), script, index);
        var sel := Selection(script, pos);
        var pos' := if pos < |script| then pos + 1 else pos;
        if sel.Some? && 0 < sel.value <= |st.removed| {
          var k := sel.value - 1;
          assert s == Rename(cells, st.(pos := pos'), index, k);
          MoveAccounts(cells, s.cells, st, s.st, index, k, st.live <= index, a0, r0, nRemoved);
          moved := true;
        }
      }
    }
    if !moved {
      assert s.cells == cells && s.st.live == st.live && s.st.removed == st.removed && s.st.updated == st.updated;
    }
  }

  /**
   * The whole loop keeps the identifiers `Drawn`, and unless it panics it
   * keeps settled bookkeeping settled.
   */
  lemma {:induction false} LoopAccounts(cells: seq<string>, st: LoopState, script: seq<Answer>, index: nat,
                                        a0: set<string>, r0: set<string>, nRemoved: nat)
    requires st.live <= |cells| && st.pos <= |script| && index <= |cells|
    requires Drawn(cells, st, a0, r0)
    ensures var s := Loop(cells, st, script, index);
      && Drawn(s.cells, s.st, a0, r0)
      && (s.outcome != Fail && Settled(cells[..st.live], st.removed, st.updated, a0, r0, |cells|, nRemoved) ==>
            Settled(s.cells[..s.st.live], s.st.removed, s.st.updated, a0, r0, |cells|, nRemoved))
    decreases |cells| - index
  {
    if index < |cells| {
      var s := Step(cells, st, script, index);
      StepAccounts(cells, st, script, index, a0, r0, nRemoved);
      if s.outcome == Done {
        LoopAccounts(s.cells, s.st, script, index + 1, a0, r0, nRemoved);
      }
    }
  }

  /** With no removals the loop prompts nothing and changes nothing (the `len(removedTranslations) > 0` guard). */
  lemma {:induction false} LoopWithoutRemovals(cells: seq<string>, st: LoopState, script: seq<Answer>, index: nat)
    requires st.live <= |cells| && st.pos <= |script| && index <= |cells| && st.removed == []
    ensures Loop(cells, st, script, index) == Snapshot(Done, cells, st)
    ensures Offers(cells, st, script, index) == []
    decreases |cells| - index
  {
    if index < |cells| {
      LoopWithoutRemovals(cells, st, script, index + 1);
    }
  }

  /**
   * The loop run from the diff's results: removals and additions only
   * shrink, every update maps an original removal to an original addition,
   * and unless the loop panics, duplicate-free and disjoint results end
   * `Settled`.
   */
  lemma {:induction false} LoopSettles(additions: seq<string>, removed: seq<string>, script: seq<Answer>)
    ensures var s := Loop(additions, LoopState(|additions|, removed, map[], 0), script, 0);
      && Elems(s.st.removed) <= Elems(removed) && s.st.updated.Keys <= Elems(removed)
      && Elems(s.cells[..s.st.live]) <= Elems(additions) && s.st.updated.Values <= Elems(additions)
      && (s.outcome != Fail && NoDup(additions) && NoDup(removed) && Elems(additions) !! Elems(removed) ==>
            Settled(s.cells[..s.st.live], s.st.removed, s.st.updated, Elems(additions), Elems(removed),
                    |additions|, |removed|))
  {
    var st0 := LoopState(|additions|, removed, map[], 0);
    var a0, r0 := Elems(additions), Elems(removed);
    assert st0.updated.Keys == {} && st0.updated.Values == {};
    assert Drawn(additions, st0, a0, r0);
    assert additions[..|additions|] == additions;
    if NoDup(additions) && NoDup(removed) && a0 !! r0 {
      SettledInitially(additions, removed);
    }
    LoopAccounts(additions, st0, script, 0, a0, r0, |removed|);
    var s := Loop(additions, st0, script, 0);
    ElemsWithin(s.cells, s.st.live, a0);
  }

  /** An "upd" answer followed by a valid selection `k + 1` renames. */
  lemma {:induction false} StepRenames(cells: seq<string>, st: LoopState, script: seq<Answer>, index: nat, k: nat)
    requires st.live <= |cells| && st.pos <= |script| && index < |cells| && k < |st.removed|
    requires Decide(script, st.pos).choice == IsUpdated
    requires Selection(script, Decide(script, st.pos).at + 1) == Some(k + 1)
    ensures var pos := Decide(script, st.pos).at + 2;
      Step(cells, st, script, index) == Rename(cells, LoopState(st.live, st.removed, st.updated, pos), index, k)
  {
    var d := Decide(script, st.pos);
    StepSelects(cells, st, script, index);
    SelectRenames(cells, st.(pos := d.at + 1), script, index, k);
    assert st.(pos := d.at + 1).(pos := d.at + 2) == LoopState(st.live, st.removed, st.updated, d.at + 2);
  }

  /** An "upd" answer goes on to read a selection at the next answer. */
  lemma {:induction false} StepSelects(cells: seq<string>, st: LoopState, script: seq<Answer>, index: nat)
    requires st.live <= |cells| && st.pos <= |script| && index < |cells| && st.removed != []
    requires Decide(script, st.pos).choice == IsUpdated
    ensures Decide(script, st.pos).at < |script|
    ensures Step(cells, st, script, index) == Select(cells, st.(pos := Decide(script, st.pos).at + 1), script, index)
  {
  }

  /** A selection `k + 1` in range renames removal `k` to the candidate. */
  lemma {:induction false} SelectRenames(cells: seq<string>, st: LoopState, script: seq<Answer>, index: nat, k: nat)
    requires st.live <= |cells| && st.pos <= |script| && index < |cells| && k < |st.removed|
    requires Selection(script, st.pos) == Some(k + 1)
    ensures Select(cells, st, script, index) == Rename(cells, st.(pos := st.pos + 1), index, k)
  {
  }

  /** A "new" answer changes nothing but the answers read. */
  lemma {:induction false} StepKeeps(cells: seq<string>, st: LoopState, script: seq<Answer>, index: nat)
    requires st.live <= |cells| && st.pos <= |script| && index < |cells| && st.removed != []
    requires Decide(script, st.pos).choice == IsNew
    ensures Step(cells, st, script, index) == Snapshot(Done, cells, st.(pos := Decide(script, st.pos).at + 1))
  {
  }

  /**
   * An "upd" answer followed by a failed or out-of-range selection changes
   * nothing but the answers read, and still ends the candidate's cycle.
   */
  lemma {:induction false} StepRejects(cells: seq<string>, st: LoopState, script: seq<Answer>, index: nat)
    requires st.live <= |cells| && st.pos <= |script| && index < |cells| && st.removed != []
    requires Decide(script, st.pos).choice == IsUpdated
    requires var sel := Selection(script, Decide(script, st.pos).at + 1);
      sel.None? || sel.value <= 0 || sel.value > |st.removed|
    ensures var at := Decide(script, st.pos).at;
      Step(cells, st, script, index) == Snapshot(Done, cells, st.(pos := if at + 1 < |script| then at + 2 else at + 1))
  {
    var at := Decide(script, st.pos).at;
    StepSelects(cells, st, script, index);
    SelectRejects(cells, st.(pos := at + 1), script, index);
    assert st.(pos := at + 1).(pos := at + 2) == st.(pos := at + 2);
  }

  /** A failed or out-of-range selection changes nothing but the answers read. */
  lemma {:induction false} SelectRejects(cells: seq<string>, st: LoopState, script: seq<Answer>, index: nat)
    requires st.live <= |cells| && st.pos <= |script| && index < |cells|
    requires var sel := Selection(script, st.pos); sel.None? || sel.value <= 0 || sel.value > |st.removed|
    ensures Select(cells, st, script, index) == Snapshot(Done, cells, st.(pos := if st.pos < |script| then st.pos + 1 else st.pos))
  {
  }

  /**
   * "greeting.old" is no longer used and "greeting.new" is new: answering
   * "upd" and selecting 1 records the rename and leaves neither an addition
   * nor a removal.
   */
  lemma {:induction false} GreetingRenamed()
    ensures var s := Loop(["greeting.new"], LoopState(1, ["greeting.old"], map[], 0), [Word("upd"), Number(1)], 0);
      && s.outcome == Done && s.cells[..s.st.live] == [] && s.st.removed == []
      && s.st.updated == map["greeting.old" := "greeting.new"]
    ensures Offers(["greeting.new"], LoopState(1, ["greeting.old"], map[], 0), [Word("upd"), Number(1)], 0)
      == ["greeting.new"]
  {
    var script := [Word("upd"), Number(1)];
    ChoiceWords();
    DecideStep(script, 0);
    assert RemoveAt(["greeting.old"], 0) == [];
    assert RemoveAt(["greeting.new"], 0) == [];
  }

  /** The answers of the two examples below: "upd" and 1, then two more answers. */
  function TwoAnswers(second: Answer, third: Answer): seq<Answer>
  {
    [Word("upd"), Number(1), second, third]
  }

  /** Answering "upd" and 1 for the first of the live additions renames removal "x" of ["x", "y"] to it. */
  lemma {:induction false} RenameFirst(cells: seq<string>, second: Answer, third: Answer)
    requires 1 <= |cells|
    ensures Step(cells, LoopState(|cells|, ["x", "y"], map[], 0), TwoAnswers(second, third), 0)
      == Snapshot(Done, Shifted(cells, |cells|, 0), LoopState(|cells| - 1, ["y"], map["x" := cells[0]], 2))
  {
    var st0, script := LoopState(|cells|, ["x", "y"], map[], 0), TwoAnswers(second, third);
    ChoiceWords();
    DecideStep(script, 0);
    StepRenames(cells, st0, script, 0, 0);
    RenameHead(cells, st0.(pos := 2));
  }

  /** Renaming removal "x" of ["x", "y"] to the first live addition. */
  lemma {:induction false} RenameHead(cells: seq<string>, st: LoopState)
    requires 1 <= |cells| && st.live == |cells| && st.removed == ["x", "y"] && st.updated == map[]
    ensures Rename(cells, st, 0, 0) == Snapshot(Done, Shifted(cells, |cells|, 0), LoopState(|cells| - 1, ["y"], map["x" := cells[0]], st.pos))
  {
    assert RemoveAt(["x", "y"], 0) == ["y"];
    assert st.updated["x" := cells[0]] == map["x" := cells[0]];
  }

  /** Answering "new" to the last two candidates of three changes nothing but the answers read. */
  lemma {:induction false} NewTwice(cells: seq<string>, st: LoopState)
    requires |cells| == 3 && st.live <= 3 && st.pos == 2 && st.removed != []
    ensures Loop(cells, st, TwoAnswers(Word("new"), Word("new")), 1) == Snapshot(Done, cells, st.(pos := 4))
    ensures Offers(cells, st, TwoAnswers(Word("new"), Word("new")), 1) == cells[1..]
  {
    var script := TwoAnswers(Word("new"), Word("new"));
    ChoiceWords();
    DecideStep(script, 2);
    StepKeeps(cells, st, script, 1);
    DecideStep(script, 3);
    StepKeeps(cells, st.(pos := 3), script, 2);
    assert Loop(cells, st.(pos := 4), script, 3) == Snapshot(Done, cells, st.(pos := 4));
    assert Loop(cells, st.(pos := 3), script, 2) == Snapshot(Done, cells, st.(pos := 4));
    assert cells[1..] == [cells[1], cells[2]];
  }

  /** A cycle that ends normally hands its state on to the next index. */
  lemma {:induction false} LoopGoesOn(cells: seq<string>, st: LoopState, script: seq<Answer>, index: nat)
    requires st.live <= |cells| && st.pos <= |script| && index < |cells| && st.removed != []
    requires Step(cells, st, script, index).outcome == Done
    ensures var s := Step(cells, st, script, index);
      && Loop(cells, st, script, index) == Loop(s.cells, s.st, script, index + 1)
      && Offers(cells, st, script, index) == [cells[index]] + Offers(s.cells, s.st, script, index + 1)
  {
  }

  /** Removing "a" from ["a", "b", "c"] in place leaves a stale copy of "c". */
  lemma {:induction false} ShiftThree(cells: seq<string>)
    requires cells == ["a", "b", "c"]
    ensures Shifted(cells, 3, 0) == ["b", "c", "c"]
  {
  }

  /** Removing "a" from ["a", "b"] in place leaves a stale copy of "b". */
  lemma {:induction false} ShiftTwo(cells: seq<string>)
    requires cells == ["a", "b"]
    ensures Shifted(cells, 2, 0) == ["b", "b"]
  {
  }

  /**
   * The range index does not follow the shift: after "a" is renamed, "b"
   * moves to index 0, which the loop has passed, so "b" is never offered and
   * stays an addition; the stale copy of "c" left at index 2 is offered a
   * second time.
   */
  lemma {:induction false} SkipAfterRemoval()
    ensures var cells, st0, script := ["a", "b", "c"], LoopState(3, ["x", "y"], map[], 0),
                                      TwoAnswers(Word("new"), Word("new"));
      && Offers(cells, st0, script, 0) == ["a", "c", "c"]
      && var s := Loop(cells, st0, script, 0);
      && s.outcome == Done && s.cells[..s.st.live] == ["b", "c"]
      && s.st.removed == ["y"] && s.st.updated == map["x" := "a"]
  {
    var cells, st0, script := ["a", "b", "c"], LoopState(3, ["x", "y"], map[], 0), TwoAnswers(Word("new"), Word("new"));
    var st1 := LoopState(2, ["y"], map["x" := "a"], 2);
    var cells1 := ["b", "c", "c"];
    ShiftThree(cells);
    RenameFirst(cells, Word("new"), Word("new"));
    LoopGoesOn(cells, st0, script, 0);
    NewTwice(cells1, st1);
    assert cells1[1..] == ["c", "c"] && cells1[..2] == ["b", "c"];
  }

  /**
   * Removing at a range index that is no longer live panics: after "a" is
   * renamed the live slice is ["b"], and renaming the stale copy of "b" at
   * index 1 removes at index 1 of a slice of length 1.
   */
  lemma {:induction false} StaleIndexPanics()
    ensures var cells, st0, script := ["a", "b"], LoopState(2, ["x", "y"], map[], 0),
                                      TwoAnswers(Word("upd"), Number(1));
      && Offers(cells, st0, script, 0) == ["a", "b"]
      && Loop(cells, st0, script, 0).outcome == Fail
  {
    var cells, st0, script := ["a", "b"], LoopState(2, ["x", "y"], map[], 0), TwoAnswers(Word("upd"), Number(1));
    var st1 := LoopState(1, ["y"], map["x" := "a"], 2);
    var cells1 := ["b", "b"];
    ShiftTwo(cells);
    RenameFirst(cells, Word("upd"), Number(1));
    LoopGoesOn(cells, st0, script, 0);
    StaleRename(cells1, st1);
  }

  /** Renaming the candidate at index 1 once the live slice has length 1 panics. */
  lemma {:induction false} StaleRename(cells: seq<string>, st: LoopState)
    requires |cells| == 2 && st.live == 1 && st.pos == 2 && st.removed == ["y"]
    ensures Loop(cells, st, TwoAnswers(Word("upd"), Number(1)), 1).outcome == Fail
    ensures Offers(cells, st, TwoAnswers(Word("upd"), Number(1)), 1) == [cells[1]]
  {
    var script := TwoAnswers(Word("upd"), Number(1));
    ChoiceWords();
    DecideStep(script, 2);
    StepRenames(cells, st, script, 1, 0);
    assert Rename(cells, st.(pos := 4), 1, 0).outcome == Fail;
    assert Step(cells, st, script, 1).outcome == Fail;
  }
}
