/**
 * The diff engine of cmds/fixup.go: `getAdditionalTranslations` (252-261)
 * and `getRemovedTranslations` (263-273), two set differences between the
 * identifiers found in source and the English catalog's keys. Each walks a
 * Go map, whose iteration order is unspecified, so only the set of
 * identifiers returned is fixed, not their order.
 */
module Diff {
  import opened Slices
  import opened Catalogs

  /** `additions` lists each source identifier missing from the English catalog, once. */
  ghost predicate IsAdditions(additions: seq<string>, source: map<string, int>, english: map<string, StringInfo>)
  {
    NoDup(additions) && forall id :: id in additions <==> id in source && id !in english
  }

  /** `removed` lists each English identifier no longer found in source, once. */
  ghost predicate IsRemovals(removed: seq<string>, source: map<string, int>, english: map<string, StringInfo>)
  {
    NoDup(removed) && forall id :: id in removed <==> id in english && id !in source
  }

  /** `getAdditionalTranslations`: walk the source map in some order, keeping identifiers English lacks. */
  method GetAdditionalTranslations(source: map<string, int>, english: map<string, StringInfo>)
    returns (additions: seq<string>)
    ensures IsAdditions(additions, source, english)
  {
    additions := [];
    var unvisited := source.Keys;
    while unvisited != {}
      invariant unvisited <= source.Keys
      invariant NoDup(additions)
      invariant forall id :: id in additions <==> id in source && id !in unvisited && id !in english
      decreases unvisited
    {
      var id :| id in unvisited;
      if id !in english {
        additions := additions + [id];
      }
      unvisited := unvisited - {id};
    }
  }

  /** `getRemovedTranslations`: walk the English map in some order, keeping identifiers source lacks. */
  method GetRemovedTranslations(source: map<string, int>, english: map<string, StringInfo>)
    returns (removed: seq<string>)
    ensures IsRemovals(removed, source, english)
  {
    removed := [];
    var unvisited := english.Keys;
    while unvisited != {}
      invariant unvisited <= english.Keys
      invariant NoDup(removed)
      invariant forall id :: id in removed <==> id in english && id !in unvisited && id !in source
      decreases unvisited
    {
      var id :| id in unvisited;
      if id !in source {
        removed := removed + [id];
      }
      unvisited := unvisited - {id};
    }
  }

  /**
   * The two results partition the symmetric difference of the two key sets:
   * they are disjoint, together they hold exactly the identifiers found on one
   * side only, and their lengths are the sizes of the two set differences.
   */
  lemma DiffPartition(additions: seq<string>, removed: seq<string>, source: map<string, int>, english: map<string, StringInfo>)
    requires IsAdditions(additions, source, english) && IsRemovals(removed, source, english)
    ensures Elems(additions) == source.Keys - english.Keys && Elems(removed) == english.Keys - source.Keys
    ensures Elems(additions) !! Elems(removed)
    ensures forall id :: (id in additions || id in removed) <==> (id in source <==> id !in english)
    ensures |additions| == |source.Keys - english.Keys|
    ensures |removed| == |english.Keys - source.Keys|
  {
    assert Elems(additions) == source.Keys - english.Keys;
    assert Elems(removed) == english.Keys - source.Keys;
    NoDupCard(additions);
    NoDupCard(removed);
  }
}
