/** `mergeTagSets`: a left-to-right union of tag maps where later sets win. */
module Tags {

  type Tags = map<string, string>

  /** The union of the sets in order, a later set overriding an earlier one on a shared key. */
  function Merged(sets: seq<Tags>): Tags
  {
    if sets == [] then map[] else Merged(sets[..|sets| - 1]) + sets[|sets| - 1]
  }

  /**
   * `mergeTagSets`: copy every pair of every set, in order, into a fresh map.
   * Go's map iteration order is unspecified, so the inner loop takes the keys
   * in an arbitrary order.
   */
  method MergeTagSets(tagSets: seq<Tags>) returns (mergedTags: Tags)
    ensures mergedTags == Merged(tagSets)
  {
    mergedTags := map[];
    for i := 0 to |tagSets|
      invariant mergedTags == Merged(tagSets[..i])
    {
      var tagSet := tagSets[i];
      ghost var before := mergedTags;
      var rest := tagSet.Keys;
      while rest != {}
        invariant rest <= tagSet.Keys
        invariant mergedTags == before + map k | k in tagSet.Keys - rest :: tagSet[k]
        decreases rest
      {
        var k :| k in rest;
        mergedTags := mergedTags[k := tagSet[k]];
        rest := rest - {k};
      }
      assert tagSets[..i + 1][..i] == tagSets[..i];
      assert (map k | k in tagSet.Keys - {} :: tagSet[k]) == tagSet;
    }
    assert tagSets[..|tagSets|] == tagSets;
  }

  /** The merged keys are exactly the keys of the input sets. */
  lemma {:induction false} MergedKeys(sets: seq<Tags>)
    ensures forall k :: k in Merged(sets) <==> exists i :: 0 <= i < |sets| && k in sets[i]
  {
    if sets != [] {
      var init := sets[..|sets| - 1];
      MergedKeys(init);
      assert forall i :: 0 <= i < |init| ==> init[i] == sets[i];
      forall k | k in Merged(sets) && k !in sets[|sets| - 1]
        ensures exists i :: 0 <= i < |sets| && k in sets[i]
      {
        assert k in Merged(init);
        var i :| 0 <= i < |init| && k in init[i];
        assert k in sets[i];
      }
    }
  }

  /** A key's merged value comes from the last set that holds it. */
  lemma {:induction false} MergedLastWins(sets: seq<Tags>, k: string, i: int)
    requires 0 <= i < |sets| && k in sets[i]
    requires forall j :: i < j < |sets| ==> k !in sets[j]
    ensures k in Merged(sets) && Merged(sets)[k] == sets[i][k]
  {
    if i < |sets| - 1 {
      MergedLastWins(sets[..|sets| - 1], k, i);
    }
  }

  /**
   * Merging static tags before derived ones, as each point does: every key of
   * either is present, and a derived key overrides a static one.
   */
  lemma DerivedTagsWin(staticTags: Tags, derived: Tags)
    ensures Merged([staticTags, derived]).Keys == staticTags.Keys + derived.Keys
    ensures forall k :: k in derived ==> Merged([staticTags, derived])[k] == derived[k]
    ensures forall k :: k in staticTags && k !in derived ==> Merged([staticTags, derived])[k] == staticTags[k]
  {
    assert [staticTags, derived][..1] == [staticTags];
    assert [staticTags][..0] == [];
    assert Merged([staticTags]) == map[] + staticTags == staticTags;
    assert Merged([staticTags, derived]) == staticTags + derived;
  }
}
