/** How many pointers the may-alias sets hold. */
module AliasSetSizes {
  import opened AliasSets
  import opened AliasSetSteps

  function MaySize(x: AliasSet): nat { if x.must then 0 else |x.ptrs| }

  /** All pointers in may-alias sets; sets that forward hold none. */
  ghost function MaySum(sets: map<int, AliasSet>): nat
    decreases |sets|
  {
    if sets == map[] then 0
    else
      SomeKey(sets);
      var s :| s in sets;
      MaySize(sets[s]) + MaySum(sets - {s})
  }

  lemma SomeKey(sets: map<int, AliasSet>)
    requires sets != map[]
    ensures exists s :: s in sets
  {
    assert (forall s :: s !in sets) ==> sets == map[];
  }

  lemma {:induction false} MaySumRemove(sets: map<int, AliasSet>, s: int)
    requires s in sets
    ensures MaySum(sets) == MaySize(sets[s]) + MaySum(sets - {s})
    decreases |sets|
  {
    assert sets != map[];
    var t :| t in sets && MaySum(sets) == MaySize(sets[t]) + MaySum(sets - {t});
    if s != t {
      MaySumRemove(sets - {t}, s);
      MaySumRemove(sets - {s}, t);
      assert sets - {t} - {s} == sets - {s} - {t};
    }
  }

  lemma MaySumUpdate(sets: map<int, AliasSet>, s: int, x: AliasSet)
    ensures MaySum(sets[s := x]) == MaySum(sets) + MaySize(x) - if s in sets then MaySize(sets[s]) else 0
  {
    MaySumRemove(sets[s := x], s);
    assert sets[s := x] - {s} == sets - {s};
    if s in sets {
      MaySumRemove(sets, s);
    } else {
      assert sets - {s} == sets;
    }
  }

  /** Merging two sets moves the pointers of the second; those of must-alias sets are counted if the result is none. */
  lemma MergedSum(h: Heap, a: int, b: int, must: bool)
    requires a in h.sets && b in h.sets && a != b && (must ==> h.sets[a].must && h.sets[b].must)
    ensures MaySum(Merged(h, a, b, must).sets) == MaySum(h.sets) +
      if must then 0
      else (if h.sets[a].must then |h.sets[a].ptrs| else 0) + if h.sets[b].must then |h.sets[b].ptrs| else 0
  {
    var g := Merged(h, a, b, must);
    MaySumUpdate(h.sets, a, g.sets[a]);
    MaySumUpdate(h.sets[a := g.sets[a]], b, g.sets[b]);
    assert g.sets == h.sets[a := g.sets[a]][b := g.sets[b]];
  }
}
