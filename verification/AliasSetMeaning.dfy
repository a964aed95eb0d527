/** What alias sets promise about their members. */
module AliasSetMeaning {
  import opened AliasSets
  import opened AliasSetSteps

  datatype AliasResult = NoAlias | MayAlias | PartialAlias | MustAlias

  /** What the alias analysis says: about two pointers with their sizes, about an instruction and a
      pointer, and about two instructions. */
  datatype Oracle = Oracle(
    alias: (Ptr, Ptr) -> AliasResult,
    touches: (Inst, Ptr) -> bool,
    conflicts: (Inst, Inst) -> bool)

  ghost predicate Consistent(o: Oracle) {
    && (forall p, q :: o.alias(p, q) == o.alias(q, p))
    && (forall p, q, x | o.alias(p, q) == MustAlias :: o.alias(p, x) == o.alias(q, x))
    && (forall i, j :: o.conflicts(i, j) == o.conflicts(j, i))
  }

  /** What is done by an instruction without a specific address. */
  function InstAccess(i: Inst): Access { if i.writes then MOD_REF else Access(false, true) }

  /** Some member has to do with the pointer. */
  ghost predicate TouchesPtr(o: Oracle, x: AliasSet, p: Ptr) {
    (exists q :: q in x.ptrs && o.alias(q, p) != NoAlias) || (exists i :: i in x.unknown && o.touches(i, p))
  }

  /** Some member has to do with the instruction. */
  ghost predicate TouchesInst(o: Oracle, x: AliasSet, i: Inst) {
    (exists q :: q in x.ptrs && o.touches(i, q)) || (exists j :: j in x.unknown && o.conflicts(j, i))
  }

  /** No member of one set has to do with a member of the other. */
  ghost predicate Apart(o: Oracle, x: AliasSet, y: AliasSet) {
    (forall p | p in y.ptrs :: !TouchesPtr(o, x, p)) && (forall i | i in y.unknown :: !TouchesInst(o, x, i))
  }

  ghost predicate AllMust(o: Oracle, ptrs: seq<Ptr>) {
    forall p, q | p in ptrs && q in ptrs && p != q :: o.alias(p, q) == MustAlias
  }

  /** Some member writes, as far as is recorded. */
  ghost predicate Writes(x: AliasSet, accesses: map<Ptr, Access>) {
    (exists p :: p in x.ptrs && p in accesses && accesses[p].mod) || (exists i :: i in x.unknown && i.writes)
  }

  /** Some member reads; of an instruction without a specific address that is always assumed. */
  ghost predicate Reads(x: AliasSet, accesses: map<Ptr, Access>) {
    (exists p :: p in x.ptrs && p in accesses && accesses[p].ref) || x.unknown != []
  }

  /** Unless it is taken to alias everything, a set is a may-alias set only where it has to be, and no access is
      ascribed to it that none of its members has. */
  ghost predicate SetTight(o: Oracle, x: AliasSet, accesses: map<Ptr, Access>) {
    !x.aliasAny ==>
      && (x.unknown == [] && AllMust(o, x.ptrs) ==> x.must)
      && (x.access.mod ==> Writes(x, accesses))
      && (x.access.ref ==> Reads(x, accesses))
  }

  /** A must-alias set holds pointers that must alias, and a set's access covers those of its members. */
  ghost predicate SetOk(o: Oracle, x: AliasSet, accesses: map<Ptr, Access>) {
    && (x.must ==> x.unknown == [] && AllMust(o, x.ptrs))
    && (forall p | p in x.ptrs && p in accesses :: Covers(x.access, accesses[p]))
    && (forall i | i in x.unknown :: Covers(x.access, InstAccess(i)))
    && SetTight(o, x, accesses)
  }

  ghost predicate Meaning(h: Heap, o: Oracle, accesses: map<Ptr, Access>) {
    && (forall s, t {:trigger Apart(o, h.sets[s], h.sets[t])} | Live(h, s) && Live(h, t) && s != t ::
          Apart(o, h.sets[s], h.sets[t]))
    && (forall s {:trigger SetOk(o, h.sets[s], accesses)} | Live(h, s) :: SetOk(o, h.sets[s], accesses))
  }

  /** In a saturated tracker there is one set left; before, no set is taken to alias everything. */
  ghost predicate AnyOk(h: Heap) {
    && (h.any == None ==> forall s | Live(h, s) :: !h.sets[s].aliasAny)
    && (h.any.Some? ==> forall s | Live(h, s) :: Some(s) == h.any && IsAny(h.sets[s]))
  }

  predicate IsAny(x: AliasSet) { x.aliasAny && !x.must && x.access == MOD_REF }

  lemma MeaningKept(h: Heap, g: Heap, o: Oracle, accesses: map<Ptr, Access>)
    requires Meaning(h, o, accesses) && SameLive(h, g)
    ensures Meaning(g, o, accesses) && (AnyOk(h) ==> AnyOk(g))
  {
    forall s | Live(g, s) ensures SetOk(o, g.sets[s], accesses) {
      assert Live(h, s) && SetOk(o, h.sets[s], accesses);
    }
    forall s, t | Live(g, s) && Live(g, t) && s != t ensures Apart(o, g.sets[s], g.sets[t]) {
      assert Live(h, s) && Live(h, t) && Apart(o, h.sets[s], h.sets[t]);
      SameApart(o, h.sets[s], h.sets[t], g.sets[s], g.sets[t]);
    }
  }

  lemma SameApart(o: Oracle, x: AliasSet, y: AliasSet, x': AliasSet, y': AliasSet)
    requires Apart(o, x, y) && x.ptrs == x'.ptrs && x.unknown == x'.unknown && y.ptrs == y'.ptrs &&
      y.unknown == y'.unknown
    ensures Apart(o, x', y')
  {
    forall p | p in y'.ptrs ensures !TouchesPtr(o, x', p) {
      assert !TouchesPtr(o, x, p);
    }
    forall i | i in y'.unknown ensures !TouchesInst(o, x', i) {
      assert !TouchesInst(o, x, i);
    }
  }

  lemma ApartBack(o: Oracle, x: AliasSet, y: AliasSet)
    requires Consistent(o) && Apart(o, x, y)
    ensures Apart(o, y, x)
  {
    forall p | p in x.ptrs ensures !TouchesPtr(o, y, p) {
      forall q | q in y.ptrs ensures o.alias(q, p) == NoAlias {
        assert !TouchesPtr(o, x, q);
      }
      forall i | i in y.unknown ensures !o.touches(i, p) {
        assert !TouchesInst(o, x, i);
      }
    }
    forall i | i in x.unknown ensures !TouchesInst(o, y, i) {
      forall q | q in y.ptrs ensures !o.touches(i, q) {
        assert !TouchesPtr(o, x, q);
      }
      forall j | j in y.unknown ensures !o.conflicts(j, i) {
        assert !TouchesInst(o, x, j);
      }
    }
  }

  /** A must-alias set has to do with a pointer just if its first member has. */
  lemma MustTouches(o: Oracle, x: AliasSet, accesses: map<Ptr, Access>, p: Ptr)
    requires Consistent(o) && SetOk(o, x, accesses) && x.must && x.ptrs != []
    ensures TouchesPtr(o, x, p) <==> o.alias(x.ptrs[0], p) != NoAlias
  {
    assert x.ptrs[0] in x.ptrs;
    if TouchesPtr(o, x, p) {
      var q :| q in x.ptrs && o.alias(q, p) != NoAlias;
      if q != x.ptrs[0] {
        assert o.alias(q, x.ptrs[0]) == MustAlias;
      }
    }
  }

  /** Pointers that must alias one member of a must-alias set must alias all. */
  lemma MustExtends(o: Oracle, ptrs: seq<Ptr>, more: seq<Ptr>)
    requires Consistent(o) && AllMust(o, ptrs) && AllMust(o, more)
    requires ptrs != [] && more != [] && o.alias(ptrs[0], more[0]) == MustAlias
    ensures AllMust(o, ptrs + more)
  {
    var a, b := ptrs[0], more[0];
    assert a in ptrs && b in more;
    forall p, q | p in ptrs + more && q in ptrs + more && p != q ensures o.alias(p, q) == MustAlias {
      forall x | x in ptrs ensures o.alias(x, b) == MustAlias {
        assert x != a ==> o.alias(a, x) == MustAlias;
      }
      forall x, y | x in ptrs && y in more ensures o.alias(x, y) == MustAlias {
        assert o.alias(x, b) == MustAlias;
        assert y != b ==> o.alias(b, y) == MustAlias;
        assert o.alias(x, y) == o.alias(b, y) || y == b;
      }
    }
  }

  /** Two must-alias sets whose first members must alias. */
  predicate BothMust(o: Oracle, x: AliasSet, y: AliasSet) {
    x.must && y.must && x.ptrs != [] && y.ptrs != [] && o.alias(x.ptrs[0], y.ptrs[0]) == MustAlias
  }

  /** Sets that are merged have different members, and must-alias sets have some. */
  predicate Mergeable(x: AliasSet, y: AliasSet) {
    x.aliasAny || (!y.aliasAny && (x.must ==> x.ptrs != []) && (y.must ==> y.ptrs != []) &&
                   forall p | p in x.ptrs :: p !in y.ptrs)
  }

  lemma MergeTight(h: Heap, a: int, b: int, must: bool, o: Oracle, accesses: map<Ptr, Access>)
    requires Live(h, a) && Live(h, b) && a != b && SetOk(o, h.sets[a], accesses) && SetOk(o, h.sets[b], accesses)
    requires must == BothMust(o, h.sets[a], h.sets[b]) && Mergeable(h.sets[a], h.sets[b])
    ensures SetTight(o, Merged(h, a, b, must).sets[a], accesses)
  {
    var x, y, z := h.sets[a], h.sets[b], Merged(h, a, b, must).sets[a];
    if !z.aliasAny {
      if z.unknown == [] && AllMust(o, z.ptrs) {
        assert forall p | p in x.ptrs || p in y.ptrs :: p in z.ptrs;
        assert AllMust(o, x.ptrs) && AllMust(o, y.ptrs);
        assert x.ptrs[0] in x.ptrs && y.ptrs[0] in y.ptrs;
      }
      assert Writes(x, accesses) || Writes(y, accesses) ==> Writes(z, accesses);
      assert Reads(x, accesses) || Reads(y, accesses) ==> Reads(z, accesses);
    }
  }

  lemma MergeMeans(h: Heap, a: int, b: int, must: bool, o: Oracle, accesses: map<Ptr, Access>)
    requires Consistent(o) && Meaning(h, o, accesses) && Live(h, a) && Live(h, b) && a != b
    requires must == BothMust(o, h.sets[a], h.sets[b]) && Mergeable(h.sets[a], h.sets[b])
    ensures Meaning(Merged(h, a, b, must), o, accesses)
  {
    var g := Merged(h, a, b, must);
    assert SetOk(o, h.sets[a], accesses) && SetOk(o, h.sets[b], accesses);
    forall s | Live(g, s) ensures SetOk(o, g.sets[s], accesses) {
      if s == a {
        if must { MustExtends(o, h.sets[a].ptrs, h.sets[b].ptrs); }
        MergeTight(h, a, b, must, o, accesses);
      } else {
        assert SetOk(o, h.sets[s], accesses);
      }
    }
    forall s, t | Live(g, s) && Live(g, t) && s != t ensures Apart(o, g.sets[s], g.sets[t]) {
      if s == a {
        ApartFromBoth(h, a, b, must, o, accesses, t);
      } else if t == a {
        ApartFromBoth(h, a, b, must, o, accesses, s);
        ApartBack(o, g.sets[a], g.sets[s]);
      } else {
        assert Apart(o, h.sets[s], h.sets[t]);
      }
    }
  }

  lemma ApartFromBoth(h: Heap, a: int, b: int, must: bool, o: Oracle, accesses: map<Ptr, Access>, t: int)
    requires Meaning(h, o, accesses) && Live(h, a) && Live(h, b) && Live(h, t) && a != b && t != a && t != b
    ensures Apart(o, Merged(h, a, b, must).sets[a], h.sets[t])
  {
    var x := Merged(h, a, b, must).sets[a];
    assert Apart(o, h.sets[a], h.sets[t]) && Apart(o, h.sets[b], h.sets[t]);
    forall p | p in h.sets[t].ptrs ensures !TouchesPtr(o, x, p) {
      assert !TouchesPtr(o, h.sets[a], p) && !TouchesPtr(o, h.sets[b], p);
    }
    forall i | i in h.sets[t].unknown ensures !TouchesInst(o, x, i) {
      assert !TouchesInst(o, h.sets[a], i) && !TouchesInst(o, h.sets[b], i);
    }
  }

  /** A pointer is added to the only set that has to do with it. */
  lemma WithPtrMeans(h: Heap, s: int, p: Ptr, must: bool, o: Oracle, accesses: map<Ptr, Access>)
    requires Consistent(o) && Meaning(h, o, accesses) && Live(h, s) && p !in accesses
    requires forall t | Live(h, t) && t != s :: !TouchesPtr(o, h.sets[t], p)
    requires must == (h.sets[s].must && (h.sets[s].ptrs != [] ==> o.alias(h.sets[s].ptrs[0], p) == MustAlias))
    requires p !in h.sets[s].ptrs
    ensures Meaning(WithPtr(h, s, p, must), o, accesses)
  {
    var g := WithPtr(h, s, p, must);
    assert SetOk(o, h.sets[s], accesses);
    forall t | Live(g, t) ensures SetOk(o, g.sets[t], accesses) {
      if t == s {
        if must && h.sets[s].ptrs != [] {
          MustExtends(o, h.sets[s].ptrs, [p]);
        }
        WithPtrTight(h, s, p, must, o, accesses);
      } else {
        assert SetOk(o, h.sets[t], accesses);
      }
    }
    forall t, u | Live(g, t) && Live(g, u) && t != u ensures Apart(o, g.sets[t], g.sets[u]) {
      assert Apart(o, h.sets[t], h.sets[u]);
      if u == s {
        WithPtrApart(o, h.sets[t], h.sets[s], g.sets[s], p);
      } else if t == s {
        ApartBack(o, h.sets[s], h.sets[u]);
        WithPtrApart(o, h.sets[u], h.sets[s], g.sets[s], p);
        ApartBack(o, g.sets[u], g.sets[s]);
      }
    }
  }

  lemma WithPtrTight(h: Heap, s: int, p: Ptr, must: bool, o: Oracle, accesses: map<Ptr, Access>)
    requires Live(h, s) && SetOk(o, h.sets[s], accesses) && p !in h.sets[s].ptrs
    requires must == (h.sets[s].must && (h.sets[s].ptrs != [] ==> o.alias(h.sets[s].ptrs[0], p) == MustAlias))
    ensures SetTight(o, WithPtr(h, s, p, must).sets[s], accesses)
  {
    var x, z := h.sets[s], WithPtr(h, s, p, must).sets[s];
    assert forall q | q in x.ptrs :: q in z.ptrs;
    assert p in z.ptrs && (x.ptrs != [] ==> x.ptrs[0] in x.ptrs);
    assert AllMust(o, z.ptrs) ==> AllMust(o, x.ptrs);
  }

  lemma WithPtrApart(o: Oracle, x: AliasSet, y: AliasSet, y': AliasSet, p: Ptr)
    requires Apart(o, x, y) && !TouchesPtr(o, x, p) && y'.ptrs == y.ptrs + [p] && y'.unknown == y.unknown
    ensures Apart(o, x, y')
  {
    forall q | q in y'.ptrs ensures !TouchesPtr(o, x, q) {
      assert q in y.ptrs || q == p;
    }
  }

  lemma WithUnknownMeans(h: Heap, s: int, i: Inst, access: Access, o: Oracle, accesses: map<Ptr, Access>)
    requires Consistent(o) && Meaning(h, o, accesses) && Live(h, s)
    requires forall t | Live(h, t) && t != s :: !TouchesInst(o, h.sets[t], i)
    requires access == Union(h.sets[s].access, InstAccess(i))
    ensures Meaning(WithUnknown(h, s, i, access), o, accesses)
  {
    var g := WithUnknown(h, s, i, access);
    assert SetOk(o, h.sets[s], accesses);
    forall t | Live(g, t) ensures SetOk(o, g.sets[t], accesses) {
      if t != s {
        assert SetOk(o, h.sets[t], accesses);
      } else {
        assert i in g.sets[s].unknown;
        assert Writes(h.sets[s], accesses) ==> Writes(g.sets[s], accesses);
      }
    }
    forall t, u | Live(g, t) && Live(g, u) && t != u ensures Apart(o, g.sets[t], g.sets[u]) {
      assert Apart(o, h.sets[t], h.sets[u]);
      if u == s {
        WithUnknownApart(o, h.sets[t], h.sets[s], g.sets[s], i);
      } else if t == s {
        ApartBack(o, h.sets[s], h.sets[u]);
        WithUnknownApart(o, h.sets[u], h.sets[s], g.sets[s], i);
        ApartBack(o, g.sets[u], g.sets[s]);
      }
    }
  }

  lemma WithUnknownApart(o: Oracle, x: AliasSet, y: AliasSet, y': AliasSet, i: Inst)
    requires Apart(o, x, y) && !TouchesInst(o, x, i) && y'.ptrs == y.ptrs && y'.unknown == y.unknown + [i]
    ensures Apart(o, x, y')
  {
    forall j | j in y'.unknown ensures !TouchesInst(o, x, j) {
      assert j in y.unknown || j == i;
    }
  }

  /** A new empty set has to do with nothing. */
  lemma WithSetMeans(h: Heap, s: int, x: AliasSet, any: Maybe, o: Oracle, accesses: map<Ptr, Access>)
    requires Meaning(h, o, accesses) && s !in h.sets && x.ptrs == [] && x.unknown == []
    requires x.aliasAny || (x.must && x.access == NO_ACCESS)
    ensures Meaning(WithSet(h, s, x, any), o, accesses)
  {
    var g := WithSet(h, s, x, any);
    forall t | Live(g, t) ensures SetOk(o, g.sets[t], accesses) {
      if t != s { assert SetOk(o, h.sets[t], accesses); }
    }
    forall t, u | Live(g, t) && Live(g, u) && t != u ensures Apart(o, g.sets[t], g.sets[u]) {
      if t != s && u != s { assert Apart(o, h.sets[t], h.sets[u]); }
    }
  }

  lemma MergeAny(h: Heap, a: int, b: int, must: bool)
    requires h.any == None && AnyOk(h) && Live(h, a) && Live(h, b) && a != b
    ensures AnyOk(Merged(h, a, b, must))
  {
    var g := Merged(h, a, b, must);
    forall s | Live(g, s) ensures !g.sets[s].aliasAny {
      assert Live(h, s);
    }
  }

  /** The sets that a pointer belongs to. */
  ghost function HitByPtr(h: Heap, o: Oracle, p: Ptr): set<int> {
    set s | s in h.sets && Live(h, s) && (h.sets[s].aliasAny || TouchesPtr(o, h.sets[s], p))
  }

  ghost function HitByInst(h: Heap, o: Oracle, i: Inst): set<int> {
    set s | s in h.sets && Live(h, s) && (h.sets[s].aliasAny || TouchesInst(o, h.sets[s], i))
  }

  /** What the members have to do with a pointer does not depend on the counts. */
  lemma SameTouches(o: Oracle, x: AliasSet, y: AliasSet, p: Ptr, i: Inst)
    requires SameMembers(x, y)
    ensures TouchesPtr(o, x, p) == TouchesPtr(o, y, p) && TouchesInst(o, x, i) == TouchesInst(o, y, i) &&
      x.aliasAny == y.aliasAny
  {
  }

  /** After a sweep no set but the one found is hit any more. */
  lemma SweptApart(h: Heap, g: Heap, hit: set<int>, next: int, found: Maybe, o: Oracle, p: Ptr, i: Inst, s: int)
    requires Settled(h) && Settled(g) && Bounded(h, next) && Sweep(h, g, hit, next, found)
    requires Live(g, s) && Some(s) != found
    ensures hit == HitByPtr(h, o, p) ==> !TouchesPtr(o, g.sets[s], p)
    ensures hit == HitByInst(h, o, i) ==> !TouchesInst(o, g.sets[s], i)
  {
    assert Live(h, s) && SameMembers(h.sets[s], g.sets[s]);
    SameTouches(o, h.sets[s], g.sets[s], p, i);
  }
}
