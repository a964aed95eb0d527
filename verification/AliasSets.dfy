/** Alias sets in memory: which sets forward to which, who refers to them, and what their members have to
    do with each other. */
module AliasSets {

  datatype Ptr = Ptr(id: int)

  /** An instruction without a specific address. */
  datatype Inst = Inst(id: int, writes: bool)

  datatype Maybe = None | Some(id: int)
  datatype Access = Access(mod: bool, ref: bool)

  const NO_ACCESS := Access(false, false)
  const MOD_REF := Access(true, true)

  function Union(a: Access, b: Access): Access { Access(a.mod || b.mod, a.ref || b.ref) }

  predicate Covers(a: Access, b: Access) { (b.mod ==> a.mod) && (b.ref ==> a.ref) }

  datatype AliasSet = AliasSet(
    ptrs: seq<Ptr>,
    unknown: seq<Inst>,
    forward: Maybe,
    refCount: int,
    aliasAny: bool,
    access: Access,
    must: bool)

  /** A new set. */
  const EMPTY := AliasSet([], [], None, 0, false, NO_ACCESS, true)

  /** The sets by creation order, the set each pointer record names, and the set of a saturated tracker. */
  datatype Heap = Heap(sets: map<int, AliasSet>, recs: map<Ptr, int>, any: Maybe)

  predicate Live(h: Heap, s: int) { s in h.sets && h.sets[s].forward == None }

  /** Sets forward to earlier sets, or to the one set that all are merged into in the end. */
  function Rank(h: Heap, s: int): int { if h.any == Some(s) then -1 else s }

  predicate Link(h: Heap, s: int)
    requires s in h.sets
  {
    s >= 0 && (h.sets[s].forward.Some? ==> h.sets[s].forward.id in h.sets && Rank(h, h.sets[s].forward.id) < Rank(h, s))
  }

  ghost predicate Chains(h: Heap) {
    && (forall s {:trigger Link(h, s)} | s in h.sets :: Link(h, s))
    && (h.any.Some? ==> Live(h, h.any.id))
  }

  /** The set that forwarding ends in. */
  ghost function Target(h: Heap, s: int): (t: int)
    requires Chains(h) && s in h.sets
    ensures Live(h, t) && Rank(h, t) <= Rank(h, s)
    decreases Rank(h, s) + 1
  {
    assert Link(h, s);
    if h.sets[s].forward == None then s else Target(h, h.sets[s].forward.id)
  }

  /** A pointer is in the list of the set that its record leads to, and in no other list. */
  ghost predicate RecOk(h: Heap, p: Ptr)
    requires Chains(h) && p in h.recs
  {
    h.recs[p] in h.sets && p in h.sets[Target(h, h.recs[p])].ptrs
  }

  ghost predicate ListOk(h: Heap, s: int)
    requires Chains(h) && s in h.sets
  {
    && (forall p | p in h.sets[s].ptrs :: p in h.recs && h.recs[p] in h.sets && Target(h, h.recs[p]) == s)
    && (h.sets[s].forward.Some? ==> h.sets[s].ptrs == [] && h.sets[s].unknown == [])
  }

  ghost predicate Linked(h: Heap)
    requires Chains(h)
  {
    && (forall p {:trigger RecOk(h, p)} | p in h.recs :: RecOk(h, p))
    && (forall s {:trigger ListOk(h, s)} | s in h.sets :: ListOk(h, s))
  }

  function Names(h: Heap, s: int): set<Ptr> { set p | p in h.recs && h.recs[p] == s }

  function Forwarders(h: Heap, s: int): set<int> { set t | t in h.sets && h.sets[t].forward == Some(s) }

  /** The references there are to a set: records that name it, sets that forward to it, and one for its
      unknown instructions. */
  function RefsTo(h: Heap, s: int): int
    requires s in h.sets
  {
    |Names(h, s)| + |Forwarders(h, s)| + if h.sets[s].unknown != [] then 1 else 0
  }

  /** A set with a count that is off by d is about to be corrected. */
  predicate CountOk(h: Heap, s: int, off: int, d: int)
    requires s in h.sets
  {
    h.sets[s].refCount == RefsTo(h, s) + if s == off then d else 0
  }

  ghost predicate Counted(h: Heap, off: int, d: int) {
    forall s {:trigger CountOk(h, s, off, d)} | s in h.sets :: CountOk(h, s, off, d)
  }

  /** No set is empty, except one that was just made. */
  ghost predicate NonEmpty(h: Heap, created: int) {
    forall s | Live(h, s) && s != created :: h.sets[s].ptrs != [] || h.sets[s].unknown != []
  }

  ghost predicate Structure(h: Heap, off: int, d: int, created: int) {
    Chains(h) && Linked(h) && Counted(h, off, d) && NonEmpty(h, created)
  }

  /** The same members in the same sets, though sets may be counted and forwarded differently, and
      forwarding ones may be gone. */
  ghost predicate SameLists(h: Heap, g: Heap) {
    && g.recs == h.recs && g.any == h.any && g.sets.Keys <= h.sets.Keys
    && (forall s {:trigger SameMembers(h.sets[s], g.sets[s])} | s in g.sets :: SameMembers(h.sets[s], g.sets[s]))
    && (forall s | Live(h, s) :: s in g.sets)
  }

  predicate SameMembers(a: AliasSet, b: AliasSet) {
    a.(refCount := 0, forward := None) == b.(refCount := 0, forward := None) && a.forward.Some? == b.forward.Some?
  }

  ghost predicate SameTargets(h: Heap, g: Heap)
    requires Chains(h) && Chains(g) && g.sets.Keys <= h.sets.Keys
  {
    forall s {:trigger Target(g, s)} {:trigger Target(h, s)} | s in g.sets :: Target(g, s) == Target(h, s)
  }

  lemma LinkedKept(h: Heap, g: Heap, created: int)
    requires Chains(h) && Chains(g) && Linked(h) && NonEmpty(h, created)
    requires SameLists(h, g) && SameTargets(h, g)
    requires forall p | p in g.recs :: g.recs[p] in g.sets
    ensures Linked(g) && NonEmpty(g, created)
  {
    forall p | p in g.recs ensures RecOk(g, p) {
      assert RecOk(h, p);
      var t := Target(h, h.recs[p]);
      assert SameMembers(h.sets[t], g.sets[t]);
    }
    forall s | s in g.sets ensures ListOk(g, s) {
      assert ListOk(h, s) && SameMembers(h.sets[s], g.sets[s]);
    }
    forall s | Live(g, s) && s != created ensures g.sets[s].ptrs != [] || g.sets[s].unknown != [] {
      assert SameMembers(h.sets[s], g.sets[s]);
    }
  }

  const NOBODY := -1

  /** Every reference is counted and no set is empty. */
  ghost predicate Settled(h: Heap) { Structure(h, NOBODY, 0, NOBODY) }

  /** The same, but that one set still counts a reference that is gone. */
  ghost predicate Owing(h: Heap, s: int) { Structure(h, s, 1, NOBODY) }

  // Steps.

  function Recounted(h: Heap, s: int, d: int): Heap
    requires s in h.sets
  {
    h.(sets := h.sets[s := h.sets[s].(refCount := h.sets[s].refCount + d)])
  }

  function Removed(h: Heap, s: int): Heap { h.(sets := h.sets - {s}) }

  /** Forwarding a set directly to where it leads, which takes one more reference. */
  function Redirected(h: Heap, s: int, f: int): Heap
    requires s in h.sets && f in h.sets && s != f
  {
    h.(sets := h.sets[s := h.sets[s].(forward := Some(f))][f := h.sets[f].(refCount := h.sets[f].refCount + 1)])
  }

  /** Heaps in which forwarding leads to the same place. */
  lemma {:induction false} TargetKept(h: Heap, g: Heap, s: int)
    requires Chains(h) && Chains(g) && SameLists(h, g) && s in g.sets
    requires forall t | t in g.sets && g.sets[t].forward.Some? ::
      t in h.sets && (g.sets[t].forward == h.sets[t].forward || g.sets[t].forward.id == Target(h, t))
    ensures Target(g, s) == Target(h, s)
    decreases Rank(g, s) + 1
  {
    assert Link(g, s) && Link(h, s);
    assert SameMembers(h.sets[s], g.sets[s]);
    if g.sets[s].forward.Some? {
      var f := g.sets[s].forward.id;
      TargetKept(h, g, f);
      if g.sets[s].forward != h.sets[s].forward {
        assert Target(h, f) == f;
      }
    }
  }

  /** Forwarding changes that lead to the same places keep the lists as they are. */
  lemma ShapeKept(h: Heap, g: Heap, created: int)
    requires Chains(h) && Chains(g) && Linked(h) && NonEmpty(h, created) && SameLists(h, g)
    requires forall t | t in g.sets && g.sets[t].forward.Some? ::
      t in h.sets && (g.sets[t].forward == h.sets[t].forward || g.sets[t].forward.id == Target(h, t))
    requires forall t | t in h.sets && t !in g.sets :: Names(h, t) == {}
    ensures SameTargets(h, g) && Linked(g) && NonEmpty(g, created)
  {
    forall t | t in g.sets ensures Target(g, t) == Target(h, t) {
      TargetKept(h, g, t);
    }
    forall p | p in g.recs ensures g.recs[p] in g.sets {
      assert RecOk(h, p);
      assert p in Names(h, h.recs[p]);
    }
    LinkedKept(h, g, created);
  }

  lemma DropKeeps(h: Heap, s: int)
    requires s in h.sets && Owing(h, s)
    ensures Settled(Recounted(h, s, -1))
    ensures SameLists(h, Recounted(h, s, -1)) && SameTargets(h, Recounted(h, s, -1))
  {
    var g := Recounted(h, s, -1);
    forall t | t in g.sets ensures Link(g, t) {
      assert Link(h, t);
    }
    ShapeKept(h, g, NOBODY);
    forall t | t in g.sets ensures CountOk(g, t, NOBODY, 0) {
      assert CountOk(h, t, s, 1) && Link(h, t);
      assert Forwarders(g, t) == Forwarders(h, t) && Names(g, t) == Names(h, t);
    }
  }

  /** Somebody refers to a set with members. */
  lemma LiveReferred(h: Heap, s: int)
    requires Chains(h) && Linked(h) && NonEmpty(h, NOBODY) && Live(h, s) && s != NOBODY
    ensures RefsTo(h, s) >= 1
  {
    if h.sets[s].unknown == [] {
      assert ListOk(h, s);
      var p := h.sets[s].ptrs[0];
      if h.recs[p] == s {
        assert p in Names(h, s);
      } else {
        var t := LastForward(h, h.recs[p]);
        assert t in Forwarders(h, s);
      }
    }
  }

  /** The last forwarding set on the way. */
  lemma {:induction false} LastForward(h: Heap, s: int) returns (t: int)
    requires Chains(h) && s in h.sets && Target(h, s) != s
    ensures t in h.sets && h.sets[t].forward == Some(Target(h, s))
    decreases Rank(h, s) + 1
  {
    assert Link(h, s);
    var f := h.sets[s].forward.id;
    if Target(h, f) == f {
      t := s;
    } else {
      t := LastForward(h, f);
    }
  }

  /** Removing a set that nobody refers to leaves the set it forwarded to with one reference too many. */
  lemma RemoveKeeps(h: Heap, s: int)
    requires s in h.sets && Settled(h) && h.sets[s].refCount == 0
    ensures h.sets[s].forward.Some?
    ensures var f := h.sets[s].forward.id;
      f in Removed(h, s).sets && Rank(h, f) < Rank(h, s) && Owing(Removed(h, s), f)
    ensures SameLists(h, Removed(h, s)) && SameTargets(h, Removed(h, s))
  {
    var g := Removed(h, s);
    assert CountOk(h, s, NOBODY, 0) && Link(h, s);
    Unreferred(h, s);
    if Live(h, s) { LiveReferred(h, s); }
    var f := h.sets[s].forward.id;
    forall t | t in g.sets ensures Link(g, t) {
      assert Link(h, t);
      assert t !in Forwarders(h, s);
    }
    ShapeKept(h, g, NOBODY);
    forall t | t in g.sets ensures CountOk(g, t, f, 1) {
      assert CountOk(h, t, NOBODY, 0);
      assert Names(g, t) == Names(h, t);
      assert Forwarders(h, t) == Forwarders(g, t) + if t == f then {s} else {};
    }
  }

  lemma Unreferred(h: Heap, s: int)
    requires s in h.sets && RefsTo(h, s) == 0
    ensures Names(h, s) == {} && Forwarders(h, s) == {}
  {
  }

  /** Skipping the sets on the way leaves the one forwarded to before with one reference too many. */
  lemma RedirectKeeps(h: Heap, s: int, f: int)
    requires Settled(h) && s in h.sets && h.sets[s].forward.Some?
    requires f == Target(h, s) && h.sets[s].forward.id != f
    ensures f in h.sets && f != s && Owing(Redirected(h, s, f), h.sets[s].forward.id)
    ensures SameLists(h, Redirected(h, s, f)) && SameTargets(h, Redirected(h, s, f))
  {
    var g, former := Redirected(h, s, f), h.sets[s].forward.id;
    assert Link(h, s);
    forall t | t in g.sets ensures Link(g, t) {
      assert Link(h, t);
    }
    ShapeKept(h, g, NOBODY);
    RedirectCounts(h, s, f, former);
  }

  lemma RedirectCounts(h: Heap, s: int, f: int, former: int)
    requires Counted(h, NOBODY, 0) && s in h.sets && f in h.sets && s != f && f != former
    requires h.sets[s].forward == Some(former)
    ensures Counted(Redirected(h, s, f), former, 1)
  {
    var g := Redirected(h, s, f);
    forall t | t in g.sets ensures CountOk(g, t, former, 1) {
      assert CountOk(h, t, NOBODY, 0);
      assert Names(g, t) == Names(h, t);
      RedirectedForwarders(h, s, f, former, t);
    }
  }

  lemma RedirectedForwarders(h: Heap, s: int, f: int, former: int, t: int)
    requires s in h.sets && f in h.sets && s != f && f != former && h.sets[s].forward == Some(former)
    ensures |Forwarders(Redirected(h, s, f), t)| == |Forwarders(h, t)| +
      (if t == f then 1 else 0) - if t == former then 1 else 0
  {
    var before, after := Forwarders(h, t), Forwarders(Redirected(h, s, f), t);
    if t == f {
      assert after == before + {s} && s !in before;
    } else if t == former {
      assert before == after + {s} && s !in after;
    } else {
      assert after == before;
    }
  }

  /** Forwarding sets may be gone or forwarded directly; sets of a higher rank are untouched. */
  ghost predicate Pruned(h: Heap, g: Heap, rank: int)
    requires Chains(h) && Chains(g)
  {
    && SameLists(h, g) && SameTargets(h, g)
    && forall s {:trigger Rank(h, s)} {:trigger g.sets[s]} | s in h.sets && Rank(h, s) > rank ::
      s in g.sets && g.sets[s] == h.sets[s]
  }

  lemma PrunedTwice(h: Heap, g: Heap, k: Heap, r1: int, r2: int, rank: int)
    requires Chains(h) && Chains(g) && Chains(k) && Pruned(h, g, r1) && Pruned(g, k, r2) && r1 <= rank && r2 <= rank
    ensures Pruned(h, k, rank)
  {
    forall s | s in k.sets ensures SameMembers(h.sets[s], k.sets[s]) && Target(k, s) == Target(h, s) {
      assert SameMembers(g.sets[s], k.sets[s]) && SameMembers(h.sets[s], g.sets[s]);
      assert Target(k, s) == Target(g, s) == Target(h, s);
    }
    forall s | Live(h, s) ensures s in k.sets {
      assert SameMembers(h.sets[s], g.sets[s]);
    }
    forall s | s in h.sets && Rank(h, s) > rank ensures s in k.sets && k.sets[s] == h.sets[s] {
      assert Rank(g, s) > r2;
    }
  }

  lemma PrunedBy(h: Heap, g: Heap, rank: int)
    requires Chains(h) && Chains(g) && SameLists(h, g) && SameTargets(h, g)
    requires forall s | s in h.sets && Rank(h, s) > rank :: s in g.sets && g.sets[s] == h.sets[s]
    ensures Pruned(h, g, rank)
  {
  }
}
