/** Merging one alias set into another, and adding members: what becomes of the structure. */
module AliasSetSteps {
  import opened AliasSets

  /** The set that a tracked pointer is in. */
  ghost function Home(h: Heap, p: Ptr): (t: int)
    requires Chains(h) && Linked(h) && p in h.recs
    ensures Live(h, t) && p in h.sets[t].ptrs
  {
    assert RecOk(h, p);
    Target(h, h.recs[p])
  }

  /** Apart from counts, the live sets are the same. */
  ghost predicate SameLive(h: Heap, g: Heap) {
    && h.any == g.any
    && forall s {:trigger Live(g, s)} {:trigger Live(h, s)} ::
        Live(h, s) == Live(g, s) && (Live(h, s) ==> SameMembers(h.sets[s], g.sets[s]))
  }

  /** Every pointer is still in the same set. */
  ghost predicate SameHomes(h: Heap, g: Heap)
    requires Chains(h) && Linked(h) && Chains(g) && Linked(g)
  {
    h.recs.Keys == g.recs.Keys && forall p {:trigger Home(g, p)} {:trigger Home(h, p)} | p in h.recs ::
      Home(g, p) == Home(h, p)
  }

  lemma PrunedSame(h: Heap, g: Heap, rank: int)
    requires Chains(h) && Linked(h) && Chains(g) && Linked(g) && Pruned(h, g, rank)
    ensures SameLive(h, g) && SameHomes(h, g)
  {
    forall s ensures Live(h, s) == Live(g, s) && (Live(h, s) ==> SameMembers(h.sets[s], g.sets[s])) {
      if s in g.sets { assert SameMembers(h.sets[s], g.sets[s]); }
    }
    forall p | p in h.recs ensures Home(g, p) == Home(h, p) {
      assert RecOk(g, p) && RecOk(h, p);
    }
  }

  // A record is made to name the set that it leads to.

  function Renamed(h: Heap, p: Ptr, t: int): Heap
    requires t in h.sets
  {
    h.(recs := h.recs[p := t], sets := h.sets[t := h.sets[t].(refCount := h.sets[t].refCount + 1)])
  }

  lemma RenameKeeps(h: Heap, p: Ptr, t: int)
    requires Settled(h) && p in h.recs && t == Home(h, p) && t != h.recs[p]
    ensures h.recs[p] in h.sets && Owing(Renamed(h, p, t), h.recs[p])
    ensures SameLive(h, Renamed(h, p, t)) && SameHomes(h, Renamed(h, p, t))
  {
    assert RecOk(h, p);
    RenameLinks(h, p, t);
    RenameCounts(h, p, t);
  }

  lemma RenameLinks(h: Heap, p: Ptr, t: int)
    requires Settled(h) && p in h.recs && t == Home(h, p) && t != h.recs[p]
    ensures var g := Renamed(h, p, t);
      Chains(g) && Linked(g) && NonEmpty(g, NOBODY) && SameLive(h, g) && SameHomes(h, g)
  {
    var g := Renamed(h, p, t);
    RenameTargets(h, p, t);
    forall q | q in g.recs ensures RecOk(g, q) {
      assert RecOk(h, q) && RecOk(h, p);
    }
    forall u | u in g.sets ensures ListOk(g, u) {
      assert ListOk(h, u);
    }
    forall q | q in h.recs ensures Home(g, q) == Home(h, q) {
      assert RecOk(g, q);
    }
  }

  lemma RenameTargets(h: Heap, p: Ptr, t: int)
    requires Chains(h) && t in h.sets
    ensures Chains(Renamed(h, p, t))
    ensures forall u | u in h.sets :: Target(Renamed(h, p, t), u) == Target(h, u)
  {
    var g := Renamed(h, p, t);
    forall u | u in g.sets ensures Link(g, u) {
      assert Link(h, u);
    }
    forall u | u in g.sets ensures Target(g, u) == Target(h, u) {
      SameForwards(h, g, u);
    }
  }

  lemma RenameCounts(h: Heap, p: Ptr, t: int)
    requires Counted(h, NOBODY, 0) && p in h.recs && t in h.sets && h.recs[p] in h.sets && t != h.recs[p]
    ensures Counted(Renamed(h, p, t), h.recs[p], 1)
  {
    var g, s := Renamed(h, p, t), h.recs[p];
    forall u | u in g.sets ensures CountOk(g, u, s, 1) {
      assert CountOk(h, u, NOBODY, 0);
      assert Forwarders(g, u) == Forwarders(h, u);
      if u == t {
        assert Names(g, u) == Names(h, u) + {p} && p !in Names(h, u);
      } else if u == s {
        assert Names(h, u) == Names(g, u) + {p} && p !in Names(g, u);
      } else {
        assert Names(g, u) == Names(h, u);
      }
    }
  }

  /** Heaps that forward alike. */
  lemma {:induction false} SameForwards(h: Heap, g: Heap, s: int)
    requires Chains(h) && Chains(g) && s in h.sets
    requires forall t | t in h.sets && t in g.sets :: g.sets[t].forward == h.sets[t].forward
    requires h.sets.Keys <= g.sets.Keys
    ensures Target(g, s) == Target(h, s)
    decreases Rank(h, s) + 1
  {
    assert Link(h, s);
    if h.sets[s].forward.Some? {
      SameForwards(h, g, h.sets[s].forward.id);
    }
  }

  // One set is merged into another.

  function Merged(h: Heap, a: int, b: int, must: bool): Heap
    requires a in h.sets && b in h.sets && a != b
  {
    var x, y := h.sets[a], h.sets[b];
    h.(sets := h.sets
      [a := x.(ptrs := x.ptrs + y.ptrs, unknown := x.unknown + y.unknown, access := Union(x.access, y.access),
               must := must,
               refCount := x.refCount + 1 + if x.unknown == [] && y.unknown != [] then 1 else 0)]
      [b := y.(ptrs := [], unknown := [], forward := Some(a))])
  }

  lemma {:induction false} MergedTarget(h: Heap, g: Heap, a: int, b: int, s: int)
    requires Chains(h) && Chains(g) && s in h.sets && h.sets.Keys == g.sets.Keys && Live(h, a) && Live(h, b) && a != b
    requires forall t | t in h.sets :: g.sets[t].forward == if t == b then Some(a) else h.sets[t].forward
    ensures Target(g, s) == if Target(h, s) == b then a else Target(h, s)
    decreases Rank(h, s) + 1
  {
    assert Link(h, s);
    if h.sets[s].forward.Some? {
      MergedTarget(h, g, a, b, h.sets[s].forward.id);
    } else if s == b {
      assert Target(g, a) == a;
    }
  }

  lemma MergeChains(h: Heap, a: int, b: int, must: bool)
    requires Chains(h) && Live(h, a) && Live(h, b) && Rank(h, a) < Rank(h, b)
    ensures Chains(Merged(h, a, b, must))
    ensures forall s | s in h.sets :: Target(Merged(h, a, b, must), s) == if Target(h, s) == b then a else Target(h, s)
  {
    var g := Merged(h, a, b, must);
    forall s | s in g.sets ensures Link(g, s) {
      assert Link(h, s);
    }
    forall s | s in h.sets ensures Target(g, s) == if Target(h, s) == b then a else Target(h, s) {
      MergedTarget(h, g, a, b, s);
    }
  }

  lemma MergeLinks(h: Heap, a: int, b: int, must: bool)
    requires Chains(h) && Linked(h) && Live(h, a) && Live(h, b) && Rank(h, a) < Rank(h, b)
    ensures Chains(Merged(h, a, b, must)) && Linked(Merged(h, a, b, must))
    ensures forall p | p in h.recs :: Home(Merged(h, a, b, must), p) == if Home(h, p) == b then a else Home(h, p)
  {
    var g := Merged(h, a, b, must);
    MergeChains(h, a, b, must);
    forall p | p in g.recs ensures RecOk(g, p) {
      assert RecOk(h, p);
    }
    forall s | s in g.sets ensures ListOk(g, s) {
      assert ListOk(h, s) && ListOk(h, a) && ListOk(h, b);
    }
  }

  lemma MergeCounts(h: Heap, a: int, b: int, must: bool)
    requires Counted(h, NOBODY, 0) && Live(h, a) && Live(h, b) && a != b && b != NOBODY
    ensures Counted(Merged(h, a, b, must), if h.sets[b].unknown != [] then b else NOBODY,
                    if h.sets[b].unknown != [] then 1 else 0)
  {
    var g := Merged(h, a, b, must);
    var off, d := if h.sets[b].unknown != [] then b else NOBODY, if h.sets[b].unknown != [] then 1 else 0;
    forall s | s in g.sets ensures CountOk(g, s, off, d) {
      assert CountOk(h, s, NOBODY, 0);
      assert Names(g, s) == Names(h, s);
      MergedForwarders(h, a, b, must, s);
    }
  }

  lemma MergedForwarders(h: Heap, a: int, b: int, must: bool, s: int)
    requires Live(h, a) && Live(h, b) && a != b
    ensures |Forwarders(Merged(h, a, b, must), s)| == |Forwarders(h, s)| + if s == a then 1 else 0
  {
    var before, after := Forwarders(h, s), Forwarders(Merged(h, a, b, must), s);
    if s == a {
      assert after == before + {b} && b !in before;
    } else {
      assert after == before;
    }
  }

  /** Merging keeps the structure; if there were unknown instructions, the set they were in still counts them. */
  lemma MergeKeeps(h: Heap, a: int, b: int, must: bool, created: int)
    requires Structure(h, NOBODY, 0, created) && Live(h, a) && Live(h, b) && Rank(h, a) < Rank(h, b)
    requires created == NOBODY || created == a
    ensures var g := Merged(h, a, b, must);
      if h.sets[b].unknown != [] then Owing(g, b) else Settled(g)
    ensures Chains(Merged(h, a, b, must)) && Linked(Merged(h, a, b, must))
    ensures forall p | p in h.recs :: Home(Merged(h, a, b, must), p) == if Home(h, p) == b then a else Home(h, p)
  {
    var g := Merged(h, a, b, must);
    MergeLinks(h, a, b, must);
    assert Link(h, a) && Link(h, b);
    MergeCounts(h, a, b, must);
    forall s | Live(g, s) && s != NOBODY ensures g.sets[s].ptrs != [] || g.sets[s].unknown != [] {
      assert Live(h, s);
    }
  }

  // A set gets one more member.

  function WithPtr(h: Heap, s: int, p: Ptr, must: bool): Heap
    requires s in h.sets
  {
    var x := h.sets[s];
    h.(recs := h.recs[p := s], sets := h.sets[s := x.(ptrs := x.ptrs + [p], refCount := x.refCount + 1, must := must)])
  }

  lemma WithPtrKeeps(h: Heap, s: int, p: Ptr, must: bool, created: int)
    requires Structure(h, NOBODY, 0, created) && Live(h, s) && p !in h.recs
    requires created == NOBODY || created == s
    ensures Settled(WithPtr(h, s, p, must))
    ensures Home(WithPtr(h, s, p, must), p) == s
    ensures forall q | q in h.recs :: Home(WithPtr(h, s, p, must), q) == Home(h, q)
  {
    var g := WithPtr(h, s, p, must);
    forall u | u in g.sets ensures Link(g, u) {
      assert Link(h, u);
    }
    forall u | u in h.sets ensures Target(g, u) == Target(h, u) {
      SameForwards(h, g, u);
    }
    forall q | q in g.recs ensures RecOk(g, q) {
      assert q in h.recs ==> RecOk(h, q);
    }
    forall u | u in g.sets ensures ListOk(g, u) {
      assert ListOk(h, u);
    }
    WithPtrCounts(h, s, p, must);
  }

  lemma WithPtrCounts(h: Heap, s: int, p: Ptr, must: bool)
    requires Counted(h, NOBODY, 0) && s in h.sets && p !in h.recs
    ensures Counted(WithPtr(h, s, p, must), NOBODY, 0)
  {
    var g := WithPtr(h, s, p, must);
    forall u | u in g.sets ensures CountOk(g, u, NOBODY, 0) {
      assert CountOk(h, u, NOBODY, 0);
      assert Forwarders(g, u) == Forwarders(h, u);
      assert Names(g, u) == Names(h, u) + (if u == s then {p} else {}) && p !in Names(h, u);
    }
  }

  function WithUnknown(h: Heap, s: int, i: Inst, access: Access): Heap
    requires s in h.sets
  {
    var x := h.sets[s];
    h.(sets := h.sets[s := x.(unknown := x.unknown + [i], must := false, access := access,
                              refCount := x.refCount + if x.unknown == [] then 1 else 0)])
  }

  lemma WithUnknownKeeps(h: Heap, s: int, i: Inst, access: Access, created: int)
    requires Structure(h, NOBODY, 0, created) && Live(h, s) && (created == NOBODY || created == s)
    ensures Settled(WithUnknown(h, s, i, access)) && SameHomes(h, WithUnknown(h, s, i, access))
  {
    var g := WithUnknown(h, s, i, access);
    forall u | u in g.sets ensures Link(g, u) {
      assert Link(h, u);
    }
    forall u | u in h.sets ensures Target(g, u) == Target(h, u) {
      SameForwards(h, g, u);
    }
    forall q | q in g.recs ensures RecOk(g, q) {
      assert RecOk(h, q);
    }
    forall u | u in g.sets ensures ListOk(g, u) {
      assert ListOk(h, u);
    }
    forall u | u in g.sets ensures CountOk(g, u, NOBODY, 0) {
      assert CountOk(h, u, NOBODY, 0);
      assert Forwarders(g, u) == Forwarders(h, u) && Names(g, u) == Names(h, u);
    }
  }

  // A set is made.

  ghost predicate Bounded(h: Heap, next: int) { next >= 0 && forall s | s in h.sets :: s < next }

  function WithSet(h: Heap, s: int, x: AliasSet, any: Maybe): Heap { h.(sets := h.sets[s := x], any := any) }

  /** A new set, the one that all are to be merged into or not. */
  lemma WithSetKeeps(h: Heap, s: int, x: AliasSet, any: Maybe)
    requires Settled(h) && Bounded(h, s) && h.any == None && (any == None || any == Some(s))
    requires x.ptrs == [] && x.unknown == [] && x.forward == None && x.refCount == 0
    ensures Structure(WithSet(h, s, x, any), NOBODY, 0, s) && SameHomes(h, WithSet(h, s, x, any))
  {
    var g := WithSet(h, s, x, any);
    forall u | u in g.sets ensures Link(g, u) {
      if u != s { assert Link(h, u); }
    }
    forall u | u in h.sets ensures Target(g, u) == Target(h, u) {
      SameForwards(h, g, u);
    }
    forall q | q in g.recs ensures RecOk(g, q) {
      assert RecOk(h, q);
    }
    forall u | u in g.sets ensures ListOk(g, u) {
      if u != s { assert ListOk(h, u); }
    }
    forall u | u in g.sets ensures CountOk(g, u, NOBODY, 0) {
      if u != s {
        assert CountOk(h, u, NOBODY, 0);
        assert Forwarders(g, u) == Forwarders(h, u) && Names(g, u) == Names(h, u);
      } else {
        NobodyRefers(h, s);
        assert Forwarders(g, u) == Forwarders(h, u) && Names(g, u) == Names(h, u);
      }
    }
  }

  lemma NobodyRefers(h: Heap, s: int)
    requires Chains(h) && Linked(h) && s !in h.sets
    ensures Names(h, s) == {} && Forwarders(h, s) == {}
  {
    forall p | p in h.recs ensures h.recs[p] != s {
      assert RecOk(h, p);
    }
    forall t | t in h.sets ensures h.sets[t].forward != Some(s) {
      assert Link(h, t);
    }
  }

  // A sweep over all sets merges those that are hit into the first of them.

  predicate Grown(x: AliasSet, y: AliasSet) {
    x.ptrs <= y.ptrs && x.unknown <= y.unknown && x.aliasAny == y.aliasAny
  }

  ghost predicate Sweep(h: Heap, g: Heap, hit: set<int>, cur: int, found: Maybe)
    requires Chains(h) && Linked(h) && Chains(g) && Linked(g)
  {
    && h.any == g.any && g.recs.Keys == h.recs.Keys
    && (forall s {:trigger Live(g, s)} :: Live(g, s) <==> Live(h, s) && (s >= cur || s !in hit || Some(s) == found))
    && (forall s {:trigger SameMembers(h.sets[s], g.sets[s])} | Live(g, s) && Some(s) != found ::
        SameMembers(h.sets[s], g.sets[s]))
    && (found.Some? ==> found.id in hit && found.id < cur && Live(h, found.id))
    && (found.Some? ==> Live(g, found.id) && Grown(h.sets[found.id], g.sets[found.id]))
    && (found.None? ==> forall s | s in hit :: s >= cur)
    && forall p {:trigger Home(g, p)} {:trigger Home(h, p)} | p in h.recs ::
        Home(g, p) == if Home(h, p) in hit && Home(h, p) < cur then found.id else Home(h, p)
  }

  lemma SweepStarts(h: Heap, hit: set<int>)
    requires Settled(h) && forall s | s in hit :: Live(h, s)
    ensures Sweep(h, h, hit, 0, None)
  {
    forall s | s in hit ensures s >= 0 {
      assert Link(h, s);
    }
    forall s | Live(h, s) ensures s >= 0 {
      assert Link(h, s);
    }
  }

  lemma SweepSkips(h: Heap, g: Heap, hit: set<int>, cur: int, found: Maybe)
    requires Settled(h) && Settled(g) && Sweep(h, g, hit, cur, found) && (forall s | s in hit :: Live(h, s))
    requires cur !in hit
    ensures Sweep(h, g, hit, cur + 1, found)
  {
    forall p | p in h.recs
      ensures Home(g, p) == if Home(h, p) in hit && Home(h, p) < cur + 1 then found.id else Home(h, p)
    {
      assert Home(h, p) == cur ==> Home(h, p) !in hit;
    }
  }

  lemma SweepFinds(h: Heap, g: Heap, hit: set<int>, cur: int)
    requires Settled(h) && Settled(g) && Sweep(h, g, hit, cur, None) && cur in hit && Live(h, cur)
    ensures Sweep(h, g, hit, cur + 1, Some(cur))
  {
    assert Live(g, cur) && SameMembers(h.sets[cur], g.sets[cur]);
    forall p | p in h.recs ensures Home(g, p) == if Home(h, p) in hit && Home(h, p) < cur + 1 then cur else Home(h, p) {
    }
  }

  lemma SweepMerges(h: Heap, g: Heap, k: Heap, hit: set<int>, cur: int, f: int, must: bool)
    requires Settled(h) && Settled(g) && Settled(k) && Sweep(h, g, hit, cur, Some(f)) && cur in hit && Live(h, cur)
    requires Live(g, f) && Live(g, cur) && f != cur && Chains(Merged(g, f, cur, must)) &&
      Linked(Merged(g, f, cur, must))
    requires forall p | p in g.recs :: Home(Merged(g, f, cur, must), p) == if Home(g, p) == cur then f else Home(g, p)
    requires SameLive(Merged(g, f, cur, must), k) && SameHomes(Merged(g, f, cur, must), k)
    ensures Sweep(h, k, hit, cur + 1, Some(f))
  {
    var m := Merged(g, f, cur, must);
    assert Live(m, f) && SameMembers(m.sets[f], k.sets[f]);
    forall s ensures Live(k, s) <==> Live(h, s) && (s >= cur + 1 || s !in hit || s == f) {
      assert Live(k, s) == Live(m, s);
      assert Live(m, s) == (Live(g, s) && s != cur);
    }
    forall s | Live(k, s) && s != f ensures SameMembers(h.sets[s], k.sets[s]) {
      assert Live(m, s) && SameMembers(m.sets[s], k.sets[s]);
      assert SameMembers(h.sets[s], g.sets[s]);
    }
    forall p | p in h.recs ensures Home(k, p) == if Home(h, p) in hit && Home(h, p) < cur + 1 then f else Home(h, p) {
      assert Home(k, p) == Home(m, p);
    }
  }
}
