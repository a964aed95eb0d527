/** The tracker: adds pointers and instructions, and merges the alias sets that they connect. */
module AliasSetTracker {
  import opened AliasSets
  import opened AliasSetSteps
  import opened AliasSetMeaning
  import opened AliasSetSizes

  /** How many pointers may-alias sets may contain before all sets become one. */
  const SATURATION_THRESHOLD := 250

  class AliasSetTracker {
    var sets: map<int, AliasSet>
    var recs: map<Ptr, int>
    var any: Maybe
    var next: int
    var totalMay: int
    const aa: Oracle
    ghost var accesses: map<Ptr, Access>

    ghost function State(): Heap
      reads this
    {
      Heap(sets, recs, any)
    }

    /** By how much the count of pointers in may-alias sets exceeds what they hold. */
    ghost function Excess(): int
      reads this
    {
      totalMay - MaySum(sets)
    }

    method AddRef(s: int)
      requires s in sets
      modifies this`sets
      ensures State() == Recounted(old(State()), s, 1)
      ensures Excess() == old(Excess())
    {
      MaySumUpdate(sets, s, sets[s].(refCount := sets[s].refCount + 1));
      sets := sets[s := sets[s].(refCount := sets[s].refCount + 1)];
    }

    /** Gives up a reference; a set that nobody refers to any more is removed, and gives up its own. */
    method DropRef(s: int)
      requires s in sets && Owing(State(), s)
      modifies this`sets, this`totalMay
      ensures Settled(State()) && Pruned(old(State()), State(), Rank(State(), s))
      ensures forall t | t in sets :: sets[t].forward == old(sets)[t].forward
      ensures Excess() == old(Excess())
      decreases |sets|
    {
      ghost var h := State();
      MaySumUpdate(sets, s, sets[s].(refCount := sets[s].refCount - 1));
      sets := sets[s := sets[s].(refCount := sets[s].refCount - 1)];
      DropKeeps(h, s);
      ghost var g := State();
      assert g == Recounted(h, s, -1);
      PrunedBy(h, g, Rank(h, s));
      if sets[s].refCount == 0 {
        RemoveAliasSet(s);
        PrunedTwice(h, g, State(), Rank(h, s), Rank(h, s), Rank(h, s));
      }
    }

    method RemoveAliasSet(s: int)
      requires s in sets && Settled(State()) && sets[s].refCount == 0
      modifies this`sets, this`totalMay
      ensures Settled(State()) && Pruned(old(State()), State(), Rank(State(), s))
      ensures forall t | t in sets :: sets[t].forward == old(sets)[t].forward
      ensures Excess() == old(Excess())
      decreases |sets|, 0
    {
      ghost var h := State();
      MaySumRemove(sets, s);
      RemoveKeeps(h, s);
      var forward := sets[s].forward;
      if !sets[s].must {
        totalMay := totalMay - |sets[s].ptrs|;
      }
      sets := sets - {s};
      ghost var g := State();
      assert g == Removed(h, s);
      PrunedBy(h, g, Rank(h, s));
      if forward.Some? {
        DropRef(forward.id);
        PrunedTwice(h, g, State(), Rank(h, s), Rank(h, forward.id), Rank(h, s));
      }
    }

    /** Makes a set forward to another one, and counts that reference. */
    method Redirect(s: int, dest: int)
      requires s in sets && dest in sets && s != dest
      modifies this`sets
      ensures State() == Redirected(old(State()), s, dest) && Excess() == old(Excess())
    {
      MaySumUpdate(sets, s, sets[s].(forward := Some(dest)));
      sets := sets[s := sets[s].(forward := Some(dest))];
      AddRef(dest);
    }

    /** Adds a set without members. */
    method MakeSet(x: AliasSet) returns (s: int)
      requires Bounded(State(), next) && x.ptrs == []
      modifies this`sets, this`next
      ensures s == old(next) && next == s + 1 && State() == WithSet(old(State()), s, x, any) &&
        Excess() == old(Excess())
    {
      s := next;
      MaySumUpdate(sets, s, x);
      sets, next := sets[s := x], next + 1;
    }

    /** Where a set leads; forwarding on the way is made direct. */
    method GetForwardedTarget(s: int) returns (dest: int)
      requires s in sets && Settled(State())
      modifies this`sets, this`totalMay
      ensures Settled(State()) && Pruned(old(State()), State(), Rank(State(), s)) && s in sets
      ensures dest == Target(old(State()), s) && (dest == s || sets[s].forward == Some(dest))
      ensures sets[s].refCount == old(sets[s].refCount)
      ensures Excess() == old(Excess())
      decreases Rank(State(), s) + 1
    {
      ghost var h := State();
      assert Link(h, s);
      if sets[s].forward.None? {
        PrunedBy(h, h, Rank(h, s));
        return s;
      }
      var forward := sets[s].forward.id;
      dest := GetForwardedTarget(forward);
      ghost var g := State();
      assert g.sets[s] == h.sets[s];
      PrunedTwice(h, g, g, Rank(h, forward), Rank(h, s), Rank(h, s)) by { PrunedBy(g, g, Rank(h, s)); }
      if dest != forward {
        Shortcut(s, dest);
        PrunedTwice(h, g, State(), Rank(h, s), Rank(h, s), Rank(h, s));
      }
    }

    /** Makes a set forward to where it leads; the reference to the set before is given up. */
    method Shortcut(s: int, dest: int)
      requires s in sets && Settled(State()) && sets[s].forward.Some? && sets[s].forward.id != dest
      requires dest == Target(State(), s)
      modifies this`sets, this`totalMay
      ensures Settled(State()) && Pruned(old(State()), State(), Rank(old(State()), s)) && Excess() == old(Excess())
      ensures s in sets && dest in old(sets) && dest != s && sets[s].refCount == old(sets[s].refCount)
      ensures forall t | t in sets :: t in old(sets) && sets[t].forward == if t == s then Some(dest)
        else old(sets)[t].forward
    {
      ghost var h := State();
      var forward := sets[s].forward.id;
      assert Link(h, s);
      RedirectKeeps(h, s, dest);
      Redirect(s, dest);
      ghost var k := State();
      PrunedBy(h, k, Rank(h, s));
      DropRef(forward);
      PrunedTwice(h, k, State(), Rank(h, s), Rank(h, forward), Rank(h, s));
    }
  
    /** The set that a record names, after forwarding. */
    method GetAliasSet(p: Ptr) returns (s: int)
      requires p in recs && Settled(State())
      modifies this`sets, this`recs, this`totalMay
      ensures Settled(State()) && SameLive(old(State()), State()) && SameHomes(old(State()), State())
      ensures s == Home(State(), p) && recs[p] == s && State().sets.Keys <= old(State()).sets.Keys
      ensures Excess() == old(Excess())
    {
      ghost var h := State();
      assert RecOk(h, p);
      var named := recs[p];
      s := GetForwardedTarget(named);
      ghost var g := State();
      PrunedSame(h, g, Rank(h, named));
      assert RecOk(g, p);
      if s != named {
        RenameKeeps(g, p, s);
        recs := recs[p := s];
        AddRef(s);
        ghost var k := State();
        assert k == Renamed(g, p, s);
        DropRef(named);
        PrunedSame(k, State(), Rank(k, named));
        SameTwice(g, k, State());
      }
    }

    /** Merges set b into set a; b forwards to a from now on. */
    method MergeSetIn(a: int, b: int, ghost created: int) returns (ghost must: bool)
      requires Structure(State(), NOBODY, 0, created) && (created == NOBODY || created == a)
      requires Live(State(), a) && Live(State(), b) && Rank(State(), a) < Rank(State(), b)
      requires sets[a].must ==> sets[a].ptrs != []
      requires sets[b].must ==> sets[b].ptrs != []
      modifies this`sets, this`totalMay
      ensures Settled(State()) && must == BothMust(aa, old(sets[a]), old(sets[b]))
      ensures Chains(Merged(old(State()), a, b, must)) && Linked(Merged(old(State()), a, b, must))
      ensures Pruned(Merged(old(State()), a, b, must), State(), Rank(State(), b))
      ensures forall t | t in sets :: sets[t].forward == Merged(old(State()), a, b, must).sets[t].forward
      ensures forall p | p in old(recs) ::
        Home(Merged(old(State()), a, b, must), p) == if Home(old(State()), p) == b then a else Home(old(State()), p)
      ensures Excess() == old(Excess())
    {
      ghost var h := State();
      var x, y := sets[a], sets[b];
      var wasMust := x.must;
      var stillMust := x.must && y.must;
      if stillMust {
        if aa.alias(x.ptrs[0], y.ptrs[0]) != MustAlias {
          stillMust := false;
        }
      }
      must := stillMust;
      if !stillMust {
        if wasMust {
          totalMay := totalMay + |x.ptrs|;
        }
        if y.must {
          totalMay := totalMay + |y.ptrs|;
        }
      }
      var hadUnknown := y.unknown != [];
      var count := x.refCount;
      if x.unknown == [] && hadUnknown {
        count := count + 1;
      }
      x := x.(unknown := x.unknown + y.unknown, access := Union(x.access, y.access), must := stillMust,
              refCount := count + 1, ptrs := x.ptrs + y.ptrs);
      y := y.(unknown := [], forward := Some(a), ptrs := []);
      sets := sets[a := x][b := y];
      ghost var g := State();
      assert g == Merged(h, a, b, must);
      MergeKeeps(h, a, b, must, created);
      MergedSum(h, a, b, must);
      if hadUnknown {
        DropRef(b);
      } else {
        PrunedBy(g, g, Rank(g, b));
      }
    }

    /** Puts a pointer into a set. */
    method AddPointerToSet(s: int, p: Ptr, ghost created: int) returns (ghost must: bool)
      requires Structure(State(), NOBODY, 0, created) && (created == NOBODY || created == s)
      requires Live(State(), s) && p !in recs
      requires sets[s].must && sets[s].ptrs != [] ==> aa.alias(sets[s].ptrs[0], p) != NoAlias
      modifies this`sets, this`recs, this`totalMay
      ensures State() == WithPtr(old(State()), s, p, must) && Settled(State())
      ensures must ==
        (old(sets[s].must) && (old(sets[s].ptrs) != [] ==> aa.alias(old(sets[s].ptrs)[0], p) == MustAlias))
      ensures Excess() == old(Excess())
    {
      ghost var h := State();
      var x := sets[s];
      if x.must && x.ptrs != [] {
        var result := aa.alias(x.ptrs[0], p);
        if result != MustAlias {
          x := x.(must := false);
          totalMay := totalMay + |x.ptrs|;
        }
      }
      recs := recs[p := s];
      x := x.(ptrs := x.ptrs + [p], refCount := x.refCount + 1);
      if !x.must {
        totalMay := totalMay + 1;
      }
      MaySumUpdate(sets, s, x);
      sets := sets[s := x];
      must := x.must;
      WithPtrKeeps(h, s, p, must, created);
    }

    /** Whether the set has to do with the pointer. */
    method AliasesPointer(s: int, p: Ptr) returns (b: bool)
      requires Consistent(aa) && Live(State(), s) && SetOk(aa, sets[s], accesses) &&
        (sets[s].must ==> sets[s].ptrs != [])
      ensures b == (sets[s].aliasAny || TouchesPtr(aa, sets[s], p))
    {
      var x := sets[s];
      if x.aliasAny {
        return true;
      }
      if x.must {
        MustTouches(aa, x, accesses, p);
        return aa.alias(x.ptrs[0], p) != NoAlias;
      }
      for i := 0 to |x.ptrs|
        invariant forall k | 0 <= k < i :: aa.alias(x.ptrs[k], p) == NoAlias
      {
        if aa.alias(p, x.ptrs[i]) != NoAlias {
          assert x.ptrs[i] in x.ptrs;
          return true;
        }
      }
      for i := 0 to |x.unknown|
        invariant forall k | 0 <= k < i :: !aa.touches(x.unknown[k], p)
      {
        if aa.touches(x.unknown[i], p) {
          assert x.unknown[i] in x.unknown;
          return true;
        }
      }
      return false;
    }

    /** Whether the set has to do with the instruction. */
    method AliasesUnknownInst(s: int, inst: Inst) returns (b: bool)
      requires Live(State(), s)
      ensures b == (sets[s].aliasAny || TouchesInst(aa, sets[s], inst))
    {
      var x := sets[s];
      if x.aliasAny {
        return true;
      }
      for i := 0 to |x.unknown|
        invariant forall k | 0 <= k < i :: !aa.conflicts(x.unknown[k], inst)
      {
        if aa.conflicts(x.unknown[i], inst) {
          assert x.unknown[i] in x.unknown;
          return true;
        }
      }
      for i := 0 to |x.ptrs|
        invariant forall k | 0 <= k < i :: !aa.touches(inst, x.ptrs[k])
      {
        if aa.touches(inst, x.ptrs[i]) {
          assert x.ptrs[i] in x.ptrs;
          return true;
        }
      }
      return false;
    }

    ghost predicate Ready()
      reads this
    {
      && Consistent(aa) && Settled(State()) && Bounded(State(), next)
      && Meaning(State(), aa, accesses) && AnyOk(State())
    }

    /** All that the tracker promises between two calls. At most the pointers in may-alias sets are counted. */
    ghost predicate Valid()
      reads this
    {
      Ready() && accesses.Keys == recs.Keys && Excess() <= 0
    }

    constructor (aa: Oracle)
      requires Consistent(aa)
      ensures Valid() && this.aa == aa && recs == map[] && any == None && Excess() == 0
    {
      this.aa := aa;
      sets, recs, any, next, totalMay, accesses := map[], map[], None, 0, 0, map[];
    }

    /** Merges the set cur into the set found before. */
    method MergeFound(ghost h: Heap, ghost hit: set<int>, f: int, cur: int)
      requires Ready() && any == None && f < cur && Live(State(), f) && Live(State(), cur)
      requires Settled(h) && Sweep(h, State(), hit, cur, Some(f)) && cur in hit && Live(h, cur)
      modifies this`sets, this`totalMay
      ensures Ready() && Sweep(h, State(), hit, cur + 1, Some(f)) && Excess() == old(Excess())
      ensures Live(State(), f) && !sets[f].must
    {
      ghost var g := State();
      NeverBothMust(g, aa, accesses, f, cur);
      CanMerge(g, aa, accesses, f, cur);
      assert SetOk(aa, sets[f], accesses) && SetOk(aa, sets[cur], accesses);
      assert Link(g, f) && Link(g, cur);
      ghost var must := MergeSetIn(f, cur, NOBODY);
      ghost var m := Merged(g, f, cur, must);
      PrunedSame(m, State(), Rank(m, cur));
      SweepMerges(h, g, State(), hit, cur, f, must);
      MergeMeans(g, f, cur, must, aa, accesses);
      MergeAny(g, f, cur, must);
      MeaningKept(m, State(), aa, accesses);
    }

    /** One step of a sweep over all sets: the first set that is hit is remembered, the others are merged into it. */
    method TakeHit(ghost h: Heap, ghost hit: set<int>, found: Maybe, cur: int, aliases: bool) returns (next: Maybe)
      requires Ready() && any == h.any && Settled(h) && Sweep(h, State(), hit, cur, found)
      requires StillMust(h, State(), hit, cur, found)
      requires (forall s | s in hit :: Live(h, s)) && aliases == (cur in hit)
      modifies this`sets, this`totalMay
      ensures Ready() && Sweep(h, State(), hit, cur + 1, next) && StillMust(h, State(), hit, cur + 1, next)
      ensures Excess() == old(Excess())
    {
      next := found;
      if !aliases {
        SweepSkips(h, State(), hit, cur, found);
      } else if found.None? {
        SweepFinds(h, State(), hit, cur);
        FirstMust(h, State(), hit, cur);
        next := Some(cur);
      } else {
        TwoLive(h, State(), hit, cur, found.id);
        MergeFound(h, hit, found.id, cur);
      }
    }

    /** Merges all sets that the pointer has to do with. */
    method MergeAliasSetsForPointer(p: Ptr) returns (found: Maybe)
      requires Ready() && any == None
      modifies this`sets, this`totalMay
      ensures Ready() && Sweep(old(State()), State(), HitByPtr(old(State()), aa, p), next, found)
      ensures Excess() == old(Excess())
    {
      ghost var h := State();
      ghost var hit := HitByPtr(h, aa, p);
      SweepStarts(h, hit);
      found := None;
      for cur := 0 to next
        invariant Ready() && any == h.any && Excess() == old(Excess())
        invariant Sweep(h, State(), hit, cur, found) && StillMust(h, State(), hit, cur, found)
      {
        var aliases := false;
        if cur in sets && sets[cur].forward.None? {
          SweepSame(h, State(), hit, cur, found, aa, accesses, p, Inst(0, false));
          aliases := AliasesPointer(cur, p);
        }
        NotLive(h, State(), hit, cur, found);
        found := TakeHit(h, hit, found, cur, aliases);
      }
    }

    /** Merges all sets that the instruction has to do with. */
    method FindAliasSetForUnknownInst(inst: Inst) returns (found: Maybe)
      requires Ready()
      modifies this`sets, this`totalMay
      ensures Ready() && Sweep(old(State()), State(), HitByInst(old(State()), aa, inst), next, found)
      ensures Excess() == old(Excess())
      ensures StillMust(old(State()), State(), HitByInst(old(State()), aa, inst), next, found)
    {
      ghost var h := State();
      ghost var hit := HitByInst(h, aa, inst);
      SweepStarts(h, hit);
      found := None;
      for cur := 0 to next
        invariant Ready() && any == h.any && Excess() == old(Excess())
        invariant Sweep(h, State(), hit, cur, found) && StillMust(h, State(), hit, cur, found)
      {
        var aliases := false;
        if cur in sets && sets[cur].forward.None? {
          SweepSame(h, State(), hit, cur, found, aa, accesses, Ptr(0), inst);
          aliases := AliasesUnknownInst(cur, inst);
        }
        NotLive(h, State(), hit, cur, found);
        found := TakeHit(h, hit, found, cur, aliases);
      }
    }

    /** The set of a pointer, which is put into the set it has to do with, or into a new one. */
    method GetAliasSetForPointer(p: Ptr) returns (s: int)
      requires Ready() && accesses.Keys == recs.Keys
      modifies this`sets, this`recs, this`totalMay, this`next
      ensures Ready() && any == old(any) && recs.Keys == old(recs.Keys) + {p} && s == Home(State(), p)
      ensures p in old(recs) ==> SameHomes(old(State()), State())
      ensures p !in old(recs) && any == None ==> Joined(old(State()), State(), aa, p)
      ensures forall q | q in old(recs) :: any.Some? ==> Home(State(), q) == Home(old(State()), q)
      ensures Excess() == old(Excess())
    {
      ghost var h := State();
      if any.Some? {
        if p !in recs {
          AddToAny(p);
        }
        AllAny(State(), p);
        forall q | q in h.recs ensures Home(State(), q) == Home(h, q) {
          AllAny(State(), q);
          AllAny(h, q);
        }
        return any.id;
      }
      if p in recs {
        var named := GetAliasSet(p);
        ghost var g := State();
        s := GetForwardedTarget(named);
        PrunedSame(g, State(), Rank(g, named));
        SameTwice(h, g, State());
        MeaningKept(h, State(), aa, accesses);
        return;
      }
      var found := MergeAliasSetsForPointer(p);
      ghost var g := State();
      if found.Some? {
        s := found.id;
        FoundTouches(h, g, aa, p, s, next, accesses);
        AddHere(h, HitByPtr(h, aa, p), s, p);
      } else {
        s := next;
        AddNew(h, HitByPtr(h, aa, p), p);
      }
    }

    method AddToAny(p: Ptr)
      requires Ready() && any.Some? && p !in recs && p !in accesses
      modifies this`sets, this`recs, this`totalMay
      ensures Ready() && recs.Keys == old(recs.Keys) + {p} && Excess() == old(Excess())
    {
      ghost var h := State();
      assert Live(h, any.id) && SetOk(aa, sets[any.id], accesses) && ListOk(h, any.id);
      ghost var must := AddPointerToSet(any.id, p, NOBODY);
      WithPtrMeans(h, any.id, p, must, aa, accesses);
    }

    /** The pointer joins the one set that is left of those it has to do with. */
    method AddHere(ghost h: Heap, ghost hit: set<int>, s: int, p: Ptr)
      requires Ready() && any == None && p !in recs && p !in accesses && Live(State(), s)
      requires Settled(h) && Bounded(h, next) && hit == HitByPtr(h, aa, p) && Sweep(h, State(), hit, next, Some(s))
      requires sets[s].must && sets[s].ptrs != [] ==> aa.alias(sets[s].ptrs[0], p) != NoAlias
      modifies this`sets, this`recs, this`totalMay
      ensures Ready() && recs.Keys == old(recs.Keys) + {p} && Home(State(), p) == s && Excess() == old(Excess())
      ensures JoinedBy(h, State(), hit, p)
    {
      ghost var g := State();
      forall t | Live(g, t) && t != s ensures !TouchesPtr(aa, g.sets[t], p) {
        SweptApart(h, g, hit, next, Some(s), aa, p, Inst(0, false), t);
      }
      assert ListOk(g, s);
      ghost var must := AddPointerToSet(s, p, NOBODY);
      WithPtrKeeps(g, s, p, must, NOBODY);
      WithPtrMeans(g, s, p, must, aa, accesses);
      JoinsFound(h, g, State(), hit, next, s, p);
    }

    /** A pointer that no set has to do with gets a new set. */
    method AddNew(ghost h: Heap, ghost hit: set<int>, p: Ptr)
      requires Ready() && any == None && p !in recs && p !in accesses
      requires Settled(h) && Bounded(h, next) && hit == HitByPtr(h, aa, p) && Sweep(h, State(), hit, next, None)
      modifies this`sets, this`recs, this`totalMay, this`next
      ensures Ready() && recs.Keys == old(recs.Keys) + {p} && Home(State(), p) == old(next) && Excess() == old(Excess())
      ensures JoinedBy(h, State(), hit, p)
    {
      ghost var g := State();
      forall t | Live(g, t) ensures !TouchesPtr(aa, g.sets[t], p) {
        SweptApart(h, g, hit, next, None, aa, p, Inst(0, false), t);
      }
      WithSetKeeps(g, next, EMPTY, None);
      WithSetMeans(g, next, EMPTY, None, aa, accesses);
      var s := MakeSet(EMPTY);
      ghost var k := State();
      ghost var must := AddPointerToSet(s, p, s);
      WithPtrKeeps(k, s, p, must, s);
      forall t | Live(k, t) && t != s ensures !TouchesPtr(aa, k.sets[t], p) {
        assert Live(g, t);
      }
      WithPtrMeans(k, s, p, must, aa, accesses);
      JoinsNew(h, g, k, State(), hit, s, p);
    }

    /** Merges all sets into one that is taken to alias everything. No set is used after it is gone. */
    method MergeAllAliasSets() returns (s: int)
      requires Ready() && any == None && |sets| > 0
      modifies this`sets, this`any, this`totalMay, this`next
      ensures Ready() && any == Some(s) && recs == old(recs) && Excess() == old(Excess())
    {
      var asVector := Snapshot();
      s := MakeAny(asVector);
      AbsorbAll(asVector, s);
      AllAbsorbed(State(), asVector, s, aa, accesses);
    }

    method AbsorbAll(asVector: seq<int>, s: int)
      requires Absorbing(State(), asVector, 0, s, aa, accesses) && any == Some(s) && Bounded(State(), next)
      modifies this`sets, this`totalMay
      ensures Absorbing(State(), asVector, |asVector|, s, aa, accesses) && Bounded(State(), next)
      ensures Excess() == old(Excess())
    {
      for k := 0 to |asVector|
        invariant Absorbing(State(), asVector, k, s, aa, accesses) && Bounded(State(), next)
        invariant Excess() == old(Excess())
      {
        AbsorbNext(asVector, k, s);
      }
    }

    /** Makes the set that all others are to be merged into. */
    method MakeAny(asVector: seq<int>) returns (s: int)
      requires Ready() && any == None && |sets| > 0
      requires (forall u | u in sets :: u in asVector) && (forall u | u in asVector :: u in sets)
      requires forall i, j | 0 <= i < j < |asVector| :: asVector[i] < asVector[j]
      modifies this`sets, this`any, this`next
      ensures Absorbing(State(), asVector, 0, s, aa, accesses) && |asVector| > 0
      ensures any == Some(s) && recs == old(recs) && Bounded(State(), next) && Excess() == old(Excess())
    {
      ghost var h := State();
      WithSetKeeps(h, next, ANY, Some(next));
      WithSetMeans(h, next, ANY, Some(next), aa, accesses);
      s := MakeSet(ANY);
      any := Some(s);
      AbsorbStarts(h, State(), asVector, s, aa, accesses);
      assert |asVector| > 0 by {
        var u :| u in h.sets;
        assert u in asVector;
      }
    }

    /** All sets there are, in order. */
    method Snapshot() returns (ids: seq<int>)
      requires Bounded(State(), next) && Chains(State())
      ensures (forall s | s in sets :: s in ids) && (forall s | s in ids :: s in sets)
      ensures forall i, j | 0 <= i < j < |ids| :: ids[i] < ids[j]
    {
      ids := [];
      assert forall s | s in sets :: s >= 0 by {
        forall s | s in sets ensures s >= 0 {
          assert Link(State(), s);
        }
      }
      for id := 0 to next
        invariant forall s | s in sets && s < id :: s in ids
        invariant forall s | s in ids :: s in sets && s < id
        invariant forall i, j | 0 <= i < j < |ids| :: ids[i] < ids[j]
      {
        if id in sets {
          assert forall i | 0 <= i < |ids| :: ids[i] in ids;
          ids := ids + [id];
        }
      }
    }

    /** One more set: if it was forwarding, it forwards to the one set instead; otherwise it is merged into it. */
    method AbsorbNext(asVector: seq<int>, k: nat, s: int)
      requires k < |asVector| && Absorbing(State(), asVector, k, s, aa, accesses) && any == Some(s)
      requires Bounded(State(), next)
      modifies this`sets, this`totalMay
      ensures Absorbing(State(), asVector, k + 1, s, aa, accesses) && Bounded(State(), next) &&
        Excess() == old(Excess())
    {
      var cur := asVector[k];
      AbsorbStep(State(), asVector, k, s, aa, accesses);
      if sets[cur].forward.Some? {
        AbsorbForwarding(asVector, k, s);
      } else {
        ghost var h := State();
        ghost var must := MergeSetIn(s, cur, if k == 0 then s else NOBODY);
        AbsorbMerged(h, State(), asVector, k, s, must, aa, accesses);
      }
    }

    method AbsorbForwarding(asVector: seq<int>, k: nat, s: int)
      requires k < |asVector| && Absorbing(State(), asVector, k, s, aa, accesses) && any == Some(s)
      requires Bounded(State(), next) && asVector[k] in sets && sets[asVector[k]].forward.Some?
      modifies this`sets, this`totalMay
      ensures Absorbing(State(), asVector, k + 1, s, aa, accesses) && Bounded(State(), next) &&
        Excess() == old(Excess())
    {
      ghost var h := State();
      var cur := asVector[k];
      AbsorbStep(h, asVector, k, s, aa, accesses);
      Shortcut(cur, s);
      AbsorbForwarded(h, State(), asVector, k, s, aa, accesses);
    }

    /** Records an access through a pointer. Sets that the pointer connects are merged; if then more than 250 pointers
        are counted in may-alias sets, all sets are. As long as the count is exact, that happens just when the
        may-alias sets hold more than 250 pointers. */
    method AddPointer(p: Ptr, e: Access) returns (s: int)
      requires Valid()
      modifies this
      ensures Valid() && recs.Keys == old(recs.Keys) + {p} && s == Home(State(), p)
      ensures accesses == old(accesses)[p := if p in old(accesses) then Union(old(accesses)[p], e) else e]
      ensures any == None && p in old(recs) ==> SameHomes(old(State()), State())
      ensures any == None && p !in old(recs) ==> Joined(old(State()), State(), aa, p)
      ensures any.Some? ==> forall q | q in recs :: Home(State(), q) == any.id
      ensures Excess() == old(Excess()) && (old(any).Some? ==> any == old(any))
      ensures old(any) == None && any.Some? ==>
        exists g :: Connected(old(State()), g, aa, p) && MaySum(g.sets) > SATURATION_THRESHOLD
      ensures any == None && old(Excess()) == 0 ==> MaySum(sets) <= SATURATION_THRESHOLD
    {
      ghost var h := State();
      s := GetAliasSetForPointer(p);
      RecordAccess(p, s, e, h);
      ghost var k := State();
      if any.None? && totalMay > SATURATION_THRESHOLD {
        assert Connected(h, k, aa, p);
        s := MergeAllAliasSets();
      }
      if any.Some? {
        forall q | q in recs ensures Home(State(), q) == any.id {
          AllAny(State(), q);
        }
      }
    }

    /** The set's access takes in that of the pointer. */
    method RecordAccess(p: Ptr, s: int, e: Access, ghost h: Heap)
      requires Ready() && p in recs && s == Home(State(), p) && accesses.Keys + {p} == recs.Keys && Settled(h)
      modifies this`sets, this`accesses
      ensures Ready() && Excess() == old(Excess()) && s == Home(State(), p) && accesses.Keys == recs.Keys
      ensures accesses == old(accesses)[p := if p in old(accesses) then Union(old(accesses)[p], e) else e]
      ensures SameHomes(old(State()), State())
      ensures SameHomes(h, old(State())) ==> SameHomes(h, State())
      ensures Joined(h, old(State()), aa, p) ==> Joined(h, State(), aa, p)
    {
      ghost var g := State();
      MaySumUpdate(sets, s, sets[s].(access := Union(sets[s].access, e)));
      sets := sets[s := sets[s].(access := Union(sets[s].access, e))];
      accesses := accesses[p := if p in accesses then Union(accesses[p], e) else e];
      AccessAdded(g, State(), s, aa, old(accesses), accesses, p, e);
      HomesThrough(h, g, State(), aa, p);
    }

    /** Puts an instruction into a set, which is a may-alias set from now on. */
    method AddUnknownInst(s: int, inst: Inst, ghost created: int)
      requires Structure(State(), NOBODY, 0, created) && (created == NOBODY || created == s) && Live(State(), s)
      requires Consistent(aa) && Meaning(State(), aa, accesses)
      requires forall t | Live(State(), t) && t != s :: !TouchesInst(aa, sets[t], inst)
      requires AnyOk(State()) && Bounded(State(), next)
      modifies this`sets
      ensures Ready() && SameHomes(old(State()), State()) && Live(State(), s) && inst in sets[s].unknown
      ensures Excess() == old(Excess()) - if old(sets[s]).must then |old(sets[s]).ptrs| else 0
    {
      ghost var h := State();
      var x := sets[s];
      if x.unknown == [] {
        x := x.(refCount := x.refCount + 1);
      }
      x := x.(unknown := x.unknown + [inst]);
      if !inst.writes {
        x := x.(must := false, access := Union(x.access, Access(false, true)));
      } else {
        x := x.(must := false, access := MOD_REF);
      }
      MaySumUpdate(sets, s, x);
      sets := sets[s := x];
      assert State() == WithUnknown(h, s, inst, x.access);
      WithUnknownKeeps(h, s, inst, x.access, created);
      WithUnknownMeans(h, s, inst, x.access, aa, accesses);
      assert AnyOk(State()) by {
        forall t | Live(State(), t) ensures Live(h, t) && sets[t].aliasAny == h.sets[t].aliasAny {
        }
      }
    }

    /** Records an instruction without a specific address: the sets that it has to do with become one. If that is a
        single must-alias set, its pointers are not counted although it is a may-alias set from now on; otherwise the
        count goes on as it was. */
    method AddUnknown(inst: Inst, mayReadOrWriteMemory: bool) returns (ghost s: int)
      requires Valid()
      modifies this`sets, this`totalMay, this`next
      ensures Valid() && recs == old(recs) && any == old(any)
      ensures !mayReadOrWriteMemory ==> State() == old(State())
      ensures mayReadOrWriteMemory ==> Live(State(), s) && inst in sets[s].unknown
      ensures mayReadOrWriteMemory ==>
        forall p | p in recs ::
          Home(State(), p) ==
            if Home(old(State()), p) in HitByInst(old(State()), aa, inst) then s else Home(old(State()), p)
      ensures Excess() == old(Excess()) - if mayReadOrWriteMemory then Uncounted(old(State()), aa, inst) else 0
      ensures mayReadOrWriteMemory ==>
        (Excess() == old(Excess()) <==> !exists t :: OneMustHit(old(State()), aa, inst, t))
    {
      if !mayReadOrWriteMemory {
        s := NOBODY;
        return;
      }
      ghost var h := State();
      ghost var hit := HitByInst(h, aa, inst);
      var found := FindAliasSetForUnknownInst(inst);
      UncountedIs(h, aa, inst, accesses, next, State(), found);
      s := PlaceUnknown(inst, found, h, hit);
    }

    /** Puts the instruction into the set that was found, or into a new one. */
    method PlaceUnknown(inst: Inst, found: Maybe, ghost h: Heap, ghost hit: set<int>) returns (ghost s: int)
      requires Ready() && Settled(h) && AnyOk(h) && Bounded(h, next)
      requires hit == HitByInst(h, aa, inst) && Sweep(h, State(), hit, next, found)
      modifies this`sets, this`next
      ensures Ready() && Live(State(), s) && inst in sets[s].unknown && recs.Keys == h.recs.Keys
      ensures Excess() == old(Excess()) - MustSize(old(State()), found)
      ensures forall p | p in h.recs :: Home(State(), p) == if Home(h, p) in hit then s else Home(h, p)
    {
      if found.Some? {
        AddFoundUnknown(inst, found.id, h, hit);
        s := found.id;
      } else {
        NoneInSaturated(h, aa, inst, next, State());
        s := AddNewUnknown(inst, h, hit);
      }
    }

    method AddFoundUnknown(inst: Inst, s: int, ghost h: Heap, ghost hit: set<int>)
      requires Ready() && Settled(h) && Bounded(h, next)
      requires hit == HitByInst(h, aa, inst) && Sweep(h, State(), hit, next, Some(s))
      modifies this`sets
      ensures Ready() && Live(State(), s) && inst in sets[s].unknown && recs.Keys == h.recs.Keys
      ensures Excess() == old(Excess()) - MustSize(old(State()), Some(s))
      ensures forall p | p in h.recs :: Home(State(), p) == if Home(h, p) in hit then s else Home(h, p)
    {
      ghost var g := State();
      forall t | Live(g, t) && t != s ensures !TouchesInst(aa, sets[t], inst) {
        SweptApart(h, g, hit, next, Some(s), aa, Ptr(0), inst, t);
      }
      AddUnknownInst(s, inst, NOBODY);
      SweptHomes(h, g, State(), hit, next, Some(s), s);
    }

    method AddNewUnknown(inst: Inst, ghost h: Heap, ghost hit: set<int>) returns (ghost s: int)
      requires Ready() && any == None && Settled(h) && Bounded(h, next)
      requires hit == HitByInst(h, aa, inst) && Sweep(h, State(), hit, next, None)
      modifies this`sets, this`next
      ensures Ready() && Live(State(), s) && inst in sets[s].unknown && recs.Keys == h.recs.Keys &&
        Excess() == old(Excess())
      ensures forall p | p in h.recs :: Home(State(), p) == if Home(h, p) in hit then s else Home(h, p)
    {
      ghost var g := State();
      WithSetKeeps(g, next, EMPTY, None);
      WithSetMeans(g, next, EMPTY, None, aa, accesses);
      var created := MakeSet(EMPTY);
      s := created;
      ghost var k := State();
      forall t | Live(k, t) && t != s ensures !TouchesInst(aa, k.sets[t], inst) {
        assert Live(g, t);
        SweptApart(h, g, hit, s, None, aa, Ptr(0), inst, t);
      }
      AddUnknownInst(created, inst, created);
      HomesTwice(g, k, State());
      SweptHomes(h, g, State(), hit, s, None, s);
    }
  }

  // The sweeps.

  /** Two live sets: so the tracker is not saturated. */
  lemma TwoLive(h: Heap, g: Heap, hit: set<int>, cur: int, f: int)
    requires Settled(h) && Settled(g) && AnyOk(g) && Sweep(h, g, hit, cur, Some(f)) && cur in hit && Live(h, cur)
    ensures g.any == None && f < cur && Live(g, f) && Live(g, cur)
  {
    assert Live(g, f) && Live(g, cur);
  }

  lemma FirstMust(h: Heap, g: Heap, hit: set<int>, cur: int)
    requires Settled(h) && Settled(g) && Sweep(h, g, hit, cur, None) && cur in hit && Live(h, cur)
    ensures StillMust(h, g, hit, cur + 1, Some(cur))
  {
    assert Live(g, cur) && SameMembers(h.sets[cur], g.sets[cur]);
  }

  /** A set that is still to come is as it was. */
  lemma SweepSame(h: Heap, g: Heap, hit: set<int>, cur: int, found: Maybe, o: Oracle, accesses: map<Ptr, Access>,
                  p: Ptr, i: Inst)
    requires Settled(h) && Settled(g) && Sweep(h, g, hit, cur, found) && Live(g, cur) && Meaning(g, o, accesses)
    ensures SetOk(o, g.sets[cur], accesses) && Live(h, cur) && g.sets[cur].aliasAny == h.sets[cur].aliasAny
    ensures TouchesPtr(o, g.sets[cur], p) == TouchesPtr(o, h.sets[cur], p)
    ensures TouchesInst(o, g.sets[cur], i) == TouchesInst(o, h.sets[cur], i)
    ensures g.sets[cur].must ==> g.sets[cur].ptrs != []
  {
    assert SameMembers(h.sets[cur], g.sets[cur]);
    SameTouches(o, h.sets[cur], g.sets[cur], p, i);
    assert Link(g, cur);
  }

  lemma NotLive(h: Heap, g: Heap, hit: set<int>, cur: int, found: Maybe)
    requires Settled(h) && Settled(g) && Sweep(h, g, hit, cur, found)
    ensures Live(g, cur) == Live(h, cur)
  {
  }

  // The count of pointers in may-alias sets.

  /** What an instruction that is put into the set leaves uncounted. */
  function MustSize(h: Heap, found: Maybe): nat
    requires found.Some? ==> found.id in h.sets
  {
    if found.Some? && h.sets[found.id].must then |h.sets[found.id].ptrs| else 0
  }

  /** The instruction has to do with one set only, and that is a must-alias set. */
  ghost predicate OneMustHit(h: Heap, o: Oracle, i: Inst, s: int) {
    HitByInst(h, o, i) == {s} && s in h.sets && h.sets[s].must
  }

  ghost function Uncounted(h: Heap, o: Oracle, i: Inst): nat {
    if exists s :: OneMustHit(h, o, i, s) then
      var s: int :| OneMustHit(h, o, i, s);
      |h.sets[s].ptrs|
    else 0
  }

  /** The set that the ones hit so far are merged into is a must-alias set just if it is the only one, and was one. */
  ghost predicate StillMust(h: Heap, g: Heap, hit: set<int>, cur: int, found: Maybe) {
    found.Some? ==>
      var f := found.id;
      && f in h.sets && f in g.sets
      && (g.sets[f].must <==> h.sets[f].must && forall t | t in hit && t < cur :: t == f)
      && (g.sets[f].must ==> g.sets[f].ptrs == h.sets[f].ptrs)
  }

  lemma UncountedIs(h: Heap, o: Oracle, i: Inst, accesses: map<Ptr, Access>, next: int, g: Heap, found: Maybe)
    requires Settled(h) && Meaning(h, o, accesses) && Bounded(h, next) && Settled(g)
    requires Sweep(h, g, HitByInst(h, o, i), next, found) && StillMust(h, g, HitByInst(h, o, i), next, found)
    ensures found.Some? ==> found.id in g.sets
    ensures Uncounted(h, o, i) == MustSize(g, found)
    ensures Uncounted(h, o, i) == 0 <==> !exists s :: OneMustHit(h, o, i, s)
  {
    var hit := HitByInst(h, o, i);
    forall s | OneMustHit(h, o, i, s) ensures found == Some(s) && g.sets[s].must && h.sets[s].ptrs != [] {
      assert s in hit;
      assert Live(h, s) && SetOk(o, h.sets[s], accesses) && Link(h, s);
    }
    if found.Some? && g.sets[found.id].must {
      assert hit == {found.id};
      assert OneMustHit(h, o, i, found.id);
    }
  }

  /** The count falls behind: an instruction that touches the only pointer there is, in a must-alias set. */
  lemma CountFallsBehind(p: Ptr, i: Inst) returns (h: Heap, o: Oracle, accesses: map<Ptr, Access>)
    ensures Consistent(o) && Settled(h) && Bounded(h, 1) && Meaning(h, o, accesses) && AnyOk(h) && h.any == None
    ensures h.recs.Keys == accesses.Keys == {p} && MaySum(h.sets) == 0
    ensures Uncounted(h, o, i) == 1
  {
    o := Oracle((x, y) => if x == y then MustAlias else NoAlias, (x, y) => true, (x, y) => true);
    var only := AliasSet([p], [], None, 1, false, MOD_REF, true);
    h, accesses := Heap(map[0 := only], map[p := 0], None), map[p := MOD_REF];
    OnlySetSettled(h, p, only);
    MaySumUpdate(map[], 0, only);
    assert h.sets == map[][0 := only];
    assert p in only.ptrs;
    assert TouchesInst(o, only, i) by { assert p in only.ptrs; }
    assert HitByInst(h, o, i) == {0};
    assert OneMustHit(h, o, i, 0);
  }

  lemma OnlySetSettled(h: Heap, p: Ptr, x: AliasSet)
    requires h == Heap(map[0 := x], map[p := 0], None)
    requires x.ptrs == [p] && x.unknown == [] && x.forward == None && x.refCount == 1
    ensures Settled(h)
  {
    assert Link(h, 0);
    assert Target(h, 0) == 0 && RecOk(h, p) && ListOk(h, 0);
    assert Names(h, 0) == {p} && Forwarders(h, 0) == {};
    assert CountOk(h, 0, NOBODY, 0);
  }

  /** Live sets have nothing to do with each other, so merging two never leaves a must-alias set. */
  lemma NeverBothMust(h: Heap, o: Oracle, accesses: map<Ptr, Access>, a: int, b: int)
    requires Settled(h) && Meaning(h, o, accesses) && Live(h, a) && Live(h, b) && a != b
    ensures !BothMust(o, h.sets[a], h.sets[b])
  {
    var x, y := h.sets[a], h.sets[b];
    assert SetOk(o, x, accesses) && SetOk(o, y, accesses) && Apart(o, x, y);
    if x.ptrs != [] && y.ptrs != [] {
      assert x.ptrs[0] in x.ptrs && y.ptrs[0] in y.ptrs;
      assert !TouchesPtr(o, x, y.ptrs[0]);
    }
  }

  lemma CanMerge(h: Heap, o: Oracle, accesses: map<Ptr, Access>, a: int, b: int)
    requires Settled(h) && Meaning(h, o, accesses) && AnyOk(h) && h.any == None
    requires Live(h, a) && Live(h, b) && a != b
    ensures Mergeable(h.sets[a], h.sets[b])
  {
    assert ListOk(h, a) && ListOk(h, b) && Link(h, a) && Link(h, b);
    assert SetOk(o, h.sets[a], accesses) && SetOk(o, h.sets[b], accesses);
  }

  lemma HomesTwice(g: Heap, k: Heap, l: Heap)
    requires Chains(g) && Linked(g) && Chains(k) && Linked(k) && Chains(l) && Linked(l)
    requires SameHomes(g, k) && SameHomes(k, l)
    ensures SameHomes(g, l)
  {
    forall p | p in g.recs ensures Home(l, p) == Home(g, p) {
      assert Home(k, p) == Home(g, p);
    }
  }

  lemma SweptHomes(h: Heap, g: Heap, k: Heap, hit: set<int>, next: int, found: Maybe, s: int)
    requires Settled(h) && Settled(g) && Settled(k) && Bounded(h, next) && Sweep(h, g, hit, next, found)
    requires SameHomes(g, k) && (found.Some? ==> s == found.id)
    ensures forall p | p in h.recs :: p in k.recs && Home(k, p) == if Home(h, p) in hit then s else Home(h, p)
  {
    forall p | p in h.recs ensures Home(k, p) == if Home(h, p) in hit then s else Home(h, p) {
      assert Home(k, p) == Home(g, p);
    }
  }

  // What a client can rely on.

  /** Pointers that may alias are in one set. */
  lemma AliasesShareSet(h: Heap, o: Oracle, accesses: map<Ptr, Access>, p: Ptr, q: Ptr)
    requires Settled(h) && Meaning(h, o, accesses) && p in h.recs && q in h.recs
    ensures o.alias(p, q) != NoAlias ==> Home(h, p) == Home(h, q)
  {
    var s, t := Home(h, p), Home(h, q);
    if s != t {
      assert Apart(o, h.sets[s], h.sets[t]);
      assert !TouchesPtr(o, h.sets[s], q);
    }
  }

  /** Pointers in a must-alias set must alias, and the accesses through a pointer are among those of its set. */
  lemma SetsKeepPromises(h: Heap, o: Oracle, accesses: map<Ptr, Access>, p: Ptr, q: Ptr)
    requires Settled(h) && Meaning(h, o, accesses) && p in h.recs && q in h.recs && Home(h, p) == Home(h, q)
    ensures h.sets[Home(h, p)].must && p != q ==> o.alias(p, q) == MustAlias
    ensures p in accesses ==> Covers(h.sets[Home(h, p)].access, accesses[p])
  {
    assert SetOk(o, h.sets[Home(h, p)], accesses);
  }

  /** Before saturation nothing is given away: a set is a must-alias set just if it has no instructions and all its
      pointers must alias, and it writes or reads just if one of its members does. */
  lemma SetsAreTight(h: Heap, o: Oracle, accesses: map<Ptr, Access>, s: int)
    requires Settled(h) && Meaning(h, o, accesses) && AnyOk(h) && h.any == None && Live(h, s)
    ensures h.sets[s].must <==> h.sets[s].unknown == [] && AllMust(o, h.sets[s].ptrs)
    ensures h.sets[s].access.mod <==> Writes(h.sets[s], accesses)
    ensures h.sets[s].access.ref <==> Reads(h.sets[s], accesses)
  {
    assert SetOk(o, h.sets[s], accesses);
    if h.sets[s].unknown != [] { assert h.sets[s].unknown[0] in h.sets[s].unknown; }
  }

  /** Every count is exact, and no set is without a reference. */
  lemma CountsAreExact(h: Heap, s: int)
    requires Settled(h) && s in h.sets
    ensures h.sets[s].refCount == |Names(h, s)| + |Forwarders(h, s)| + if h.sets[s].unknown != [] then 1 else 0
    ensures Live(h, s) ==> h.sets[s].refCount >= 1
  {
    assert CountOk(h, s, NOBODY, 0) && Link(h, s);
    if Live(h, s) {
      LiveReferred(h, s);
    }
  }

  const ANY := AliasSet([], [], None, 0, true, MOD_REF, false)

  /** The sets seen so far forward to the one set directly; those to come are untouched. */
  predicate Absorbed(h: Heap, asVector: seq<int>, k: nat, s: int, u: int)
    requires u in h.sets && k <= |asVector|
  {
    u == s || u in asVector[k..] || h.sets[u].forward == Some(s)
  }

  predicate ToCome(h: Heap, s: int, u: int) {
    u in h.sets && u != s && h.sets[u].forward != Some(s)
  }

  ghost predicate Absorbing(h: Heap, asVector: seq<int>, k: nat, s: int, o: Oracle, accesses: map<Ptr, Access>) {
    && k <= |asVector| && Consistent(o)
    && (if k == 0 then Structure(h, NOBODY, 0, s) else Settled(h))
    && h.any == Some(s) && Live(h, s) && IsAny(h.sets[s])
    && Meaning(h, o, accesses)
    && (forall i, j | 0 <= i < j < |asVector| :: asVector[i] < asVector[j])
    && (k == 0 ==> forall u | u in h.sets :: u == s || u in asVector)
    && (forall u {:trigger ToCome(h, s, u)} | u in asVector[k..] :: ToCome(h, s, u))
    && (forall u {:trigger Absorbed(h, asVector, k, s, u)} | u in h.sets :: Absorbed(h, asVector, k, s, u))
  }

  lemma AllAbsorbed(h: Heap, asVector: seq<int>, s: int, o: Oracle, accesses: map<Ptr, Access>)
    requires Absorbing(h, asVector, |asVector|, s, o, accesses) && |asVector| > 0
    ensures Settled(h) && Meaning(h, o, accesses) && AnyOk(h)
  {
    forall u | Live(h, u) ensures Some(u) == h.any && IsAny(h.sets[u]) {
      assert Absorbed(h, asVector, |asVector|, s, u);
    }
  }

  lemma AbsorbStarts(h: Heap, g: Heap, asVector: seq<int>, s: int, o: Oracle, accesses: map<Ptr, Access>)
    requires Settled(h) && h.any == None && s !in h.sets && g == WithSet(h, s, ANY, Some(s)) && Consistent(o)
    requires Structure(g, NOBODY, 0, s) && Meaning(g, o, accesses)
    requires (forall u | u in h.sets :: u in asVector) && (forall u | u in asVector :: u in h.sets)
    requires forall i, j | 0 <= i < j < |asVector| :: asVector[i] < asVector[j]
    ensures Absorbing(g, asVector, 0, s, o, accesses)
  {
    assert asVector[0..] == asVector;
    forall u | u in asVector ensures ToCome(g, s, u) {
      assert Link(h, u);
    }
    forall u | u in g.sets ensures Absorbed(g, asVector, 0, s, u) {
    }
  }

  /** What is known about the next set. A forwarding set leads to the one set already, as it forwards to
      an earlier set, which was seen before. */
  lemma AbsorbStep(h: Heap, asVector: seq<int>, k: nat, s: int, o: Oracle, accesses: map<Ptr, Access>)
    requires k < |asVector| && Absorbing(h, asVector, k, s, o, accesses)
    ensures var cur := asVector[k];
      cur in h.sets && cur != s &&
      (h.sets[cur].forward.Some? ==> Settled(h) && Target(h, cur) == s && h.sets[cur].forward.id != s) &&
      (h.sets[cur].forward.None? ==> Rank(h, s) < Rank(h, cur) && (h.sets[cur].must ==> h.sets[cur].ptrs != []))
  {
    var cur := asVector[k];
    assert asVector[k..][0] == cur;
    assert cur in asVector[k..] && ToCome(h, s, cur);
    assert Link(h, cur);
    if h.sets[cur].forward.Some? {
      var f := h.sets[cur].forward.id;
      assert f < cur;
      SeenBefore(asVector, k, f);
      assert Absorbed(h, asVector, k, s, f);
      assert Target(h, f) == s;
    } else {
      assert SetOk(o, h.sets[cur], accesses);
    }
  }

  lemma SeenBefore(asVector: seq<int>, k: nat, f: int)
    requires k < |asVector| && f < asVector[k]
    requires forall i, j | 0 <= i < j < |asVector| :: asVector[i] < asVector[j]
    ensures f !in asVector[k..] && (k == 0 ==> f !in asVector)
  {
    forall u | u in asVector[k..] ensures u >= asVector[k] {
      var j :| 0 <= j < |asVector| - k && asVector[k..][j] == u;
    }
    assert k == 0 ==> asVector[k..] == asVector;
  }

  lemma AbsorbForwarded(h: Heap, st: Heap, asVector: seq<int>, k: nat, s: int, o: Oracle, accesses: map<Ptr, Access>)
    requires k < |asVector| && Absorbing(h, asVector, k, s, o, accesses) && Settled(h) && Settled(st)
    requires asVector[k] in h.sets && asVector[k] != s && Pruned(h, st, Rank(h, asVector[k]))
    requires forall t | t in st.sets ::
      t in h.sets && st.sets[t].forward == if t == asVector[k] then Some(s) else h.sets[t].forward
    ensures Absorbing(st, asVector, k + 1, s, o, accesses)
  {
    var cur := asVector[k];
    PrunedSame(h, st, Rank(h, cur));
    MeaningKept(h, st, o, accesses);
    assert Live(h, s) && Live(st, s) && SameMembers(h.sets[s], st.sets[s]);
    Untouched(h, st, asVector, k, s);
    forall u | u in st.sets ensures Absorbed(st, asVector, k + 1, s, u) {
      assert Absorbed(h, asVector, k, s, u);
      assert asVector[k..] == [cur] + asVector[k + 1..];
    }
  }

  lemma Untouched(h: Heap, st: Heap, asVector: seq<int>, k: nat, s: int)
    requires k < |asVector| && forall i, j | 0 <= i < j < |asVector| :: asVector[i] < asVector[j]
    requires h.any == Some(s) && asVector[k] != s
    requires forall u {:trigger ToCome(h, s, u)} | u in asVector[k..] :: ToCome(h, s, u)
    requires forall u | u in h.sets && Rank(h, u) > Rank(h, asVector[k]) :: u in st.sets && st.sets[u] == h.sets[u]
    ensures forall u {:trigger ToCome(st, s, u)} | u in asVector[k + 1..] :: ToCome(st, s, u)
  {
    forall u | u in asVector[k + 1..] ensures ToCome(st, s, u) {
      var j :| 0 <= j < |asVector| - k - 1 && asVector[k + 1..][j] == u;
      assert asVector[k..][j + 1] == u && asVector[k + 1 + j] == u;
      assert u in asVector[k..] && ToCome(h, s, u);
      assert Rank(h, u) > Rank(h, asVector[k]);
    }
  }

  lemma AbsorbMerged(h: Heap, st: Heap, asVector: seq<int>, k: nat, s: int, must: bool, o: Oracle,
                     accesses: map<Ptr, Access>)
    requires k < |asVector| && Absorbing(h, asVector, k, s, o, accesses) && Settled(st)
    requires Live(h, asVector[k]) && asVector[k] != s && must == BothMust(o, h.sets[s], h.sets[asVector[k]])
    requires Chains(Merged(h, s, asVector[k], must)) && Linked(Merged(h, s, asVector[k], must))
    requires Pruned(Merged(h, s, asVector[k], must), st, Rank(st, asVector[k]))
    requires forall t | t in st.sets ::
      t in h.sets && st.sets[t].forward == Merged(h, s, asVector[k], must).sets[t].forward
    ensures Absorbing(st, asVector, k + 1, s, o, accesses)
  {
    var cur := asVector[k];
    var g := Merged(h, s, cur, must);
    MergeMeans(h, s, cur, must, o, accesses);
    PrunedSame(g, st, Rank(st, cur));
    MeaningKept(g, st, o, accesses);
    assert Live(g, s) && Live(st, s) && SameMembers(g.sets[s], st.sets[s]);
    UntouchedByMerge(h, g, st, asVector, k, s, must);
    forall u | u in st.sets ensures Absorbed(st, asVector, k + 1, s, u) {
      assert Absorbed(h, asVector, k, s, u);
      assert asVector[k..] == [cur] + asVector[k + 1..];
    }
  }

  lemma UntouchedByMerge(h: Heap, g: Heap, st: Heap, asVector: seq<int>, k: nat, s: int, must: bool)
    requires k < |asVector| && forall i, j | 0 <= i < j < |asVector| :: asVector[i] < asVector[j]
    requires h.any == Some(s) && asVector[k] != s && s in h.sets && asVector[k] in h.sets &&
      g == Merged(h, s, asVector[k], must)
    requires forall u {:trigger ToCome(h, s, u)} | u in asVector[k..] :: ToCome(h, s, u)
    requires Chains(g) && Chains(st) && Pruned(g, st, Rank(st, asVector[k]))
    ensures forall u {:trigger ToCome(st, s, u)} | u in asVector[k + 1..] :: ToCome(st, s, u)
  {
    forall u | u in asVector[k + 1..] ensures ToCome(st, s, u) {
      var j :| 0 <= j < |asVector| - k - 1 && asVector[k + 1..][j] == u;
      assert asVector[k..][j + 1] == u && asVector[k + 1 + j] == u;
      assert u in asVector[k..] && ToCome(h, s, u);
      assert g.sets[u] == h.sets[u];
      assert Rank(g, u) > Rank(st, asVector[k]);
    }
  }

  /** Widening a set's access. */
  lemma AccessAdded(h: Heap, g: Heap, s: int, o: Oracle, before: map<Ptr, Access>, after: map<Ptr, Access>, p: Ptr,
                    e: Access)
    requires Settled(h) && Meaning(h, o, before) && AnyOk(h) && p in h.recs && s == Home(h, p)
    requires g == h.(sets := h.sets[s := h.sets[s].(access := Union(h.sets[s].access, e))])
    requires after == before[p := if p in before then Union(before[p], e) else e]
    ensures Settled(g) && Meaning(g, o, after) && AnyOk(g) && SameHomes(h, g)
  {
    WidenKeeps(h, g, s);
    assert RecOk(h, p);
    forall t | Live(g, t) ensures SetOk(o, g.sets[t], after) {
      assert Live(h, t) && SetOk(o, h.sets[t], before) && ListOk(h, t);
      assert Writes(h.sets[t], before) ==> Writes(g.sets[t], after);
      assert Reads(h.sets[t], before) ==> Reads(g.sets[t], after);
    }
    forall t, u | Live(g, t) && Live(g, u) && t != u ensures Apart(o, g.sets[t], g.sets[u]) {
      assert Apart(o, h.sets[t], h.sets[u]);
      SameApart(o, h.sets[t], h.sets[u], g.sets[t], g.sets[u]);
    }
  }

  lemma WidenKeeps(h: Heap, g: Heap, s: int)
    requires Settled(h) && s in h.sets && s in g.sets &&
      g == h.(sets := h.sets[s := h.sets[s].(access := g.sets[s].access)])
    ensures Settled(g) && SameHomes(h, g)
  {
    forall u | u in g.sets ensures Link(g, u) {
      assert Link(h, u);
    }
    forall u | u in h.sets ensures Target(g, u) == Target(h, u) {
      SameForwards(h, g, u);
    }
    forall q | q in g.recs ensures RecOk(g, q) {
      assert RecOk(h, q);
    }
    forall u | u in g.sets ensures ListOk(g, u) {
      assert ListOk(h, u);
    }
    forall u | u in g.sets ensures CountOk(g, u, NOBODY, 0) {
      assert CountOk(h, u, NOBODY, 0);
      assert Forwarders(g, u) == Forwarders(h, u) && Names(g, u) == Names(h, u);
    }
  }

  lemma HomesThrough(h: Heap, g: Heap, k: Heap, o: Oracle, p: Ptr)
    requires Settled(h) && Settled(g) && Settled(k) && SameHomes(g, k)
    ensures SameHomes(h, g) ==> SameHomes(h, k)
    ensures Joined(h, g, o, p) ==> Joined(h, k, o, p)
  {
    if SameHomes(h, g) {
      forall q | q in h.recs ensures Home(k, q) == Home(h, q) {
        assert Home(g, q) == Home(h, q);
      }
    }
    if Joined(h, g, o, p) {
      forall q | q in h.recs ensures Home(k, q) == if Home(h, q) in HitByPtr(h, o, p) then Home(k, p) else Home(h, q) {
        assert Home(k, q) == Home(g, q);
      }
    }
  }

  /** In a saturated tracker an instruction always finds its set. */
  lemma NoneInSaturated(h: Heap, o: Oracle, i: Inst, next: int, g: Heap)
    requires Settled(h) && AnyOk(h) && Bounded(h, next) && Settled(g) && Sweep(h, g, HitByInst(h, o, i), next, None)
    ensures h.any == None
  {
    if h.any.Some? {
      AnyHit(h, o, i, next);
    }
  }

  lemma AnyHit(h: Heap, o: Oracle, i: Inst, next: int)
    requires Settled(h) && AnyOk(h) && Bounded(h, next) && h.any.Some?
    ensures h.any.id in HitByInst(h, o, i) && h.any.id < next
  {
    assert Live(h, h.any.id);
  }

  /** In a saturated tracker, all pointers are in the one set. */
  lemma AllAny(h: Heap, p: Ptr)
    requires Settled(h) && AnyOk(h) && h.any.Some? && p in h.recs
    ensures Home(h, p) == h.any.id
  {
  }

  /** A state in which the pointer is in its set, and those that it connects are merged, but not yet all. */
  ghost predicate Connected(h: Heap, g: Heap, o: Oracle, p: Ptr) {
    && Settled(h) && Settled(g) && g.any == None
    && (p in h.recs ==> SameHomes(h, g)) && (p !in h.recs ==> Joined(h, g, o, p))
  }

  /** How the sets of the other pointers change when one is added: those hit become one, with the pointer. */
  ghost predicate JoinedBy(h: Heap, g: Heap, hit: set<int>, p: Ptr)
    requires Chains(h) && Linked(h) && Chains(g) && Linked(g)
  {
    && p in g.recs && g.recs.Keys == h.recs.Keys + {p}
    && forall q {:trigger Home(g, q)} {:trigger Home(h, q)} | q in h.recs ::
        Home(g, q) == if Home(h, q) in hit then Home(g, p) else Home(h, q)
  }

  ghost predicate Joined(h: Heap, g: Heap, o: Oracle, p: Ptr)
    requires Chains(h) && Linked(h) && Chains(g) && Linked(g)
  {
    JoinedBy(h, g, HitByPtr(h, o, p), p)
  }

  lemma FoundTouches(h: Heap, g: Heap, o: Oracle, p: Ptr, s: int, next: int, accesses: map<Ptr, Access>)
    requires Consistent(o) && Settled(h) && Settled(g) && Meaning(g, o, accesses) && AnyOk(g) && g.any == None
    requires Sweep(h, g, HitByPtr(h, o, p), next, Some(s))
    ensures Live(g, s) && (g.sets[s].must && g.sets[s].ptrs != [] ==> o.alias(g.sets[s].ptrs[0], p) != NoAlias)
  {
    assert Live(h, s) && Live(g, s) && SetOk(o, g.sets[s], accesses);
    assert TouchesPtr(o, h.sets[s], p);
    assert TouchesPtr(o, g.sets[s], p) by {
      assert forall q | q in h.sets[s].ptrs :: q in g.sets[s].ptrs;
      assert forall i | i in h.sets[s].unknown :: i in g.sets[s].unknown;
    }
    if g.sets[s].must && g.sets[s].ptrs != [] {
      MustTouches(o, g.sets[s], accesses, p);
    }
  }

  lemma JoinsFound(h: Heap, g: Heap, k: Heap, hit: set<int>, next: int, s: int, p: Ptr)
    requires Settled(h) && Settled(g) && Settled(k) && Bounded(h, next) && Sweep(h, g, hit, next, Some(s))
    requires p !in h.recs && k.recs.Keys == g.recs.Keys + {p} && Home(k, p) == s
    requires forall q | q in g.recs :: Home(k, q) == Home(g, q)
    ensures JoinedBy(h, k, hit, p)
  {
    forall q | q in h.recs ensures Home(k, q) == if Home(h, q) in hit then Home(k, p) else Home(h, q) {
      assert Home(g, q) == if Home(h, q) in hit && Home(h, q) < next then s else Home(h, q);
    }
  }

  lemma JoinsNew(h: Heap, g: Heap, k: Heap, l: Heap, hit: set<int>, next: int, p: Ptr)
    requires Settled(h) && Settled(g) && Chains(k) && Linked(k) && Settled(l) && Bounded(h, next) &&
      Sweep(h, g, hit, next, None)
    requires SameHomes(g, k) && p !in h.recs && l.recs.Keys == k.recs.Keys + {p}
    requires forall q | q in k.recs :: Home(l, q) == Home(k, q)
    ensures JoinedBy(h, l, hit, p)
  {
    forall q | q in h.recs ensures Home(l, q) == if Home(h, q) in hit then Home(l, p) else Home(h, q) {
      assert Home(h, q) !in hit;
      assert Home(k, q) == Home(g, q);
    }
  }

  lemma SameTwice(h: Heap, k: Heap, g: Heap)
    requires Chains(h) && Linked(h) && Chains(k) && Linked(k) && Chains(g) && Linked(g)
    requires SameLive(h, k) && SameHomes(h, k) && SameLive(k, g) && SameHomes(k, g)
    ensures SameLive(h, g) && SameHomes(h, g)
  {
    forall s ensures Live(h, s) == Live(g, s) && (Live(h, s) ==> SameMembers(h.sets[s], g.sets[s])) {
      assert Live(k, s) == Live(h, s);
      if Live(h, s) { assert SameMembers(h.sets[s], k.sets[s]); }
    }
    forall p | p in h.recs ensures Home(g, p) == Home(h, p) {
      assert Home(k, p) == Home(h, p);
    }
  }
}
