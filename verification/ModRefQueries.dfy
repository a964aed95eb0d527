/** Aggregate queries over several alias analyses: what a call may do to a location, or to another call. */
module ModRefQueries {

  datatype AliasResult = NoAlias | MayAlias | PartialAlias | MustAlias

  datatype ModRef = ModRef(mod: bool, ref: bool)

  const NONE := ModRef(false, false)
  const REF := ModRef(false, true)
  const MOD := ModRef(true, false)
  const BOTH := ModRef(true, true)

  function Meet(a: ModRef, b: ModRef): ModRef { ModRef(a.mod && b.mod, a.ref && b.ref) }

  function Join(a: ModRef, b: ModRef): ModRef { ModRef(a.mod || b.mod, a.ref || b.ref) }

  predicate Within(a: ModRef, b: ModRef) { (a.mod ==> b.mod) && (a.ref ==> b.ref) }

  /** How a function accesses memory, and where: through its arguments, in memory that programs cannot
      access, or elsewhere. */
  datatype Behavior = Behavior(kind: ModRef, args: bool, inaccessible: bool, elsewhere: bool)

  const UNKNOWN := Behavior(BOTH, true, true, true)
  const NO_ACCESS := Behavior(NONE, false, false, false)
  const ONLY_INACCESSIBLE := Behavior(BOTH, false, true, false)

  function MeetBehavior(a: Behavior, b: Behavior): Behavior {
    Behavior(Meet(a.kind, b.kind), a.args && b.args, a.inaccessible && b.inaccessible, a.elsewhere && b.elsewhere)
  }

  predicate OnlyReads(b: Behavior) { !b.kind.mod }

  predicate DoesNotRead(b: Behavior) { !b.kind.ref }

  predicate OnlyArgs(b: Behavior) { !b.inaccessible && !b.elsewhere }

  predicate AccessesArgs(b: Behavior) { b.kind != NONE && b.args }

  predicate OnlyInaccessibleOrArgs(b: Behavior) { !b.elsewhere }

  datatype Location = Location(id: int)

  /** An argument; if it is a pointer, the location it is known to point to. */
  datatype Arg = Arg(isPointer: bool, loc: Location)
  datatype Call = Call(id: int, args: seq<Arg>)

  /** One registered analysis. */
  datatype Analysis = Analysis(
    alias: (Location, Location) -> AliasResult,
    constantMemory: Location -> bool,
    callLocation: (Call, Location) -> ModRef,
    callCall: (Call, Call) -> ModRef,
    behavior: Call -> Behavior,
    argInfo: (Call, nat) -> ModRef)

  // What the queries answer.

  /** The first analysis with a definite answer decides. */
  function AliasOf(aas: seq<Analysis>, a: Location, b: Location): AliasResult {
    if aas == [] then MayAlias
    else if aas[0].alias(a, b) != MayAlias then aas[0].alias(a, b)
    else AliasOf(aas[1..], a, b)
  }

  predicate IsConstant(aas: seq<Analysis>, l: Location) {
    exists i :: 0 <= i < |aas| && aas[i].constantMemory(l)
  }

  function ArgInfoOf(aas: seq<Analysis>, c: Call, i: nat): ModRef {
    if aas == [] then BOTH else Meet(ArgInfoOf(aas[..|aas| - 1], c, i), aas[|aas| - 1].argInfo(c, i))
  }

  function BehaviorOf(aas: seq<Analysis>, c: Call): Behavior {
    if aas == [] then UNKNOWN else MeetBehavior(BehaviorOf(aas[..|aas| - 1], c), aas[|aas| - 1].behavior(c))
  }

  function EachCallLocation(aas: seq<Analysis>, c: Call, l: Location): ModRef {
    if aas == [] then BOTH else Meet(EachCallLocation(aas[..|aas| - 1], c, l), aas[|aas| - 1].callLocation(c, l))
  }

  function EachCallCall(aas: seq<Analysis>, c: Call, d: Call): ModRef {
    if aas == [] then BOTH else Meet(EachCallCall(aas[..|aas| - 1], c, d), aas[|aas| - 1].callCall(c, d))
  }

  /** Argument i is a pointer that may point into l. */
  predicate ArgMayAlias(aas: seq<Analysis>, c: Call, i: nat, l: Location)
    requires i < |c.args|
  {
    c.args[i].isPointer && AliasOf(aas, c.args[i].loc, l) != NoAlias
  }

  /** What the call may do through those of its first n arguments that may point into l. */
  function ArgsMask(aas: seq<Analysis>, c: Call, l: Location, n: nat): ModRef
    requires n <= |c.args|
  {
    if n == 0 then NONE
    else if ArgMayAlias(aas, c, n - 1, l) then Join(ArgsMask(aas, c, l, n - 1), ArgInfoOf(aas, c, n - 1))
    else ArgsMask(aas, c, l, n - 1)
  }

  predicate SomeArgAliases(aas: seq<Analysis>, c: Call, l: Location, n: nat)
    requires n <= |c.args|
  {
    exists i | 0 <= i < n :: ArgMayAlias(aas, c, i, l)
  }

  function ByKind(b: Behavior): ModRef {
    if OnlyReads(b) then REF else if DoesNotRead(b) then MOD else BOTH
  }

  /** What a call may do through its arguments, for calls that access nothing else a program can. */
  function ByArgs(aas: seq<Analysis>, c: Call, l: Location): ModRef {
    var b := BehaviorOf(aas, c);
    if !OnlyArgs(b) && !OnlyInaccessibleOrArgs(b) then BOTH
    else if !AccessesArgs(b) || !SomeArgAliases(aas, c, l, |c.args|) then NONE
    else ArgsMask(aas, c, l, |c.args|)
  }

  function CallLocation(aas: seq<Analysis>, c: Call, l: Location): ModRef {
    var b := BehaviorOf(aas, c);
    if b == NO_ACCESS || b == ONLY_INACCESSIBLE then NONE
    else
      var r := Meet(Meet(EachCallLocation(aas, c, l), ByKind(b)), ByArgs(aas, c, l));
      if IsConstant(aas, l) then Meet(r, REF) else r
  }

  /** What may depend on something done to a location: everything on a write, writes on a read. */
  function Inverse(m: ModRef): ModRef {
    if m == MOD then BOTH else if m == REF then MOD else m
  }

  /** What c may do to what d accesses through its first n arguments. */
  function OnTheirArgs(aas: seq<Analysis>, c: Call, d: Call, n: nat): ModRef
    requires n <= |d.args|
  {
    if n == 0 then NONE
    else
      var before := OnTheirArgs(aas, c, d, n - 1);
      if d.args[n - 1].isPointer then
        Join(before, Meet(Inverse(ArgInfoOf(aas, d, n - 1)), CallLocation(aas, c, d.args[n - 1].loc)))
      else before
  }

  /** What c does through an argument conflicts with what d may do to its location. */
  predicate Conflicts(mask: ModRef, other: ModRef) {
    (mask.mod && other != NONE) || (mask.ref && other.mod)
  }

  /** What c may do through those of its first n arguments that d may access as well. */
  function OnOwnArgs(aas: seq<Analysis>, c: Call, d: Call, n: nat): ModRef
    requires n <= |c.args|
  {
    if n == 0 then NONE
    else
      var before := OnOwnArgs(aas, c, d, n - 1);
      if c.args[n - 1].isPointer && Conflicts(ArgInfoOf(aas, c, n - 1), CallLocation(aas, d, c.args[n - 1].loc)) then
        Join(before, ArgInfoOf(aas, c, n - 1))
      else before
  }

  function CallCall(aas: seq<Analysis>, c: Call, d: Call): ModRef {
    Combined(BehaviorOf(aas, c), BehaviorOf(aas, d), EachCallCall(aas, c, d),
             OnTheirArgs(aas, c, d, |d.args|), OnOwnArgs(aas, c, d, |c.args|))
  }

  /** The answer about two calls, from their behaviors, what each analysis says, and what their arguments say. */
  function Combined(b1: Behavior, b2: Behavior, each: ModRef, theirs: ModRef, own: ModRef): ModRef {
    if b1 == NO_ACCESS || b2 == NO_ACCESS || (OnlyReads(b1) && OnlyReads(b2)) then NONE
    else
      var r := Meet(each, ByKind(b1));
      if OnlyArgs(b2) then
        if AccessesArgs(b2) then Meet(theirs, r) else NONE
      else if OnlyArgs(b1) then
        if AccessesArgs(b1) then Meet(own, r) else NONE
      else r
  }

  // What really happens, and which answers are right.

  /** Which addresses are in a location and where it starts, which a call reads and writes, and which of them through
      which argument; and the memory that programs cannot access. */
  datatype World = World(
    region: (Location, int) -> bool,
    start: Location -> int,
    loads: (Call, int) -> bool,
    stores: (Call, int) -> bool,
    argLoads: (Call, nat, int) -> bool,
    argStores: (Call, nat, int) -> bool,
    hidden: int -> bool)

  /** Accesses through an argument stay in its location, and no location holds hidden memory. */
  ghost predicate Consistent(w: World) {
    && (forall c: Call, i: nat, a: int | w.argLoads(c, i, a) || w.argStores(c, i, a) ::
          i < |c.args| && c.args[i].isPointer && w.region(c.args[i].loc, a))
    && forall l: Location, a: int | w.region(l, a) :: !w.hidden(a)
  }

  ghost predicate RightAlias(w: World, x: Location, y: Location, r: AliasResult) {
    match r
    case NoAlias => forall a: int | w.region(x, a) :: !w.region(y, a)
    case MayAlias => true
    case PartialAlias => exists a: int :: w.region(x, a) && w.region(y, a)
    case MustAlias => w.start(x) == w.start(y)
  }

  ghost predicate RightCallLocation(w: World, c: Call, l: Location, r: ModRef) {
    forall a: int | w.region(l, a) :: (w.stores(c, a) ==> r.mod) && (w.loads(c, a) ==> r.ref)
  }

  /** Mod if the first call writes what the second accesses, Ref if it reads what the second writes. */
  ghost predicate RightCallCall(w: World, c: Call, d: Call, r: ModRef) {
    forall a: int ::
      (w.stores(c, a) && (w.loads(d, a) || w.stores(d, a)) ==> r.mod) &&
      (w.loads(c, a) && w.stores(d, a) ==> r.ref)
  }

  ghost predicate RightArgInfo(w: World, c: Call, i: nat, r: ModRef) {
    forall a: int :: (w.argStores(c, i, a) ==> r.mod) && (w.argLoads(c, i, a) ==> r.ref)
  }

  /** An access is somewhere the behavior allows. */
  ghost predicate RightPlace(b: Behavior, throughArg: bool, hidden: bool) {
    b.elsewhere || (b.args && throughArg) || (b.inaccessible && hidden)
  }

  ghost predicate ArgRead(w: World, c: Call, a: int) { exists i: nat :: w.argLoads(c, i, a) }

  ghost predicate ArgWrite(w: World, c: Call, a: int) { exists i: nat :: w.argStores(c, i, a) }

  ghost predicate RightBehavior(w: World, c: Call, b: Behavior) {
    forall a: int ::
      (w.stores(c, a) ==> b.kind.mod && RightPlace(b, ArgWrite(w, c, a), w.hidden(a))) &&
      (w.loads(c, a) ==> b.kind.ref && RightPlace(b, ArgRead(w, c, a), w.hidden(a)))
  }

  /** Accessing anything elsewhere includes the other places. */
  predicate Regular(b: Behavior) { b.elsewhere ==> b.args && b.inaccessible }

  ghost predicate Sound(w: World, aa: Analysis) {
    && (forall x, y :: RightAlias(w, x, y, aa.alias(x, y)))
    && (forall l, c: Call, a: int | aa.constantMemory(l) && w.region(l, a) :: !w.stores(c, a))
    && (forall c, l :: RightCallLocation(w, c, l, aa.callLocation(c, l)))
    && (forall c, d :: RightCallCall(w, c, d, aa.callCall(c, d)))
    && (forall c :: RightBehavior(w, c, aa.behavior(c)) && Regular(aa.behavior(c)))
    && (forall c, i :: RightArgInfo(w, c, i, aa.argInfo(c, i)))
  }

  ghost predicate AllSound(w: World, aas: seq<Analysis>) {
    Consistent(w) && forall i | 0 <= i < |aas| :: Sound(w, aas[i])
  }

  // The answers are right if those of the registered analyses are.

  lemma {:induction false} AliasRight(w: World, aas: seq<Analysis>, x: Location, y: Location)
    requires AllSound(w, aas)
    ensures RightAlias(w, x, y, AliasOf(aas, x, y))
    decreases |aas|
  {
    if aas != [] {
      assert Sound(w, aas[0]);
      if aas[0].alias(x, y) == MayAlias {
        AliasRight(w, aas[1..], x, y);
      } else {
        assert RightAlias(w, x, y, aas[0].alias(x, y));
      }
    }
  }

  /** The first analysis with a definite answer decides, whatever the later ones would say; and there is none just if
      no analysis has one. */
  lemma {:induction false} FirstDecides(aas: seq<Analysis>, a: Location, b: Location, n: nat)
    requires n <= |aas| && forall k | 0 <= k < n :: aas[k].alias(a, b) == MayAlias
    ensures n < |aas| && aas[n].alias(a, b) != MayAlias ==> AliasOf(aas, a, b) == aas[n].alias(a, b)
    ensures n == |aas| ==> AliasOf(aas, a, b) == MayAlias
    decreases n
  {
    if n > 0 {
      assert forall k | 0 <= k < n - 1 :: aas[1..][k] == aas[k + 1];
      FirstDecides(aas[1..], a, b, n - 1);
    }
  }

  lemma {:induction false} ArgInfoRight(w: World, aas: seq<Analysis>, c: Call, i: nat)
    requires AllSound(w, aas)
    ensures RightArgInfo(w, c, i, ArgInfoOf(aas, c, i))
    decreases |aas|
  {
    if aas != [] {
      ArgInfoRight(w, aas[..|aas| - 1], c, i);
      var last := aas[|aas| - 1];
      assert Sound(w, last) && RightArgInfo(w, c, i, last.argInfo(c, i));
    }
  }

  lemma {:induction false} EachCallLocationRight(w: World, aas: seq<Analysis>, c: Call, l: Location)
    requires AllSound(w, aas)
    ensures RightCallLocation(w, c, l, EachCallLocation(aas, c, l))
    decreases |aas|
  {
    if aas != [] {
      EachCallLocationRight(w, aas[..|aas| - 1], c, l);
      var last := aas[|aas| - 1];
      assert Sound(w, last) && RightCallLocation(w, c, l, last.callLocation(c, l));
    }
  }

  lemma {:induction false} EachCallCallRight(w: World, aas: seq<Analysis>, c: Call, d: Call)
    requires AllSound(w, aas)
    ensures RightCallCall(w, c, d, EachCallCall(aas, c, d))
    decreases |aas|
  {
    if aas != [] {
      EachCallCallRight(w, aas[..|aas| - 1], c, d);
      var last := aas[|aas| - 1];
      assert Sound(w, last) && RightCallCall(w, c, d, last.callCall(c, d));
    }
  }

  /** No access is through an argument and in hidden memory, so meeting the places loses none. */
  lemma {:induction false} BehaviorRight(w: World, aas: seq<Analysis>, c: Call)
    requires AllSound(w, aas)
    ensures RightBehavior(w, c, BehaviorOf(aas, c)) && Regular(BehaviorOf(aas, c))
    decreases |aas|
  {
    if aas == [] {
      return;
    }
    BehaviorRight(w, aas[..|aas| - 1], c);
    var last := aas[|aas| - 1];
    var b, m := BehaviorOf(aas[..|aas| - 1], c), last.behavior(c);
    assert Sound(w, last) && RightBehavior(w, c, m) && Regular(m);
    forall a: int
      ensures w.stores(c, a) ==>
        MeetBehavior(b, m).kind.mod && RightPlace(MeetBehavior(b, m), ArgWrite(w, c, a), w.hidden(a))
      ensures w.loads(c, a) ==>
        MeetBehavior(b, m).kind.ref && RightPlace(MeetBehavior(b, m), ArgRead(w, c, a), w.hidden(a))
    {
      ThroughArgNotHidden(w, c, a);
    }
  }

  lemma ThroughArgNotHidden(w: World, c: Call, a: int)
    requires Consistent(w)
    ensures ArgWrite(w, c, a) || ArgRead(w, c, a) ==> !w.hidden(a)
  {
    if ArgWrite(w, c, a) {
      var i: nat :| w.argStores(c, i, a);
      assert w.region(c.args[i].loc, a);
    }
    if ArgRead(w, c, a) {
      var i: nat :| w.argLoads(c, i, a);
      assert w.region(c.args[i].loc, a);
    }
  }

  /** An argument that really reaches into l is among those looked at, with all it does. */
  lemma {:induction false} ArgsMaskRight(w: World, aas: seq<Analysis>, c: Call, l: Location, n: nat, i: nat, a: int)
    requires AllSound(w, aas) && n <= |c.args| && i < n && w.region(l, a)
    requires w.argStores(c, i, a) || w.argLoads(c, i, a)
    ensures ArgMayAlias(aas, c, i, l)
    ensures (w.argStores(c, i, a) ==> ArgsMask(aas, c, l, n).mod) &&
      (w.argLoads(c, i, a) ==> ArgsMask(aas, c, l, n).ref)
    decreases n
  {
    AliasRight(w, aas, c.args[i].loc, l);
    if i < n - 1 {
      ArgsMaskRight(w, aas, c, l, n - 1, i, a);
    } else {
      ArgInfoRight(w, aas, c, i);
    }
  }

  lemma ByArgsRight(w: World, aas: seq<Analysis>, c: Call, l: Location)
    requires AllSound(w, aas)
    ensures RightCallLocation(w, c, l, ByArgs(aas, c, l))
  {
    BehaviorRight(w, aas, c);
    forall a: int | w.region(l, a) && (w.stores(c, a) || w.loads(c, a))
      ensures (w.stores(c, a) ==> ByArgs(aas, c, l).mod) && (w.loads(c, a) ==> ByArgs(aas, c, l).ref)
    {
      if OnlyInaccessibleOrArgs(BehaviorOf(aas, c)) {
        if w.stores(c, a) {
          var i: nat :| w.argStores(c, i, a);
          ArgsMaskRight(w, aas, c, l, |c.args|, i, a);
        }
        if w.loads(c, a) {
          var i: nat :| w.argLoads(c, i, a);
          ArgsMaskRight(w, aas, c, l, |c.args|, i, a);
        }
      }
    }
  }

  /** The answer about a call and a location is right, and no less precise than that of any analysis. */
  lemma CallLocationRight(w: World, aas: seq<Analysis>, c: Call, l: Location)
    requires AllSound(w, aas)
    ensures RightCallLocation(w, c, l, CallLocation(aas, c, l))
  {
    EachCallLocationRight(w, aas, c, l);
    BehaviorRight(w, aas, c);
    ByArgsRight(w, aas, c, l);
    if IsConstant(aas, l) {
      var i :| 0 <= i < |aas| && aas[i].constantMemory(l);
      assert Sound(w, aas[i]);
    }
  }

  lemma {:induction false} EachWithin(aas: seq<Analysis>, c: Call, d: Call, l: Location, i: nat)
    requires i < |aas|
    ensures Within(EachCallLocation(aas, c, l), aas[i].callLocation(c, l))
    ensures Within(EachCallCall(aas, c, d), aas[i].callCall(c, d))
    decreases |aas|
  {
    if i < |aas| - 1 {
      EachWithin(aas[..|aas| - 1], c, d, l, i);
    }
  }

  lemma AnswersWithin(aas: seq<Analysis>, c: Call, d: Call, l: Location, i: nat)
    requires i < |aas|
    ensures Within(CallLocation(aas, c, l), aas[i].callLocation(c, l))
    ensures Within(CallCall(aas, c, d), aas[i].callCall(c, d))
  {
    EachWithin(aas, c, d, l, i);
  }

  // Nothing is said to happen that all that is known rules out.

  /** A pointer argument that may point into the location, and may be used to write or to read there. */
  ghost predicate ArgGives(aas: seq<Analysis>, c: Call, l: Location, n: nat, write: bool)
    requires n <= |c.args|
  {
    exists i | 0 <= i < n ::
      ArgMayAlias(aas, c, i, l) && if write then ArgInfoOf(aas, c, i).mod else ArgInfoOf(aas, c, i).ref
  }

  lemma {:induction false} MaskGiven(aas: seq<Analysis>, c: Call, l: Location, n: nat)
    requires n <= |c.args|
    ensures ArgsMask(aas, c, l, n).mod <==> ArgGives(aas, c, l, n, true)
    ensures ArgsMask(aas, c, l, n).ref <==> ArgGives(aas, c, l, n, false)
    decreases n
  {
    if n > 0 { MaskGiven(aas, c, l, n - 1); }
  }

  /** An answer about a call and a location takes in all that is known of the call's behavior, of constant memory, and
      of its arguments. */
  lemma CallLocationJustified(aas: seq<Analysis>, c: Call, l: Location)
    ensures var b, r := BehaviorOf(aas, c), CallLocation(aas, c, l);
      && (r.mod ==> b.kind.mod && !IsConstant(aas, l))
      && (r.ref ==> b.kind.ref || !b.kind.mod)
      && (r.mod && !b.elsewhere ==> ArgGives(aas, c, l, |c.args|, true))
      && (r.ref && !b.elsewhere ==> ArgGives(aas, c, l, |c.args|, false))
  {
    MaskGiven(aas, c, l, |c.args|);
  }

  /** A pointer argument of d that c may write to, or read where d writes. */
  ghost predicate TheirArgGives(aas: seq<Analysis>, c: Call, d: Call, n: nat, write: bool)
    requires n <= |d.args|
  {
    exists i | 0 <= i < n ::
      && d.args[i].isPointer
      && var known, own := Inverse(ArgInfoOf(aas, d, i)), CallLocation(aas, c, d.args[i].loc);
         if write then known.mod && own.mod else known.ref && own.ref
  }

  lemma {:induction false} TheirMaskGiven(aas: seq<Analysis>, c: Call, d: Call, n: nat)
    requires n <= |d.args|
    ensures OnTheirArgs(aas, c, d, n).mod <==> TheirArgGives(aas, c, d, n, true)
    ensures OnTheirArgs(aas, c, d, n).ref <==> TheirArgGives(aas, c, d, n, false)
    decreases n
  {
    if n > 0 { TheirMaskGiven(aas, c, d, n - 1); }
  }

  /** A pointer argument of c that is used so, and in conflict with what d may do to its location. */
  ghost predicate OwnArgGives(aas: seq<Analysis>, c: Call, d: Call, n: nat, write: bool)
    requires n <= |c.args|
  {
    exists i | 0 <= i < n ::
      && c.args[i].isPointer && Conflicts(ArgInfoOf(aas, c, i), CallLocation(aas, d, c.args[i].loc))
      && if write then ArgInfoOf(aas, c, i).mod else ArgInfoOf(aas, c, i).ref
  }

  lemma {:induction false} OwnMaskGiven(aas: seq<Analysis>, c: Call, d: Call, n: nat)
    requires n <= |c.args|
    ensures OnOwnArgs(aas, c, d, n).mod <==> OwnArgGives(aas, c, d, n, true)
    ensures OnOwnArgs(aas, c, d, n).ref <==> OwnArgGives(aas, c, d, n, false)
    decreases n
  {
    if n > 0 { OwnMaskGiven(aas, c, d, n - 1); }
  }

  /** So does an answer about two calls. */
  lemma CallCallJustified(aas: seq<Analysis>, c: Call, d: Call)
    ensures var b1, b2, r := BehaviorOf(aas, c), BehaviorOf(aas, d), CallCall(aas, c, d);
      && (r.mod ==> b1.kind.mod)
      && (r.ref ==> (b1.kind.ref || !b1.kind.mod) && (b1.kind.mod || b2.kind.mod))
      && (r.mod && OnlyArgs(b2) ==> TheirArgGives(aas, c, d, |d.args|, true))
      && (r.ref && OnlyArgs(b2) ==> TheirArgGives(aas, c, d, |d.args|, false))
      && (r.mod && OnlyArgs(b1) && !OnlyArgs(b2) ==> OwnArgGives(aas, c, d, |c.args|, true))
      && (r.ref && OnlyArgs(b1) && !OnlyArgs(b2) ==> OwnArgGives(aas, c, d, |c.args|, false))
  {
    TheirMaskGiven(aas, c, d, |d.args|);
    OwnMaskGiven(aas, c, d, |c.args|);
  }

  /** What d does through argument i shows in the mask for its arguments. */
  lemma {:induction false} OnTheirArgsRight(w: World, aas: seq<Analysis>, c: Call, d: Call, n: nat, i: nat, a: int)
    requires AllSound(w, aas) && n <= |d.args| && i < n
    requires w.argStores(d, i, a) || w.argLoads(d, i, a)
    ensures w.stores(c, a) ==> OnTheirArgs(aas, c, d, n).mod
    ensures w.loads(c, a) && w.argStores(d, i, a) ==> OnTheirArgs(aas, c, d, n).ref
    decreases n
  {
    if i < n - 1 {
      OnTheirArgsRight(w, aas, c, d, n - 1, i, a);
    } else {
      ArgInfoRight(w, aas, d, i);
      CallLocationRight(w, aas, c, d.args[i].loc);
    }
  }

  lemma {:induction false} OnOwnArgsRight(w: World, aas: seq<Analysis>, c: Call, d: Call, n: nat, i: nat, a: int)
    requires AllSound(w, aas) && n <= |c.args| && i < n
    ensures w.argStores(c, i, a) && (w.stores(d, a) || w.loads(d, a)) ==> OnOwnArgs(aas, c, d, n).mod
    ensures w.argLoads(c, i, a) && w.stores(d, a) ==> OnOwnArgs(aas, c, d, n).ref
    decreases n
  {
    if i < n - 1 {
      OnOwnArgsRight(w, aas, c, d, n - 1, i, a);
    } else if w.argStores(c, i, a) || w.argLoads(c, i, a) {
      ArgInfoRight(w, aas, c, i);
      CallLocationRight(w, aas, d, c.args[i].loc);
    }
  }

  /** The answer about two calls is right: Mod is set whenever the first writes what the second accesses,
      and Ref whenever the first reads what the second writes. */
  lemma CallCallRight(w: World, aas: seq<Analysis>, c: Call, d: Call)
    requires AllSound(w, aas)
    ensures RightCallCall(w, c, d, CallCall(aas, c, d))
  {
    EachCallCallRight(w, aas, c, d);
    BehaviorRight(w, aas, c);
    BehaviorRight(w, aas, d);
    var b1, b2 := BehaviorOf(aas, c), BehaviorOf(aas, d);
    forall a: int | (w.stores(c, a) && (w.loads(d, a) || w.stores(d, a))) || (w.loads(c, a) && w.stores(d, a))
      ensures w.stores(c, a) ==> CallCall(aas, c, d).mod
      ensures w.loads(c, a) && w.stores(d, a) ==> CallCall(aas, c, d).ref
    {
      if OnlyArgs(b2) {
        TheirAccess(w, aas, c, d, a);
      } else if OnlyArgs(b1) {
        OwnAccess(w, aas, c, d, a);
      }
    }
  }

  lemma TheirAccess(w: World, aas: seq<Analysis>, c: Call, d: Call, a: int)
    requires AllSound(w, aas) && RightBehavior(w, d, BehaviorOf(aas, d)) && OnlyArgs(BehaviorOf(aas, d))
    ensures w.stores(c, a) && (w.loads(d, a) || w.stores(d, a)) ==> OnTheirArgs(aas, c, d, |d.args|).mod
    ensures w.loads(c, a) && w.stores(d, a) ==> OnTheirArgs(aas, c, d, |d.args|).ref
    ensures w.loads(d, a) || w.stores(d, a) ==> AccessesArgs(BehaviorOf(aas, d))
  {
    if w.stores(d, a) {
      var i: nat :| w.argStores(d, i, a);
      OnTheirArgsRight(w, aas, c, d, |d.args|, i, a);
    }
    if w.loads(d, a) {
      var i: nat :| w.argLoads(d, i, a);
      OnTheirArgsRight(w, aas, c, d, |d.args|, i, a);
    }
  }

  lemma OwnAccess(w: World, aas: seq<Analysis>, c: Call, d: Call, a: int)
    requires AllSound(w, aas) && RightBehavior(w, c, BehaviorOf(aas, c)) && OnlyArgs(BehaviorOf(aas, c))
    ensures w.stores(c, a) && (w.loads(d, a) || w.stores(d, a)) ==> OnOwnArgs(aas, c, d, |c.args|).mod
    ensures w.loads(c, a) && w.stores(d, a) ==> OnOwnArgs(aas, c, d, |c.args|).ref
    ensures w.loads(c, a) || w.stores(c, a) ==> AccessesArgs(BehaviorOf(aas, c))
  {
    if w.stores(c, a) {
      var i: nat :| w.argStores(c, i, a);
      OnOwnArgsRight(w, aas, c, d, |c.args|, i, a);
    }
    if w.loads(c, a) {
      var i: nat :| w.argLoads(c, i, a);
      OnOwnArgsRight(w, aas, c, d, |c.args|, i, a);
    }
  }

  // One more analysis.

  lemma OneMore(aas: seq<Analysis>, x: Analysis, c: Call, d: Call, l: Location, i: nat)
    ensures EachCallLocation(aas + [x], c, l) == Meet(EachCallLocation(aas, c, l), x.callLocation(c, l))
    ensures EachCallCall(aas + [x], c, d) == Meet(EachCallCall(aas, c, d), x.callCall(c, d))
    ensures ArgInfoOf(aas + [x], c, i) == Meet(ArgInfoOf(aas, c, i), x.argInfo(c, i))
    ensures BehaviorOf(aas + [x], c) == MeetBehavior(BehaviorOf(aas, c), x.behavior(c))
    ensures IsConstant(aas, l) ==> IsConstant(aas + [x], l)
  {
    var more := aas + [x];
    assert more[..|more| - 1] == aas;
    if IsConstant(aas, l) {
      var k :| 0 <= k < |aas| && aas[k].constantMemory(l);
      assert more[k].constantMemory(l);
    }
  }

  lemma {:induction false} AliasSharpens(aas: seq<Analysis>, x: Analysis, a: Location, b: Location)
    ensures AliasOf(aas, a, b) == NoAlias ==> AliasOf(aas + [x], a, b) == NoAlias
    decreases |aas|
  {
    if aas != [] {
      AliasSharpens(aas[1..], x, a, b);
      assert (aas + [x])[1..] == aas[1..] + [x];
    }
  }

  lemma {:induction false} ArgsMaskSharpens(aas: seq<Analysis>, x: Analysis, c: Call, l: Location, n: nat)
    requires n <= |c.args|
    ensures Within(ArgsMask(aas + [x], c, l, n), ArgsMask(aas, c, l, n))
    ensures SomeArgAliases(aas + [x], c, l, n) ==> SomeArgAliases(aas, c, l, n)
    decreases n
  {
    if n > 0 {
      ArgsMaskSharpens(aas, x, c, l, n - 1);
      AliasSharpens(aas, x, c.args[n - 1].loc, l);
      OneMore(aas, x, c, c, l, n - 1);
    }
  }

  /** What one more analysis can make of a behavior. */
  predicate Refines(after: Behavior, before: Behavior) { MeetBehavior(before, after) == after }

  /** A call that only writes turns out not to access memory at all, but is still said to do so anywhere: the queries
      take such a call for one that reads. */
  predicate TakenForReader(before: Behavior, after: Behavior) {
    before.kind == MOD && after.kind == NONE && after.elsewhere
  }

  /** Registering one more analysis never blurs the answer about a call and a location otherwise. */
  lemma CallLocationSharpens(aas: seq<Analysis>, x: Analysis, c: Call, l: Location)
    requires !TakenForReader(BehaviorOf(aas, c), BehaviorOf(aas + [x], c))
    ensures Within(CallLocation(aas + [x], c, l), CallLocation(aas, c, l))
  {
    OneMore(aas, x, c, c, l, 0);
    ArgsMaskSharpens(aas, x, c, l, |c.args|);
  }

  /** Calls that do nothing. */
  function QuietWorld(): World {
    World((l, a) => false, l => 0, (c, a) => false, (c, a) => false, (c, i, a) => false, (c, i, a) => false, a => false)
  }

  /** Knows how two calls behave, what the second may do to the location of the first call's argument, and nothing
      else. */
  function Knows(b1: Behavior, b2: Behavior, known: ModRef): Analysis {
    Analysis((x, y) => MayAlias, l => false, (c: Call, l: Location) => if c.id == 2 && l.id == 1 then known
             else BOTH, (c, d) => BOTH,
             (c: Call) => if c.id == 1 then b1 else b2, (c, i) => BOTH)
  }

  function TheCall(id: int): Call { Call(id, [Arg(true, Location(id))]) }

  lemma KnowsSound(b1: Behavior, b2: Behavior, known: ModRef)
    requires Regular(b1) && Regular(b2)
    ensures Sound(QuietWorld(), Knows(b1, b2, known)) && Consistent(QuietWorld())
  {
  }

  /** Two analyses, the second knowing more about how two calls behave; both are right about calls that do nothing. */
  lemma TwoAnalyses(b1: Behavior, b2: Behavior, a1: Behavior, a2: Behavior, known: ModRef)
    returns (aas: seq<Analysis>, x: Analysis)
    requires Regular(b1) && Regular(b2) && Regular(a1) && Regular(a2) && Refines(a1, b1) && Refines(a2, b2)
    ensures aas == [Knows(b1, b2, known)] && x == Knows(a1, a2, BOTH) && AllSound(QuietWorld(), aas + [x])
    ensures BehaviorOf(aas, TheCall(1)) == b1 && BehaviorOf(aas, TheCall(2)) == b2
    ensures BehaviorOf(aas + [x], TheCall(1)) == a1 && BehaviorOf(aas + [x], TheCall(2)) == a2
    ensures Open(aas, known) && Open(aas + [x], known)
  {
    var first := Knows(b1, b2, known);
    aas, x := [first], Knows(a1, a2, BOTH);
    var c, d := TheCall(1), TheCall(2);
    KnowsSound(b1, b2, known);
    KnowsSound(a1, a2, BOTH);
    assert aas == [] + [first];
    OneMore([], first, c, d, Location(2), 0);
    OneMore([], first, d, c, Location(1), 0);
    OneMore(aas, x, c, d, Location(2), 0);
    OneMore(aas, x, d, c, Location(1), 0);
    AliasSkips(aas, c.args[0].loc, d.args[0].loc, 1);
    AliasSkips(aas + [x], c.args[0].loc, d.args[0].loc, 2);
  }

  /** All answers but those about behaviors are open, except about the second call and the argument of the first. */
  ghost predicate Open(aas: seq<Analysis>, known: ModRef) {
    var c, d := TheCall(1), TheCall(2);
    && EachCallLocation(aas, c, Location(2)) == BOTH && EachCallLocation(aas, d, Location(1)) == known
    && EachCallCall(aas, c, d) == BOTH && ArgInfoOf(aas, c, 0) == BOTH && ArgInfoOf(aas, d, 0) == BOTH
    && !IsConstant(aas, Location(1)) && !IsConstant(aas, Location(2))
    && AliasOf(aas, Location(1), Location(2)) == MayAlias
  }

  /** Such an analysis does blur the answer: from "writes" to "reads". */
  lemma CallLocationMayBlur(before: Behavior, after: Behavior)
    returns (w: World, aas: seq<Analysis>, x: Analysis, c: Call, l: Location)
    requires Regular(before) && Regular(after) && Refines(after, before) && TakenForReader(before, after)
    ensures AllSound(w, aas + [x]) && BehaviorOf(aas, c) == before && BehaviorOf(aas + [x], c) == after
    ensures CallLocation(aas, c, l) == MOD && CallLocation(aas + [x], c, l) == REF
  {
    aas, x := TwoAnalyses(before, before, after, after, BOTH);
    w, c, l := QuietWorld(), TheCall(1), Location(2);
  }

  ghost predicate LocationStaysSharp(before: Behavior, after: Behavior) {
    forall w, aas, x, c, l {:trigger AllSound(w, aas + [x]), CallLocation(aas, c, l)} ::
      AllSound(w, aas + [x]) && BehaviorOf(aas, c) == before && BehaviorOf(aas + [x], c) == after ==>
        Within(CallLocation(aas + [x], c, l), CallLocation(aas, c, l))
  }

  /** When one more sound analysis can blur the answer about a call and a location. */
  lemma CallLocationExact(before: Behavior, after: Behavior)
    requires Regular(before) && Regular(after) && Refines(after, before)
    ensures LocationStaysSharp(before, after) <==> !TakenForReader(before, after)
  {
    if TakenForReader(before, after) {
      var w, aas, x, c, l := CallLocationMayBlur(before, after);
      assert AllSound(w, aas + [x]) && CallLocation(aas, c, l) == MOD;
    } else {
      forall w, aas, x, c, l | AllSound(w, aas + [x]) && BehaviorOf(aas, c) == before &&
        BehaviorOf(aas + [x], c) == after
        ensures Within(CallLocation(aas + [x], c, l), CallLocation(aas, c, l))
      {
        CallLocationSharpens(aas, x, c, l);
      }
    }
  }

  lemma {:induction false} OnTheirArgsSharpens(aas: seq<Analysis>, x: Analysis, c: Call, d: Call, n: nat)
    requires n <= |d.args| && !TakenForReader(BehaviorOf(aas, c), BehaviorOf(aas + [x], c))
    ensures Within(OnTheirArgs(aas + [x], c, d, n), OnTheirArgs(aas, c, d, n))
    decreases n
  {
    if n > 0 {
      OnTheirArgsSharpens(aas, x, c, d, n - 1);
      OneMore(aas, x, d, d, Location(0), n - 1);
      CallLocationSharpens(aas, x, c, d.args[n - 1].loc);
    }
  }

  lemma {:induction false} OnOwnArgsSharpens(aas: seq<Analysis>, x: Analysis, c: Call, d: Call, n: nat)
    requires n <= |c.args| && !TakenForReader(BehaviorOf(aas, d), BehaviorOf(aas + [x], d))
    ensures Within(OnOwnArgs(aas + [x], c, d, n), OnOwnArgs(aas, c, d, n))
    decreases n
  {
    if n > 0 {
      OnOwnArgsSharpens(aas, x, c, d, n - 1);
      OneMore(aas, x, c, c, Location(0), n - 1);
      CallLocationSharpens(aas, x, d, c.args[n - 1].loc);
    }
  }

  /** A call that accesses nothing a program can. */
  lemma {:induction false} OnTheirArgsNone(aas: seq<Analysis>, c: Call, d: Call, n: nat)
    requires n <= |d.args| && !BehaviorOf(aas, c).elsewhere && !AccessesArgs(BehaviorOf(aas, c))
    ensures OnTheirArgs(aas, c, d, n) == NONE
    decreases n
  {
    if n > 0 {
      OnTheirArgsNone(aas, c, d, n - 1);
      assert CallLocation(aas, c, d.args[n - 1].loc) == NONE;
    }
  }

  /** The behaviors of two calls, before and after, for which the answer about them can be blurred: the first call is
      taken for a reader; or the second one is, and it decides which arguments of the first count; or the second is
      the one now found to work on its arguments only, so that its arguments decide and no longer those of the first. */
  predicate MayBlur(b1: Behavior, b2: Behavior, a1: Behavior, a2: Behavior) {
    || (b1.kind == MOD && a1.kind == NONE && a2.kind.mod && if OnlyArgs(a2) then a2.args && a1.elsewhere
        else !OnlyArgs(a1))
    || (TakenForReader(b2, a2) && OnlyArgs(b1) && a1.kind.mod && a1.args)
    || (OnlyArgs(b1) && !OnlyArgs(b2) && OnlyArgs(a2) && AccessesArgs(a1) && AccessesArgs(a2) &&
        (a1.kind.mod || a2.kind.mod))
  }

  /** Registering one more analysis never blurs the answer about two calls otherwise. */
  lemma CallCallSharpens(aas: seq<Analysis>, x: Analysis, c: Call, d: Call)
    requires !MayBlur(BehaviorOf(aas, c), BehaviorOf(aas, d), BehaviorOf(aas + [x], c), BehaviorOf(aas + [x], d))
    ensures Within(CallCall(aas + [x], c, d), CallCall(aas, c, d))
  {
    OneMore(aas, x, c, d, Location(0), 0);
    OneMore(aas, x, d, c, Location(0), 0);
    var b1, a1, b2, a2 := BehaviorOf(aas, c), BehaviorOf(aas + [x], c), BehaviorOf(aas, d), BehaviorOf(aas + [x], d);
    if !a1.elsewhere && !AccessesArgs(a1) {
      OnTheirArgsNone(aas + [x], c, d, |d.args|);
    }
    if !TakenForReader(b1, a1) {
      OnTheirArgsSharpens(aas, x, c, d, |d.args|);
    }
    if !TakenForReader(b2, a2) {
      OnOwnArgsSharpens(aas, x, c, d, |c.args|);
    }
    CombinedSharpens(b1, b2, a1, a2, EachCallCall(aas, c, d), EachCallCall(aas + [x], c, d),
                     OnTheirArgs(aas, c, d, |d.args|), OnTheirArgs(aas + [x], c, d, |d.args|),
                     OnOwnArgs(aas, c, d, |c.args|), OnOwnArgs(aas + [x], c, d, |c.args|));
  }

  lemma CombinedSharpens(b1: Behavior, b2: Behavior, a1: Behavior, a2: Behavior, each: ModRef, each': ModRef,
                         theirs: ModRef, theirs': ModRef, own: ModRef, own': ModRef)
    requires Refines(a1, b1) && Refines(a2, b2) && !MayBlur(b1, b2, a1, a2) && Within(each', each)
    requires !a1.elsewhere && !AccessesArgs(a1) ==> theirs' == NONE
    requires TakenForReader(b1, a1) || Within(theirs', theirs)
    requires TakenForReader(b2, a2) || Within(own', own)
    ensures Within(Combined(a1, a2, each', theirs', own'), Combined(b1, b2, each, theirs, own))
  {
  }

  /** Wherever it can, some sound analyses do. */
  lemma CallCallBlurs(b1: Behavior, b2: Behavior, a1: Behavior, a2: Behavior)
    returns (w: World, aas: seq<Analysis>, x: Analysis, c: Call, d: Call)
    requires Regular(b1) && Regular(b2) && Regular(a1) && Regular(a2) && Refines(a1, b1) && Refines(a2, b2)
    requires MayBlur(b1, b2, a1, a2)
    ensures AllSound(w, aas + [x])
    ensures BehaviorOf(aas, c) == b1 && BehaviorOf(aas, d) == b2 && BehaviorOf(aas + [x], c) == a1 &&
      BehaviorOf(aas + [x], d) == a2
    ensures !Within(CallCall(aas + [x], c, d), CallCall(aas, c, d))
  {
    w, c, d := QuietWorld(), TheCall(1), TheCall(2);
    var known := if b1.kind == MOD && a1.kind == NONE then BOTH else if TakenForReader(b2, a2) then REF else NONE;
    aas, x := TwoAnalyses(b1, b2, a1, a2, known);
    OneArgument(aas, b1, b2, known);
    OneArgument(aas + [x], a1, a2, known);
  }

  /** What the arguments of the two calls say, by their behaviors. */
  lemma OneArgument(aas: seq<Analysis>, b1: Behavior, b2: Behavior, known: ModRef)
    requires Open(aas, known) && BehaviorOf(aas, TheCall(1)) == b1 && BehaviorOf(aas, TheCall(2)) == b2
    ensures OnTheirArgs(aas, TheCall(1), TheCall(2), 1) == if b1.elsewhere || AccessesArgs(b1) then ByKind(b1) else NONE
    ensures OnOwnArgs(aas, TheCall(1), TheCall(2), 1) == NONE || OnOwnArgs(aas, TheCall(1), TheCall(2), 1) == BOTH
    ensures b2.elsewhere ==>
      (OnOwnArgs(aas, TheCall(1), TheCall(2), 1) == NONE <==> Meet(known, ByKind(b2)) == NONE)
  {
    var c, d := TheCall(1), TheCall(2);
    OpenArgument(aas, b1, known);
    assert OnTheirArgs(aas, c, d, 0) == NONE == OnOwnArgs(aas, c, d, 0);
    assert b2.elsewhere ==> CallLocation(aas, d, Location(1)) == Meet(known, ByKind(b2));
  }

  lemma OpenArgument(aas: seq<Analysis>, b1: Behavior, known: ModRef)
    requires Open(aas, known) && BehaviorOf(aas, TheCall(1)) == b1
    ensures CallLocation(aas, TheCall(1), Location(2)) == if b1.elsewhere || AccessesArgs(b1) then ByKind(b1) else NONE
  {
    var c := TheCall(1);
    assert ArgMayAlias(aas, c, 0, Location(2));
    assert ArgsMask(aas, c, Location(2), 0) == NONE;
    assert ArgsMask(aas, c, Location(2), 1) == BOTH;
  }

  ghost predicate CallsStaySharp(b1: Behavior, b2: Behavior, a1: Behavior, a2: Behavior) {
    forall w, aas, x, c, d {:trigger AllSound(w, aas + [x]), CallCall(aas, c, d)} ::
      AllSound(w, aas + [x]) && BehaviorOf(aas, c) == b1 && BehaviorOf(aas, d) == b2 &&
      BehaviorOf(aas + [x], c) == a1 && BehaviorOf(aas + [x], d) == a2 ==>
        Within(CallCall(aas + [x], c, d), CallCall(aas, c, d))
  }

  /** When one more sound analysis can blur the answer about two calls. */
  lemma CallCallExact(b1: Behavior, b2: Behavior, a1: Behavior, a2: Behavior)
    requires Regular(b1) && Regular(b2) && Regular(a1) && Regular(a2) && Refines(a1, b1) && Refines(a2, b2)
    ensures CallsStaySharp(b1, b2, a1, a2) <==> !MayBlur(b1, b2, a1, a2)
  {
    if MayBlur(b1, b2, a1, a2) {
      var w, aas, x, c, d := CallCallBlurs(b1, b2, a1, a2);
      assert AllSound(w, aas + [x]) && !Within(CallCall(aas + [x], c, d), CallCall(aas, c, d));
    } else {
      forall w, aas, x, c, d {:trigger AllSound(w, aas + [x]), CallCall(aas, c, d)} |
        AllSound(w, aas + [x]) && BehaviorOf(aas, c) == b1 && BehaviorOf(aas, d) == b2 &&
        BehaviorOf(aas + [x], c) == a1 && BehaviorOf(aas + [x], d) == a2
        ensures Within(CallCall(aas + [x], c, d), CallCall(aas, c, d))
      {
        CallCallSharpens(aas, x, c, d);
      }
    }
  }

  /** Two calls, each of which writes to the location of its own argument. */
  function TwoWriters(): World {
    World((l: Location, a) => l.id == a, (l: Location) => l.id, (c, a) => false, (c, a) => Writes(c, a),
          (c, i, a) => false, (c, i, a) => i == 0 && Writes(c, a), a => false)
  }

  predicate Writes(c: Call, a: int) { (c == TheCall(1) || c == TheCall(2)) && a == c.id }

  const ONLY_ARGS := Behavior(BOTH, true, false, false)

  /** A case with calls that do something, and analyses that are right about it: an answer of "nothing" becomes
      "anything", because the new analysis finds the second call to work on its argument only. */
  lemma CallCallMayBlur() returns (aas: seq<Analysis>, x: Analysis)
    ensures AllSound(TwoWriters(), aas + [x])
    ensures CallCall(aas, TheCall(1), TheCall(2)) == NONE && CallCall(aas + [x], TheCall(1), TheCall(2)) == BOTH
  {
    var first := Knows(ONLY_ARGS, UNKNOWN, NONE);
    aas, x := TwoAnalyses(ONLY_ARGS, UNKNOWN, ONLY_ARGS, ONLY_ARGS, NONE);
    WritersKnown(UNKNOWN, NONE);
    WritersKnown(ONLY_ARGS, BOTH);
    var more, c, d := aas + [x], TheCall(1), TheCall(2);
    assert ArgMayAlias(more, c, 0, Location(2));
    assert ArgsMask(more, c, Location(2), 0) == NONE;
    assert ArgsMask(more, c, Location(2), 1) == BOTH;
    assert OnTheirArgs(more, c, d, 0) == NONE == OnOwnArgs(aas, c, d, 0);
    assert OnTheirArgs(more, c, d, 1) == BOTH;
    assert OnOwnArgs(aas, c, d, 1) == NONE;
  }

  lemma WritersKnown(b2: Behavior, known: ModRef)
    requires b2 == UNKNOWN || b2 == ONLY_ARGS
    ensures Sound(TwoWriters(), Knows(ONLY_ARGS, b2, known)) && Consistent(TwoWriters())
  {
    var w := TwoWriters();
    forall c, a: int | w.stores(c, a) ensures ArgWrite(w, c, a) {
      assert w.argStores(c, 0, a);
    }
  }

  lemma {:induction false} OnTheirArgsGrows(aas: seq<Analysis>, c: Call, d: Call, n: nat, k: nat)
    requires n <= k <= |d.args|
    ensures Within(OnTheirArgs(aas, c, d, n), OnTheirArgs(aas, c, d, k))
    decreases k
  {
    if n < k {
      OnTheirArgsGrows(aas, c, d, n, k - 1);
    }
  }

  lemma {:induction false} OnOwnArgsGrows(aas: seq<Analysis>, c: Call, d: Call, n: nat, k: nat)
    requires n <= k <= |c.args|
    ensures Within(OnOwnArgs(aas, c, d, n), OnOwnArgs(aas, c, d, k))
    decreases k
  {
    if n < k {
      OnOwnArgsGrows(aas, c, d, n, k - 1);
    }
  }

  lemma {:induction false} EachStops(aas: seq<Analysis>, c: Call, d: Call, l: Location, i: nat, n: nat)
    requires n <= |aas|
    ensures EachCallLocation(aas[..n], c, l) == NONE ==> EachCallLocation(aas, c, l) == NONE
    ensures EachCallCall(aas[..n], c, d) == NONE ==> EachCallCall(aas, c, d) == NONE
    ensures ArgInfoOf(aas[..n], c, i) == NONE ==> ArgInfoOf(aas, c, i) == NONE
    ensures BehaviorOf(aas[..n], c) == NO_ACCESS ==> BehaviorOf(aas, c) == NO_ACCESS
    decreases |aas|
  {
    if n < |aas| {
      EachStops(aas[..|aas| - 1], c, d, l, i, n);
      assert aas[..|aas| - 1][..n] == aas[..n];
    } else {
      assert aas[..n] == aas;
    }
  }

  lemma {:induction false} AliasSkips(aas: seq<Analysis>, a: Location, b: Location, n: nat)
    requires n <= |aas| && forall k | 0 <= k < n :: aas[k].alias(a, b) == MayAlias
    ensures AliasOf(aas, a, b) == AliasOf(aas[n..], a, b)
    decreases n
  {
    if n > 0 {
      AliasSkips(aas[1..], a, b, n - 1);
      assert aas[1..][n - 1..] == aas[n..];
    } else {
      assert aas[0..] == aas;
    }
  }

  datatype Instruction = IsCall(call: Call) | Fence | Access(loc: Location)

  class AAResults {
    const aas: seq<Analysis>

    method Alias(a: Location, b: Location) returns (r: AliasResult)
      ensures r == AliasOf(aas, a, b)
    {
      for i := 0 to |aas|
        invariant forall k | 0 <= k < i :: aas[k].alias(a, b) == MayAlias
      {
        r := aas[i].alias(a, b);
        if r != MayAlias {
          AliasSkips(aas, a, b, i);
          return;
        }
      }
      AliasSkips(aas, a, b, |aas|);
      r := MayAlias;
    }

    method PointsToConstantMemory(l: Location) returns (b: bool)
      ensures b == IsConstant(aas, l)
    {
      for i := 0 to |aas|
        invariant forall k | 0 <= k < i :: !aas[k].constantMemory(l)
      {
        if aas[i].constantMemory(l) {
          return true;
        }
      }
      return false;
    }

    method GetArgModRefInfo(c: Call, argIdx: nat) returns (result: ModRef)
      ensures result == ArgInfoOf(aas, c, argIdx)
    {
      result := BOTH;
      for i := 0 to |aas|
        invariant result == ArgInfoOf(aas[..i], c, argIdx)
      {
        assert aas[..i + 1][..i] == aas[..i];
        result := Meet(result, aas[i].argInfo(c, argIdx));
        if result == NONE {
          EachStops(aas, c, c, Location(0), argIdx, i + 1);
          return;
        }
      }
      assert aas[..|aas|] == aas;
    }

    method GetModRefBehavior(c: Call) returns (result: Behavior)
      ensures result == BehaviorOf(aas, c)
    {
      result := UNKNOWN;
      for i := 0 to |aas|
        invariant result == BehaviorOf(aas[..i], c)
      {
        assert aas[..i + 1][..i] == aas[..i];
        result := MeetBehavior(result, aas[i].behavior(c));
        if result == NO_ACCESS {
          EachStops(aas, c, c, Location(0), 0, i + 1);
          return;
        }
      }
      assert aas[..|aas|] == aas;
    }

    /** What the arguments of the call may have to do with the location. */
    method ScanArgs(c: Call, l: Location) returns (doesAlias: bool, allArgsMask: ModRef)
      ensures doesAlias == SomeArgAliases(aas, c, l, |c.args|)
      ensures allArgsMask == ArgsMask(aas, c, l, |c.args|)
    {
      doesAlias, allArgsMask := false, NONE;
      for i := 0 to |c.args|
        invariant doesAlias == SomeArgAliases(aas, c, l, i)
        invariant allArgsMask == ArgsMask(aas, c, l, i)
      {
        if c.args[i].isPointer {
          var argAlias := Alias(c.args[i].loc, l);
          if argAlias != NoAlias {
            assert ArgMayAlias(aas, c, i, l);
            var argMask := GetArgModRefInfo(c, i);
            doesAlias := true;
            allArgsMask := Join(allArgsMask, argMask);
          }
        }
      }
    }

    /** What the call may do to the location. */
    method GetModRefInfo(c: Call, l: Location) returns (result: ModRef)
      ensures result == CallLocation(aas, c, l)
    {
      result := BOTH;
      for i := 0 to |aas|
        invariant result == EachCallLocation(aas[..i], c, l)
      {
        assert aas[..i + 1][..i] == aas[..i];
        result := Meet(result, aas[i].callLocation(c, l));
        if result == NONE {
          EachStops(aas, c, c, l, 0, i + 1);
          return;
        }
      }
      assert aas[..|aas|] == aas;
      var b := GetModRefBehavior(c);
      if b == NO_ACCESS || b == ONLY_INACCESSIBLE {
        return NONE;
      }
      if OnlyReads(b) {
        result := Meet(result, REF);
      } else if DoesNotRead(b) {
        result := Meet(result, MOD);
      }
      if OnlyArgs(b) || OnlyInaccessibleOrArgs(b) {
        var doesAlias, allArgsMask := false, NONE;
        if AccessesArgs(b) {
          doesAlias, allArgsMask := ScanArgs(c, l);
        }
        if !doesAlias {
          return NONE;
        }
        result := Meet(result, allArgsMask);
      }
      if result.mod {
        var constant := PointsToConstantMemory(l);
        if constant {
          result := Meet(result, REF);
        }
      }
    }

    /** What the first call may do to memory that the second accesses. */
    method GetModRefInfoOfCalls(c: Call, d: Call) returns (result: ModRef)
      ensures result == CallCall(aas, c, d)
    {
      result := BOTH;
      for i := 0 to |aas|
        invariant result == EachCallCall(aas[..i], c, d)
      {
        assert aas[..i + 1][..i] == aas[..i];
        result := Meet(result, aas[i].callCall(c, d));
        if result == NONE {
          EachStops(aas, c, d, Location(0), 0, i + 1);
          return;
        }
      }
      assert aas[..|aas|] == aas;
      var b1 := GetModRefBehavior(c);
      if b1 == NO_ACCESS {
        return NONE;
      }
      var b2 := GetModRefBehavior(d);
      if b2 == NO_ACCESS {
        return NONE;
      }
      if OnlyReads(b1) && OnlyReads(b2) {
        return NONE;
      }
      if OnlyReads(b1) {
        result := Meet(result, REF);
      } else if DoesNotRead(b1) {
        result := Meet(result, MOD);
      }
      if OnlyArgs(b2) {
        var r := NONE;
        if AccessesArgs(b2) {
          r := ScanTheirArgs(c, d, result);
        }
        return r;
      }
      if OnlyArgs(b1) {
        var r := NONE;
        if AccessesArgs(b1) {
          r := ScanOwnArgs(c, d, result);
        }
        return r;
      }
    }

    /** Stops as soon as the arguments account for all that was left to find. */
    method ScanTheirArgs(c: Call, d: Call, result: ModRef) returns (r: ModRef)
      ensures r == Meet(OnTheirArgs(aas, c, d, |d.args|), result)
    {
      r := NONE;
      for i := 0 to |d.args|
        invariant r == Meet(OnTheirArgs(aas, c, d, i), result)
      {
        if d.args[i].isPointer {
          var argMask := GetArgModRefInfo(d, i);
          if argMask == MOD {
            argMask := BOTH;
          } else if argMask == REF {
            argMask := MOD;
          }
          var info := GetModRefInfo(c, d.args[i].loc);
          r := Meet(Join(r, Meet(argMask, info)), result);
          if r == result {
            OnTheirArgsGrows(aas, c, d, i + 1, |d.args|);
            return;
          }
        }
      }
    }

    method ScanOwnArgs(c: Call, d: Call, result: ModRef) returns (r: ModRef)
      ensures r == Meet(OnOwnArgs(aas, c, d, |c.args|), result)
    {
      r := NONE;
      for i := 0 to |c.args|
        invariant r == Meet(OnOwnArgs(aas, c, d, i), result)
      {
        if c.args[i].isPointer {
          var argMask := GetArgModRefInfo(c, i);
          var argR := GetModRefInfo(d, c.args[i].loc);
          if (argMask.mod && argR != NONE) || (argMask.ref && argR.mod) {
            r := Meet(Join(r, argMask), result);
          }
          if r == result {
            OnOwnArgsGrows(aas, c, d, i + 1, |c.args|);
            return;
          }
        }
      }
    }

    /** Whether an instruction and a call have to do with each other. */
    method GetModRefInfoOfInstruction(inst: Instruction, c: Call, ghost w: World) returns (result: ModRef)
      ensures inst.IsCall? ==> result == CallCall(aas, inst.call, c)
      ensures !inst.IsCall? ==> result == BOTH || result == NONE
      ensures inst.Fence? ==> result == BOTH
      ensures inst.Access? && AllSound(w, aas) && result == NONE ==>
        forall a: int | w.region(inst.loc, a) :: !w.stores(c, a) && !w.loads(c, a)
    {
      match inst {
        case IsCall(call) => result := GetModRefInfoOfCalls(call, c);
        case Fence => result := BOTH;
        case Access(loc) =>
          var info := GetModRefInfo(c, loc);
          result := if info != NONE then BOTH else NONE;
          if AllSound(w, aas) {
            CallLocationRight(w, aas, c, loc);
          }
      }
    }
  }
}
