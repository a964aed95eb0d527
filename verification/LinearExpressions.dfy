/** Decomposing integer expressions into Scale * V + Offset. */
module LinearExpressions {
  import opened Probability
  import opened Powers
  import opened Bits

  /** Expressions over words of a width: arithmetic with a constant on the right, extensions, and
      anything else as a leaf. */
  datatype Op = Add | Sub | Mul | Shl | OrOp
  datatype Expr =
    | Const(value: int, width: nat)
    | Leaf(id: int, width: nat)
    | Bin(op: Op, left: Expr, c: int, nuw: bool, nsw: bool, disjoint: bool)
    | ZExt(inner: Expr, width: nat)
    | SExt(inner: Expr, width: nat)

  type Env = int -> int

  function Width(e: Expr): nat {
    match e
    case Const(_, w) => w
    case Leaf(_, w) => w
    case Bin(_, l, _, _, _, _) => Width(l)
    case ZExt(_, w) => w
    case SExt(_, w) => w
  }

  /** Constants and shift amounts are in range, and extensions extend. */
  predicate WellFormed(e: Expr) {
    match e
    case Const(v, w) => w > 0 && 0 <= v < Pow2(w)
    case Leaf(_, w) => w > 0
    case Bin(op, l, c, _, _, _) => WellFormed(l) && 0 <= c < Pow2(Width(l)) && (op == Shl ==> c < Width(l))
    case ZExt(i, w) => WellFormed(i) && Width(i) < w
    case SExt(i, w) => WellFormed(i) && Width(i) < w
  }

  function Wrap(x: int, w: nat): (r: int)
    ensures 0 <= r < Pow2(w)
  {
    x % Pow2(w)
  }

  /** The exact result of an operation, before it wraps. */
  function Exact(op: Op, x: int, c: int): int
    requires x >= 0 && c >= 0
  {
    match op
    case Add => x + c
    case Sub => x - c
    case Mul => x * c
    case Shl => x * Pow2(c)
    case OrOp => Or(x, c)
  }

  function Eval(e: Expr, env: Env): (r: int)
    requires WellFormed(e)
    ensures 0 <= r < Pow2(Width(e))
  {
    match e
    case Const(v, _) => v
    case Leaf(id, w) => Wrap(env(id), w)
    case Bin(op, l, c, _, _, _) => Wrap(Exact(op, Eval(l, env), c), Width(l))
    case ZExt(i, w) => Pow2Grows(Width(i), w); Eval(i, env)
    case SExt(i, w) => SignedFits(Eval(i, env), Width(i), w); SignedWord(Signed(Eval(i, env), Width(i)), w)
  }

  /** A word as a signed number, and back. */
  function Signed(x: int, w: nat): int { if 2 * x < Pow2(w) then x else x - Pow2(w) }

  function SignedWord(x: int, w: nat): int { if x < 0 then x + Pow2(w) else x }

  predicate InSignedRange(x: int, w: nat) { -Pow2(w) <= 2 * x < Pow2(w) }

  lemma SignedFits(x: int, v: nat, w: nat)
    requires 0 <= x < Pow2(v) && v <= w
    ensures InSignedRange(Signed(x, v), v) && 0 <= SignedWord(Signed(x, v), w) < Pow2(w)
  {
    Pow2Grows(v, w);
  }

  /** The exact result of an operation on signed numbers, where the flag against signed wrap-around matters. */
  function ExactSigned(op: Op, x: int, c: int): int {
    match op
    case Sub => x - c
    case Mul => x * c
    case _ => x + c
  }

  /** What the flags promise holds: operations marked so do not wrap, and masked bits are zero. */
  predicate Keeps(e: Expr, env: Env)
    requires WellFormed(e)
  {
    match e
    case Const(_, _) => true
    case Leaf(_, _) => true
    case Bin(op, l, c, nuw, nsw, disjoint) =>
      && Keeps(l, env)
      && (nuw && op != OrOp ==> 0 <= Exact(op, Eval(l, env), c) < Pow2(Width(l)))
      && (nsw && op != OrOp && op != Shl ==>
        InSignedRange(ExactSigned(op, Signed(Eval(l, env), Width(l)), Signed(c, Width(l))), Width(l)))
      && (op == OrOp && disjoint ==> And(Eval(l, env), c) == 0)
    case ZExt(i, _) => Keeps(i, env)
    case SExt(i, _) => Keeps(i, env)
  }

  /** Equal but for a multiple of 2 to the w. */
  ghost predicate Congruent(a: int, b: int, w: nat) {
    Multiple(a - b, w)
  }

  /** The decomposition of an expression: Scale * value + Offset, to be taken modulo the outermost width;
      zext and sext say how far the value is extended, and nuw and nsw that nothing has wrapped. */
  datatype Linear = Linear(v: Expr, scale: int, offset: int, zext: nat, sext: nat, nuw: bool, nsw: bool)

  /** Shifting within a width drops the high bits; shifting by the whole width or more leaves nothing. */
  function ShiftLeft(x: int, n: nat, w: nat): (r: int)
  {
    if n >= w then 0 else Wrap(x * Pow2(n), w)
  }

  /** What the decomposition means in one environment. */
  ghost predicate Means(r: Linear, e: Expr, env: Env, w: nat)
    requires WellFormed(e) && WellFormed(r.v)
  {
    && Congruent(Eval(e, env), r.scale * Eval(r.v, env) + r.offset, Width(e))
    && (r.nuw ==> Congruent(Eval(e, env), r.scale * Eval(r.v, env) + r.offset, w))
  }

  predicate HasSExt(e: Expr) {
    match e
    case Const(_, _) => false
    case Leaf(_, _) => false
    case Bin(_, l, _, _, _, _) => HasSExt(l)
    case ZExt(i, _) => HasSExt(i)
    case SExt(_, _) => true
  }

  /** The whole expression, undecomposed. */
  function Whole(e: Expr, zext: nat, sext: nat, nuw: bool, nsw: bool): Linear { Linear(e, 1, 0, zext, sext, nuw, nsw) }

  /** How an operation changes a decomposition. */
  function Apply(r: Linear, op: Op, c: int, w: nat): Linear
    requires c >= 0
  {
    match op
    case Add => r.(offset := Wrap(r.offset + c, w))
    case OrOp => r.(offset := Wrap(r.offset + c, w))
    case Sub => r.(offset := Wrap(r.offset - c, w))
    case Mul => r.(offset := Wrap(r.offset * c, w), scale := Wrap(r.scale * c, w))
    case Shl => r.(offset := ShiftLeft(r.offset, c, w), scale := ShiftLeft(r.scale, c, w), nuw := false, nsw := false)
  }

  function Flagged(r: Linear, op: Op, nuw: bool, nsw: bool): Linear {
    if op == OrOp || op == Shl then r else r.(nuw := r.nuw && nuw, nsw := r.nsw && nsw)
  }

  /** A zero extension, or a sign extension of something zero extended: kept if nothing wrapped. */
  function ZeroExtended(r: Linear, castOp: Expr, zext0: nat, sext0: nat, more: nat): Linear {
    var kept := if r.nuw then r else Whole(castOp, zext0, sext0, r.nuw, r.nsw);
    kept.(zext := kept.zext + more)
  }

  /** A sign extension: kept if nothing wrapped, with the offset extended. */
  function SignExtended(r: Linear, castOp: Expr, zext0: nat, sext0: nat, width: nat): Linear
    requires Width(castOp) <= width
  {
    var small := Width(castOp);
    var kept :=
      if r.nsw then r.(offset := SignedWord(Signed(Wrap(r.offset, small), small), width))
      else Whole(castOp, zext0, sext0, r.nuw, r.nsw);
    kept.(sext := kept.sext + (width - small))
  }

  function GetLinearExpression(e: Expr, zext0: nat, sext0: nat, depth: nat, w: nat, nuw0: bool, nsw0: bool): (r: Linear)
    requires WellFormed(e) && Width(e) <= w && depth <= 6
    ensures WellFormed(r.v)
    decreases e
  {
    if depth == 6 then Whole(e, zext0, sext0, nuw0, nsw0)
    else match e
      case Const(value, _) => Linear(e, 0, Wrap(value, w), zext0, sext0, nuw0, nsw0)
      case Leaf(_, _) => Whole(e, zext0, sext0, nuw0, nsw0)
      case Bin(op, left, c, nuw, nsw, disjoint) =>
        if op == OrOp && !disjoint then Whole(e, zext0, sext0, nuw0, nsw0)
        else Flagged(Apply(GetLinearExpression(left, zext0, sext0, depth + 1, w, nuw0, nsw0), op, c, w), op, nuw, nsw)
      case ZExt(castOp, width) =>
        ZeroExtended(GetLinearExpression(castOp, zext0, sext0, depth + 1, w, nuw0, nsw0), castOp, zext0, sext0,
                     width - Width(castOp))
      case SExt(castOp, width) =>
        var r := GetLinearExpression(castOp, zext0, sext0, depth + 1, w, nuw0, nsw0);
        if r.zext == 0 then SignExtended(r, castOp, zext0, sext0, width)
        else ZeroExtended(r, castOp, zext0, sext0, width - Width(castOp))
  }

  lemma OpKeeps(r: Linear, op: Op, c: int, w: nat, nuw: bool, nsw: bool)
    requires c >= 0
    ensures var k := Flagged(Apply(r, op, c, w), op, nuw, nsw);
      k.v == r.v && k.zext == r.zext && k.sext == r.sext && Applied(r, k, op, c, w) &&
      (k.nuw ==> r.nuw && op != Shl && (nuw || op == OrOp)) && (k.nsw ==> r.nsw && op != Shl && (nsw || op == OrOp))
  {
  }

  /** The extensions make up for the difference in width. */
  lemma {:induction false} LinearShape(e: Expr, zext0: nat, sext0: nat, depth: nat, w: nat, nuw0: bool, nsw0: bool)
    requires WellFormed(e) && Width(e) <= w && depth <= 6
    ensures var r := GetLinearExpression(e, zext0, sext0, depth, w, nuw0, nsw0);
      Width(r.v) + r.zext + r.sext == Width(e) + zext0 + sext0 && (!HasSExt(e) ==> r.sext == sext0)
    decreases e
  {
    if depth < 6 && e.Bin? {
      LinearShape(e.left, zext0, sext0, depth + 1, w, nuw0, nsw0);
      OpKeeps(GetLinearExpression(e.left, zext0, sext0, depth + 1, w, nuw0, nsw0), e.op, e.c, w, e.nuw, e.nsw);
    } else if depth < 6 && (e.ZExt? || e.SExt?) {
      LinearShape(e.inner, zext0, sext0, depth + 1, w, nuw0, nsw0);
      ExtendedShape(GetLinearExpression(e.inner, zext0, sext0, depth + 1, w, nuw0, nsw0), e, zext0, sext0);
    }
  }

  lemma ExtendedShape(r: Linear, e: Expr, zext0: nat, sext0: nat)
    requires WellFormed(e) && (e.ZExt? || e.SExt?) && Width(r.v) + r.zext + r.sext == Width(e.inner) + zext0 + sext0
    ensures var k := ZeroExtended(r, e.inner, zext0, sext0, Width(e) - Width(e.inner));
      Width(k.v) + k.zext + k.sext == Width(e) + zext0 + sext0 && (r.sext == sext0 ==> k.sext == sext0)
    ensures var k := SignExtended(r, e.inner, zext0, sext0, Width(e));
      Width(k.v) + k.zext + k.sext == Width(e) + zext0 + sext0
  {
  }

  // ----- how far expressions are decomposed -----

  /** The operations and extensions around the innermost operand. */
  function Steps(e: Expr): nat {
    match e
    case Bin(_, l, _, _, _, _) => 1 + Steps(l)
    case ZExt(i, _) => 1 + Steps(i)
    case SExt(i, _) => 1 + Steps(i)
    case _ => 0
  }

  function Core(e: Expr): Expr {
    match e
    case Bin(_, l, _, _, _, _) => Core(l)
    case ZExt(i, _) => Core(i)
    case SExt(i, _) => Core(i)
    case _ => e
  }

  predicate HasZExt(e: Expr) {
    match e
    case Bin(_, l, _, _, _, _) => HasZExt(l)
    case ZExt(_, _) => true
    case SExt(i, _) => HasZExt(i)
    case _ => false
  }

  /** All operations are marked not to wrap, as signed numbers or as words. */
  predicate NoWrapMarked(e: Expr, signed: bool) {
    match e
    case Bin(op, l, _, nuw, nsw, _) =>
      op != Shl && (op == OrOp || if signed then nsw else nuw) && NoWrapMarked(l, signed)
    case ZExt(i, _) => NoWrapMarked(i, signed)
    case SExt(i, _) => NoWrapMarked(i, signed)
    case _ => true
  }

  /** Nothing stands in the way: a disjunction only adds, and what is extended does not wrap. */
  predicate Transparent(e: Expr) {
    match e
    case Bin(op, l, _, _, _, disjoint) => (op == OrOp ==> disjoint) && Transparent(l)
    case ZExt(i, _) => NoWrapMarked(i, false) && Transparent(i)
    case SExt(i, _) => NoWrapMarked(i, !HasZExt(i)) && Transparent(i)
    case _ => true
  }

  lemma {:induction false} CoreIsLess(e: Expr)
    ensures Steps(Core(e)) == 0 && (Steps(e) == 0 ==> Core(e) == e)
    ensures Steps(e) == 0 ==> NoWrapMarked(e, true) && NoWrapMarked(e, false)
    decreases e
  {
    match e
    case Bin(_, l, _, _, _, _) => CoreIsLess(l);
    case ZExt(i, _) => CoreIsLess(i);
    case SExt(i, _) => CoreIsLess(i);
    case _ =>
  }

  /** How far a decomposition got. */
  predicate GotTo(r: Linear, e: Expr) {
    && (r.v == Core(e) <==> Transparent(e))
    && (Transparent(e) ==>
         (r.nuw <==> NoWrapMarked(e, false)) && (r.nsw <==> NoWrapMarked(e, true)) && (r.zext > 0 <==> HasZExt(e)))
  }

  /** Within six steps, an expression is decomposed down to its innermost operand just if nothing stands in the way. */
  lemma {:induction false} LinearReaches(e: Expr, depth: nat, w: nat)
    requires WellFormed(e) && Width(e) <= w && depth + Steps(e) <= 6
    ensures GotTo(GetLinearExpression(e, 0, 0, depth, w, true, true), e)
    decreases e
  {
    CoreIsLess(e);
    if depth < 6 && e.Bin? {
      LinearReaches(e.left, depth + 1, w);
    } else if depth < 6 && (e.ZExt? || e.SExt?) {
      LinearReaches(e.inner, depth + 1, w);
      ExtensionReaches(GetLinearExpression(e.inner, 0, 0, depth + 1, w, true, true), e);
    }
  }

  lemma ExtensionReaches(r: Linear, e: Expr)
    requires WellFormed(e) && (e.ZExt? || e.SExt?) && GotTo(r, e.inner)
    ensures var more := Width(e) - Width(e.inner);
      GotTo(if e.SExt? && r.zext == 0 then SignExtended(r, e.inner, 0, 0, Width(e))
            else ZeroExtended(r, e.inner, 0, 0, more), e)
  {
    CoreIsLess(e.inner);
    WrapsIsMore(e.inner, true);
    WrapsIsMore(e.inner, false);
  }

  lemma WrapsIsMore(e: Expr, signed: bool)
    ensures !NoWrapMarked(e, signed) ==> Core(e) != e
  {
    CoreIsLess(e);
  }

  /** Without sign extensions, Scale * V + Offset is the expression, modulo its width, and modulo the outermost width
      if nothing beneath has wrapped. */
  lemma {:induction false} LinearMeans(e: Expr, zext0: nat, sext0: nat, depth: nat, w: nat, nuw0: bool, nsw0: bool,
                                       env: Env)
    requires WellFormed(e) && Width(e) <= w && depth <= 6 && !HasSExt(e) && Keeps(e, env)
    ensures Means(GetLinearExpression(e, zext0, sext0, depth, w, nuw0, nsw0), e, env, w)
    decreases e
  {
    if depth == 6 || e.Leaf? || (e.Bin? && e.op == OrOp && !e.disjoint) {
      WholeMeans(e, zext0, sext0, nuw0, nsw0, w, env);
    } else if e.Const? {
      ConstMeans(e, GetLinearExpression(e, zext0, sext0, depth, w, nuw0, nsw0), w, env);
    } else if e.Bin? {
      LinearMeans(e.left, zext0, sext0, depth + 1, w, nuw0, nsw0, env);
      var inner := GetLinearExpression(e.left, zext0, sext0, depth + 1, w, nuw0, nsw0);
      OpKeeps(inner, e.op, e.c, w, e.nuw, e.nsw);
      BinMeans(inner, Flagged(Apply(inner, e.op, e.c, w), e.op, e.nuw, e.nsw), e, env, w);
    } else {
      LinearMeans(e.inner, zext0, sext0, depth + 1, w, nuw0, nsw0, env);
      var inner := GetLinearExpression(e.inner, zext0, sext0, depth + 1, w, nuw0, nsw0);
      ZeroExtendedMeans(inner, e, zext0, sext0, env, w);
    }
  }

  lemma ZeroExtendedMeans(inner: Linear, e: Expr, zext0: nat, sext0: nat, env: Env, w: nat)
    requires WellFormed(e) && e.ZExt? && WellFormed(inner.v) && Width(e) <= w && Means(inner, e.inner, env, w)
    ensures Means(ZeroExtended(inner, e.inner, zext0, sext0, e.width - Width(e.inner)), e, env, w)
  {
    MultipleZero(w);
    ExtendedMeans(ZeroExtended(inner, e.inner, zext0, sext0, e.width - Width(e.inner)), e.inner, e, env, w);
  }

  // ----- sign extension -----

  /** The exact signed value of an expression, in terms of the value it is decomposed into. */
  datatype Line = Line(scale: int, offset: int)

  function ExactLine(e: Expr, depth: nat): Line
    requires WellFormed(e) && depth <= 6
  {
    if depth == 6 then Line(1, 0)
    else match e
      case Const(value, w) => Line(0, Signed(value, w))
      case Bin(op, left, c, _, _, disjoint) =>
        if op == Shl || (op == OrOp && !disjoint) then Line(1, 0)
        else NextLine(ExactLine(left, depth + 1), op, Signed(c, Width(left)))
      case _ => Line(1, 0)
  }

  function NextLine(l: Line, op: Op, k: int): Line {
    if op == Mul then Line(l.scale * k, l.offset * k)
    else Line(l.scale, if op == Sub then l.offset - k else l.offset + k)
  }

  /** As long as nothing wraps as signed numbers, the exact values obey the line. */
  lemma {:induction false} SignedMeans(e: Expr, depth: nat, w: nat, nuw0: bool, nsw0: bool, env: Env)
    requires WellFormed(e) && Width(e) <= w && depth <= 6 && !HasSExt(e) && Keeps(e, env)
    requires var r := GetLinearExpression(e, 0, 0, depth, w, nuw0, nsw0); r.nsw && r.zext == 0
    ensures var r, l := GetLinearExpression(e, 0, 0, depth, w, nuw0, nsw0), ExactLine(e, depth);
      Signed(Eval(e, env), Width(e)) == l.scale * Signed(Eval(r.v, env), Width(r.v)) + l.offset
    decreases e
  {
    if depth < 6 && e.Bin? && !(e.op == OrOp && !e.disjoint) {
      var inner := GetLinearExpression(e.left, 0, 0, depth + 1, w, nuw0, nsw0);
      OpKeeps(inner, e.op, e.c, w, e.nuw, e.nsw);
      SignedMeans(e.left, depth + 1, w, nuw0, nsw0, env);
      SignedStep(e, ExactLine(e.left, depth + 1), Signed(Eval(inner.v, env), Width(inner.v)), env);
    }
  }

  lemma SignedStep(e: Expr, l: Line, v: int, env: Env)
    requires WellFormed(e) && e.Bin? && Keeps(e, env) && e.op != Shl && if e.op == OrOp then e.disjoint else e.nsw
    requires Signed(Eval(e.left, env), Width(e.left)) == l.scale * v + l.offset
    ensures var k := NextLine(l, e.op, Signed(e.c, Width(e.left)));
      Signed(Eval(e, env), Width(e)) == k.scale * v + k.offset
  {
    WidthPositive(e);
    OpSigned(e.op, Eval(e.left, env), e.c, Width(e.left));
    Rearrange(l.scale, v, l.offset, Signed(e.c, Width(e.left)));
  }

  lemma {:induction false} WidthPositive(e: Expr)
    requires WellFormed(e)
    ensures Width(e) > 0
    decreases e
  {
    if e.Bin? { WidthPositive(e.left); }
  }

  /** An operation on words is that on signed numbers, if the result is in range. */
  lemma OpSigned(op: Op, x: int, c: int, w: nat)
    requires 0 <= x < Pow2(w) && 0 <= c < Pow2(w) && op != Shl && w > 0
    requires if op == OrOp then And(x, c) == 0 else InSignedRange(ExactSigned(op, Signed(x, w), Signed(c, w)), w)
    ensures Signed(Wrap(Exact(op, x, c), w), w) == ExactSigned(op, Signed(x, w), Signed(c, w))
  {
    var y, exact := ExactSigned(op, Signed(x, w), Signed(c, w)), Exact(op, x, c);
    if op == OrOp { DisjointSigned(x, c, w); }
    OpCongruent(op, x, c, w);
    WrapCongruent(exact, w, w);
    CongruentChain(Wrap(exact, w), exact, y, w);
    SignedIs(Wrap(exact, w), y, w);
  }

  lemma OpCongruent(op: Op, x: int, c: int, w: nat)
    requires 0 <= x && 0 <= c && op != Shl && (op == OrOp ==> Or(x, c) == x + c)
    ensures Congruent(Exact(op, x, c), ExactSigned(op, Signed(x, w), Signed(c, w)), w)
  {
    if op == Mul {
      ProductSigned(x, c, w);
    } else {
      SumCongruent(x, c, w);
    }
  }

  lemma ProductSigned(x: int, c: int, w: nat)
    ensures Congruent(x * c, Signed(x, w) * Signed(c, w), w)
  {
    SignedCongruent(x, w);
    SignedCongruent(c, w);
    ProductCongruent(x, Signed(x, w), c, Signed(c, w), w);
  }

  lemma ProductCongruent(x: int, y: int, c: int, d: int, w: nat)
    requires Congruent(x, y, w) && Congruent(c, d, w)
    ensures Congruent(x * c, y * d, w)
  {
    CongruentTimes(x, y, c, w);
    CongruentTimes(c, d, y, w);
    assert c * y == y * c && d * y == y * d;
    CongruentChain(x * c, y * c, y * d, w);
  }

  lemma SumCongruent(x: int, c: int, w: nat)
    ensures Congruent(x + c, Signed(x, w) + Signed(c, w), w) && Congruent(x - c, Signed(x, w) - Signed(c, w), w)
  {
    SignedCongruent(x, w);
    SignedCongruent(c, w);
    MultipleSum(x - Signed(x, w), c - Signed(c, w), w);
    assert (x + c) - (Signed(x, w) + Signed(c, w)) == (x - Signed(x, w)) + (c - Signed(c, w));
    assert (x - c) - (Signed(x, w) - Signed(c, w)) == (x - Signed(x, w)) - (c - Signed(c, w));
  }

  lemma SignedCongruent(x: int, w: nat)
    ensures Congruent(x, Signed(x, w), w)
  {
    MultipleZero(w);
    PowerMultiple(w, w);
  }

  /** A signed number in range is determined by its word. */
  lemma SignedIs(x: int, y: int, w: nat)
    requires 0 <= x < Pow2(w) && InSignedRange(y, w) && Congruent(x, y, w)
    ensures Signed(x, w) == y
  {
    SignedCongruent(x, w);
    MultipleSum(x - y, x - Signed(x, w), w);
    var d := Signed(x, w) - y;
    if d > 0 {
      SmallestMultiple(d, w);
    } else if d < 0 {
      MultipleSum(0, d, w) by { MultipleZero(w); }
      SmallestMultiple(-d, w);
    }
  }

  /** Numbers without common bits are not both negative, and adding them never wraps. */
  lemma DisjointSigned(x: int, c: int, w: nat)
    requires 0 <= x < Pow2(w) && 0 <= c < Pow2(w) && And(x, c) == 0 && w > 0
    ensures Or(x, c) == x + c && InSignedRange(Signed(x, w) + Signed(c, w), w)
  {
    OrAdds(x, c);
    OrBound(x, c, w);
    var half := Pow2(w - 1);
    assert Pow2(w) == 2 * half;
    if x < half && c < half {
      OrBound(x, c, w - 1);
    }
  }

  /** What the decomposition stands for: the value, sign extended and then zero extended. */
  function Extended(r: Linear, env: Env): int
    requires WellFormed(r.v)
  {
    if r.sext == 0 then Eval(r.v, env)
    else SignedWord(Signed(Eval(r.v, env), Width(r.v)), Width(r.v) + r.sext)
  }

  ghost predicate RightAt(r: Linear, e: Expr, env: Env)
    requires WellFormed(e) && WellFormed(r.v)
  {
    OnLine(Eval(e, env), r, Extended(r, env), Width(e))
  }

  ghost predicate OnLine(x: int, r: Linear, v: int, n: nat) { Congruent(x, r.scale * v + r.offset, n) }

  /** The sign extension of something decomposed through a zero extension is taken to be a zero extension: that is
      right exactly if the operand is not negative. */
  lemma SextThroughZext(e: Expr, depth: nat, w: nat, nuw0: bool, nsw0: bool, env: Env)
    requires WellFormed(e) && e.SExt? && !HasSExt(e.inner) && Width(e) <= w && depth < 6 && Keeps(e, env)
    requires GetLinearExpression(e.inner, 0, 0, depth + 1, w, nuw0, nsw0).zext > 0
    ensures RightAt(GetLinearExpression(e, 0, 0, depth, w, nuw0, nsw0), e, env) <==>
      2 * Eval(e.inner, env) < Pow2(Width(e.inner))
  {
    LinearShape(e.inner, 0, 0, depth + 1, w, nuw0, nsw0);
    LinearMeans(e.inner, 0, 0, depth + 1, w, nuw0, nsw0, env);
    SextOfZext(GetLinearExpression(e.inner, 0, 0, depth + 1, w, nuw0, nsw0),
               GetLinearExpression(e, 0, 0, depth, w, nuw0, nsw0), e, env, w);
  }

  /** If something beneath may have wrapped as a signed number, the operand is left as it is, and that is right. */
  lemma SextDropped(e: Expr, depth: nat, w: nat, nuw0: bool, nsw0: bool, env: Env)
    requires WellFormed(e) && e.SExt? && Width(e) <= w && depth < 6
    requires var inner := GetLinearExpression(e.inner, 0, 0, depth + 1, w, nuw0, nsw0); inner.zext == 0 && !inner.nsw
    ensures RightAt(GetLinearExpression(e, 0, 0, depth, w, nuw0, nsw0), e, env)
  {
    MultipleZero(Width(e));
  }

  /** Otherwise the operand's decomposition is kept. That is right exactly if its scale and its extended offset come to
      what the exact line says. */
  lemma SextKept(e: Expr, depth: nat, w: nat, nuw0: bool, nsw0: bool, env: Env)
    requires WellFormed(e) && e.SExt? && !HasSExt(e.inner) && Width(e) <= w && depth < 6 && Keeps(e, env)
    requires var inner := GetLinearExpression(e.inner, 0, 0, depth + 1, w, nuw0, nsw0); inner.zext == 0 && inner.nsw
    ensures var r, l := GetLinearExpression(e, 0, 0, depth, w, nuw0, nsw0), ExactLine(e.inner, depth + 1);
      RightAt(r, e, env) <==> Agree(r, l, Signed(Eval(r.v, env), Width(r.v)), Width(e))
  {
    LinearShape(e.inner, 0, 0, depth + 1, w, nuw0, nsw0);
    SignedMeans(e.inner, depth + 1, w, nuw0, nsw0, env);
    SextOfLine(e, GetLinearExpression(e, 0, 0, depth, w, nuw0, nsw0), ExactLine(e.inner, depth + 1), env);
  }

  /** Two lines have the same value at v, modulo the width. */
  ghost predicate Agree(r: Linear, l: Line, v: int, n: nat) {
    Multiple((r.scale - l.scale) * v + (r.offset - l.offset), n)
  }

  lemma SextOfZext(inner: Linear, r: Linear, e: Expr, env: Env, w: nat)
    requires WellFormed(e) && e.SExt? && Width(e) <= w && WellFormed(inner.v) && inner.sext == 0 &&
      Means(inner, e.inner, env, w)
    requires r == ZeroExtended(inner, e.inner, 0, 0, e.width - Width(e.inner))
    ensures RightAt(r, e, env) <==> 2 * Eval(e.inner, env) < Pow2(Width(e.inner))
  {
    if inner.nuw {
      SextOfKept(inner, e, env, w);
    } else {
      MultipleZero(Width(e));
      SextAsZext(Eval(e.inner, env), Width(e.inner), Width(e), Eval(e.inner, env));
    }
  }

  lemma SextOfKept(inner: Linear, e: Expr, env: Env, w: nat)
    requires WellFormed(e) && e.SExt? && Width(e) <= w && WellFormed(inner.v) && Means(inner, e.inner, env, w) &&
      inner.nuw
    ensures OnLine(Eval(e, env), inner, Eval(inner.v, env), Width(e)) <==> 2 * Eval(e.inner, env) < Pow2(Width(e.inner))
  {
    var y := inner.scale * Eval(inner.v, env) + inner.offset;
    MultipleOfLess(Eval(e.inner, env) - y, w, Width(e));
    SextAsZext(Eval(e.inner, env), Width(e.inner), Width(e), y);
  }

  lemma SextAsZext(x: int, small: nat, n: nat, y: int)
    requires 0 <= x < Pow2(small) && small < n && Congruent(x, y, n)
    ensures Congruent(SignedWord(Signed(x, small), n), y, n) <==> 2 * x < Pow2(small)
  {
    var z := SignedWord(Signed(x, small), n);
    Pow2Grows(small, n - 1);
    if Congruent(z, y, n) {
      MultipleSum(z - y, x - y, n);
      if z - x > 0 { SmallestMultiple(z - x, n); }
    }
  }

  /** Both sides differ from the exact value by a multiple of the width. */
  lemma SextOfLine(e: Expr, r: Linear, l: Line, env: Env)
    requires WellFormed(e) && e.SExt? && WellFormed(r.v) && Width(r.v) == Width(e.inner) &&
      r.sext == Width(e) - Width(e.inner)
    requires Signed(Eval(e.inner, env), Width(e.inner)) == l.scale * Signed(Eval(r.v, env), Width(r.v)) + l.offset
    ensures RightAt(r, e, env) <==> Agree(r, l, Signed(Eval(r.v, env), Width(r.v)), Width(e))
  {
    ExtendedCongruent(e, r, env);
    LinesDiffer(r, l, Signed(Eval(r.v, env), Width(r.v)), Extended(r, env), Eval(e, env), Width(e));
  }

  lemma ExtendedCongruent(e: Expr, r: Linear, env: Env)
    requires WellFormed(e) && e.SExt? && WellFormed(r.v) && Width(r.v) == Width(e.inner) &&
      r.sext == Width(e) - Width(e.inner)
    ensures Congruent(Extended(r, env), Signed(Eval(r.v, env), Width(r.v)), Width(e))
    ensures Congruent(Eval(e, env), Signed(Eval(e.inner, env), Width(e.inner)), Width(e))
  {
    WordCongruent(Signed(Eval(r.v, env), Width(r.v)), Width(e));
    WordCongruent(Signed(Eval(e.inner, env), Width(e.inner)), Width(e));
  }

  lemma LinesDiffer(r: Linear, l: Line, v: int, v': int, x': int, n: nat)
    requires Congruent(v', v, n) && Congruent(x', l.scale * v + l.offset, n)
    ensures OnLine(x', r, v', n) <==> Agree(r, l, v, n)
  {
    MultipleTimes(v' - v, r.scale, n);
    var a, b := x' - (l.scale * v + l.offset), (v' - v) * r.scale;
    var claim, cond := x' - (r.scale * v' + r.offset), (r.scale - l.scale) * v + (r.offset - l.offset);
    Products(r.scale, l.scale, v', v);
    assert claim + cond == a - b;
    MultipleSum(a, b, n);
    if Multiple(claim, n) { MultipleSum(a - b, claim, n); }
    if Multiple(cond, n) { MultipleSum(a - b, cond, n); }
  }

  lemma Products(r: int, l: int, x: int, v: int)
    ensures (r - l) * v == r * v - l * v && (x - v) * r == r * x - r * v
  {
  }

  lemma WordCongruent(x: int, n: nat)
    ensures Congruent(SignedWord(x, n), x, n)
  {
    MultipleZero(n);
    PowerMultiple(n, n);
  }

  // ----- sums -----

  /** Only constants are added, subtracted, or or-ed. */
  predicate IsSum(e: Expr) {
    e.Bin? ==> e.op != Mul && e.op != Shl && IsSum(e.left)
  }

  /** The decomposition of a sum has the scale of the exact line, and its offset up to wrap-around. */
  lemma {:induction false} SumLine(e: Expr, depth: nat, w: nat, nuw0: bool, nsw0: bool)
    requires WellFormed(e) && Width(e) <= w && depth <= 6 && IsSum(e)
    requires GetLinearExpression(e, 0, 0, depth, w, nuw0, nsw0).zext == 0 && !HasSExt(e)
    ensures var r, l := GetLinearExpression(e, 0, 0, depth, w, nuw0, nsw0), ExactLine(e, depth);
      r.scale == l.scale && Congruent(r.offset, l.offset, Width(e))
    decreases e
  {
    MultipleZero(Width(e));
    if depth < 6 && e.Const? {
      WrapCongruent(e.value, w, Width(e));
      SignedCongruent(e.value, Width(e));
      CongruentChain(Wrap(e.value, w), e.value, Signed(e.value, Width(e)), Width(e));
    } else if depth < 6 && e.Bin? && !(e.op == OrOp && !e.disjoint) {
      SumLine(e.left, depth + 1, w, nuw0, nsw0);
      SumBin(e, GetLinearExpression(e.left, 0, 0, depth + 1, w, nuw0, nsw0), ExactLine(e.left, depth + 1), w);
    }
  }

  lemma SumBin(e: Expr, r: Linear, l: Line, w: nat)
    requires WellFormed(e) && e.Bin? && IsSum(e) && Width(e) <= w && r.scale == l.scale &&
      Congruent(r.offset, l.offset, Width(e))
    ensures var k, m := Flagged(Apply(r, e.op, e.c, w), e.op, e.nuw, e.nsw),
      NextLine(l, e.op, Signed(e.c, Width(e.left)));
      k.scale == m.scale && Congruent(k.offset, m.offset, Width(e))
  {
    SumStep(r.offset, l.offset, e.c, w, Width(e));
  }

  lemma SumStep(o: int, l: int, c: int, w: nat, k: nat)
    requires k <= w && Congruent(o, l, k)
    ensures Congruent(Wrap(o + c, w), l + Signed(c, k), k) && Congruent(Wrap(o - c, w), l - Signed(c, k), k)
  {
    SignedCongruent(c, k);
    MultipleSum(o - l, c - Signed(c, k), k);
    WrapCongruent(o + c, w, k);
    WrapCongruent(o - c, w, k);
    assert (o + c) - (l + Signed(c, k)) == (o - l) + (c - Signed(c, k));
    assert (o - c) - (l - Signed(c, k)) == (o - l) - (c - Signed(c, k));
    CongruentChain(Wrap(o + c, w), o + c, l + Signed(c, k), k);
    CongruentChain(Wrap(o - c, w), o - c, l - Signed(c, k), k);
  }

  /** Half of k times p bounds o. */
  predicate Bounded(o: int, k: nat, p: int) { -(k * p) <= 2 * o <= k * p }

  /** At most six constants are added. */
  lemma {:induction false} LineBound(e: Expr, depth: nat)
    requires WellFormed(e) && depth <= 6 && IsSum(e)
    ensures Bounded(ExactLine(e, depth).offset, 7 - depth, Pow2(Width(e)))
    decreases e
  {
    BoundOne(0, 7 - depth, Pow2(Width(e)));
    if depth < 6 && e.Const? {
      BoundOne(Signed(e.value, e.width), 7, Pow2(e.width));
      BoundOne(Signed(e.value, e.width), 7 - depth, Pow2(e.width));
    } else if depth < 6 && e.Bin? && !(e.op == OrOp && !e.disjoint) {
      LineBound(e.left, depth + 1);
      BoundMore(ExactLine(e.left, depth + 1).offset, Signed(e.c, Width(e.left)), 6 - depth, Pow2(Width(e)));
    }
  }

  lemma BoundOne(o: int, k: nat, p: int)
    requires -p <= 2 * o <= p && k >= 1
    ensures Bounded(o, k, p)
  {
    MulLe(1, k, p);
  }

  lemma BoundMore(o: int, x: int, k: nat, p: int)
    requires Bounded(o, k, p) && -p <= 2 * x <= p
    ensures Bounded(o + x, k + 1, p) && Bounded(o - x, k + 1, p)
  {
    Distribute(k, 1, 1, p);
  }

  /** The sign extension of a sum is decomposed right exactly if the constants add up within the signed range of the
      narrow width, as soon as the wide one has two bits more. */
  lemma SextOfSum(e: Expr, depth: nat, w: nat, nuw0: bool, nsw0: bool, env: Env)
    requires WellFormed(e) && e.SExt? && !HasSExt(e.inner) && Width(e) <= w && depth < 6 && Keeps(e, env)
    requires IsSum(e.inner) && Width(e) >= Width(e.inner) + 2
    requires var inner := GetLinearExpression(e.inner, 0, 0, depth + 1, w, nuw0, nsw0); inner.zext == 0 && inner.nsw
    ensures RightAt(GetLinearExpression(e, 0, 0, depth, w, nuw0, nsw0), e, env) <==>
      InSignedRange(ExactLine(e.inner, depth + 1).offset, Width(e.inner))
  {
    var inner, l := GetLinearExpression(e.inner, 0, 0, depth + 1, w, nuw0, nsw0), ExactLine(e.inner, depth + 1);
    var r := GetLinearExpression(e, 0, 0, depth, w, nuw0, nsw0);
    SextKept(e, depth, w, nuw0, nsw0, env);
    SumFacts(e, depth, w, nuw0, nsw0);
    OffsetInRange(inner.offset, l.offset, Width(e.inner), Width(e));
    SameScale(r, l, Signed(Eval(r.v, env), Width(r.v)), Width(e));
  }

  lemma SumFacts(e: Expr, depth: nat, w: nat, nuw0: bool, nsw0: bool)
    requires WellFormed(e) && e.SExt? && !HasSExt(e.inner) && Width(e) <= w && depth < 6 && IsSum(e.inner)
    requires var inner := GetLinearExpression(e.inner, 0, 0, depth + 1, w, nuw0, nsw0); inner.zext == 0 && inner.nsw
    ensures var inner, l, small := GetLinearExpression(e.inner, 0, 0, depth + 1, w, nuw0, nsw0),
      ExactLine(e.inner, depth + 1), Width(e.inner);
      var r := GetLinearExpression(e, 0, 0, depth, w, nuw0, nsw0);
      r.scale == l.scale && r.offset == SignedWord(Signed(Wrap(inner.offset, small), small), Width(e)) &&
      Congruent(inner.offset, l.offset, small) && -6 * Pow2(small) <= 2 * l.offset <= 6 * Pow2(small)
  {
    SumLine(e.inner, depth + 1, w, nuw0, nsw0);
    LineBound(e.inner, depth + 1);
    MulLe(7 - (depth + 1), 6, Pow2(Width(e.inner)));
  }

  lemma SameScale(r: Linear, l: Line, v: int, n: nat)
    requires r.scale == l.scale
    ensures Agree(r, l, v, n) <==> Multiple(r.offset - l.offset, n)
  {
    assert (r.scale - l.scale) * v == 0;
  }

  lemma OffsetInRange(o: int, l: int, small: nat, n: nat)
    requires Congruent(o, l, small) && n >= small + 2 && -6 * Pow2(small) <= 2 * l <= 6 * Pow2(small)
    ensures Multiple(SignedWord(Signed(Wrap(o, small), small), n) - l, n) <==> InSignedRange(l, small)
  {
    var s := Signed(Wrap(o, small), small);
    WrapCongruent(o, small, small);
    CongruentChain(Wrap(o, small), o, l, small);
    WordCongruent(s, n);
    MultipleZero(n);
    if InSignedRange(l, small) {
      SignedIs(Wrap(o, small), l, small);
    } else {
      SignedFits(Wrap(o, small), small, small);
      Pow2Grows(small + 2, n);
      assert Pow2(small + 2) == 4 * Pow2(small) by { assert Pow2(small + 1) == 2 * Pow2(small); }
      if Multiple(SignedWord(s, n) - l, n) {
        MultipleSum(SignedWord(s, n) - l, SignedWord(s, n) - s, n);
        NotMultiple(s - l, n);
      }
    }
  }

  lemma NotMultiple(d: int, n: nat)
    requires d != 0 && -Pow2(n) < d < Pow2(n)
    ensures !Multiple(d, n)
  {
    if Multiple(d, n) {
      if d > 0 {
        SmallestMultiple(d, n);
      } else {
        MultipleSum(0, d, n) by { MultipleZero(n); }
        SmallestMultiple(-d, n);
      }
    }
  }

  // ----- products -----

  /** A variable times constants, marked not to wrap as signed numbers. */
  predicate IsProduct(e: Expr) {
    e.Leaf? || (e.Bin? && e.op == Mul && e.nsw && !e.nuw && IsProduct(e.left))
  }

  function Factors(e: Expr): nat {
    if e.Bin? then 1 + Factors(e.left) else 0
  }

  function Variable(e: Expr): Expr
    requires IsProduct(e)
    ensures Variable(e).Leaf? && (WellFormed(e) ==> WellFormed(Variable(e)) && Width(Variable(e)) == Width(e))
  {
    if e.Leaf? then e else Variable(e.left)
  }

  /** The constants, multiplied as they are and as signed numbers. */
  function WordProduct(e: Expr): int
    requires IsProduct(e)
  {
    if e.Leaf? then 1 else WordProduct(e.left) * e.c
  }

  function SignedProduct(e: Expr): int
    requires IsProduct(e)
  {
    if e.Leaf? then 1 else SignedProduct(e.left) * Signed(e.c, Width(e.left))
  }

  /** With the value v, no multiplication wraps. */
  predicate FitsAt(e: Expr, v: int)
    requires IsProduct(e)
  {
    InSignedRange(SignedProduct(e) * v, Width(e)) && (e.Bin? ==> FitsAt(e.left, v))
  }

  /** The decomposition of a product. */
  lemma {:induction false} ProductLine(e: Expr, depth: nat, w: nat, nuw0: bool)
    requires WellFormed(e) && Width(e) <= w && IsProduct(e) && depth + Factors(e) <= 6
    ensures var r, l := GetLinearExpression(e, 0, 0, depth, w, nuw0, true), ExactLine(e, depth);
      r.v == Variable(e) && r.zext == 0 && r.sext == 0 && r.nsw && r.offset == 0 &&
      Congruent(r.scale, WordProduct(e), w) && l == Line(SignedProduct(e), 0) && !HasSExt(e)
    decreases e
  {
    MultipleZero(w);
    if e.Bin? {
      ProductLine(e.left, depth + 1, w, nuw0);
      var inner := GetLinearExpression(e.left, 0, 0, depth + 1, w, nuw0, true);
      OpKeeps(inner, e.op, e.c, w, e.nuw, e.nsw);
      NextFactor(inner, WordProduct(e.left), e.c, w);
    }
  }

  lemma NextFactor(r: Linear, p: int, c: int, w: nat)
    requires Congruent(r.scale, p, w) && r.offset == 0 && c >= 0
    ensures var k := Apply(r, Mul, c, w); Congruent(k.scale, p * c, w) && k.offset == 0
  {
    CongruentTimes(r.scale, p, c, w);
    WrapCongruent(r.scale * c, w, w);
    CongruentChain(Wrap(r.scale * c, w), r.scale * c, p * c, w);
    NoWrap(0, w);
    assert 0 * c == 0;
  }

  /** What the flags promise depends on the variable alone. */
  lemma {:induction false} ProductKeeps(e: Expr, env: Env)
    requires WellFormed(e) && IsProduct(e)
    ensures var v := Signed(Eval(Variable(e), env), Width(e));
      (Keeps(e, env) <==> FitsAt(e, v)) && (Keeps(e, env) ==> Signed(Eval(e, env), Width(e)) == SignedProduct(e) * v)
    decreases e
  {
    var v := Signed(Eval(Variable(e), env), Width(e));
    if e.Leaf? {
      SignedFits(Eval(e, env), Width(e), Width(e));
    } else {
      ProductKeeps(e.left, env);
      var k := Signed(e.c, Width(e.left));
      assert (SignedProduct(e.left) * v) * k == SignedProduct(e) * v by { Reassociate(SignedProduct(e.left), v, k); }
      if Keeps(e, env) {
        WidthPositive(e);
        OpSigned(Mul, Eval(e.left, env), e.c, Width(e.left));
      }
    }
  }

  lemma Reassociate(a: int, b: int, c: int)
    ensures (a * b) * c == (a * c) * b
  {
  }

  /** If any value but zero can be multiplied without wrapping, one or minus one can. */
  lemma {:induction false} UnitFits(e: Expr, v: int, u: int)
    requires IsProduct(e) && FitsAt(e, v) && v != 0 && u == (if v > 0 then 1 else -1)
    ensures FitsAt(e, u)
    decreases e
  {
    Nearer(SignedProduct(e), v, u, Width(e));
    if e.Bin? { UnitFits(e.left, v, u); }
  }

  lemma Nearer(p: int, v: int, u: int, w: nat)
    requires InSignedRange(p * v, w) && v != 0 && u == (if v > 0 then 1 else -1)
    ensures InSignedRange(p * u, w)
  {
    if p >= 0 && v > 0 {
      MulLe(1, v, p);
    } else if p >= 0 {
      MulLe(v, -1, p);
    } else if v > 0 {
      MulLe(1, v, -p);
      assert v * (-p) == -(p * v);
    } else {
      MulLe(v, -1, -p);
      assert v * (-p) == -(p * v);
    }
  }

  /** The sign extension of a product is decomposed right, in every environment that keeps the flags, exactly if the
      constants have the same product as words and as signed numbers, modulo the wide width; or if nothing but zero can
      be multiplied without wrapping. */
  lemma SextOfProduct(e: Expr, depth: nat, w: nat, nuw0: bool)
    requires WellFormed(e) && e.SExt? && IsProduct(e.inner) && Width(e) <= w && depth + 1 + Factors(e.inner) <= 6
    ensures AlwaysRight(e, depth, w, nuw0) <==>
      (FitsAt(e.inner, 1) || FitsAt(e.inner, -1) ==> Congruent(WordProduct(e.inner), SignedProduct(e.inner), Width(e)))
  {
    if FitsAt(e.inner, 1) || FitsAt(e.inner, -1) ==> Congruent(WordProduct(e.inner), SignedProduct(e.inner), Width(e)) {
      forall env: Env | Keeps(e, env)
        ensures RightAt(GetLinearExpression(e, 0, 0, depth, w, nuw0, true), e, env)
      {
        ProductAt(e, depth, w, nuw0, env);
        RightProduct(e, env);
      }
    } else {
      UnitWitness(e, depth, w, nuw0, if FitsAt(e.inner, 1) then 1 else -1);
    }
  }

  /** The decomposition is right in every environment that keeps the flags. */
  ghost predicate AlwaysRight(e: Expr, depth: nat, w: nat, nuw0: bool)
    requires WellFormed(e) && Width(e) <= w && depth <= 6
  {
    forall env: Env :: Keeps(e, env) ==> RightAt(GetLinearExpression(e, 0, 0, depth, w, nuw0, true), e, env)
  }

  lemma ProductAt(e: Expr, depth: nat, w: nat, nuw0: bool, env: Env)
    requires WellFormed(e) && e.SExt? && IsProduct(e.inner) && Width(e) <= w && depth + 1 + Factors(e.inner) <= 6
    requires Keeps(e, env)
    ensures RightAt(GetLinearExpression(e, 0, 0, depth, w, nuw0, true), e, env) <==>
      Multiple((WordProduct(e.inner) - SignedProduct(e.inner)) * Signed(Eval(Variable(e.inner), env), Width(e.inner)),
               Width(e))
  {
    SextProductLine(e, depth, w, nuw0);
    SextKept(e, depth, w, nuw0, true, env);
    var r := GetLinearExpression(e, 0, 0, depth, w, nuw0, true);
    ScaleOnly(r, ExactLine(e.inner, depth + 1), WordProduct(e.inner), Signed(Eval(r.v, env), Width(r.v)), Width(e));
  }

  lemma SextProductLine(e: Expr, depth: nat, w: nat, nuw0: bool)
    requires WellFormed(e) && e.SExt? && IsProduct(e.inner) && Width(e) <= w && depth + 1 + Factors(e.inner) <= 6
    ensures var inner := GetLinearExpression(e.inner, 0, 0, depth + 1, w, nuw0, true); inner.zext == 0 && inner.nsw
    ensures var r := GetLinearExpression(e, 0, 0, depth, w, nuw0, true);
      r.v == Variable(e.inner) && r.offset == 0 && Congruent(r.scale, WordProduct(e.inner), Width(e))
    ensures ExactLine(e.inner, depth + 1) == Line(SignedProduct(e.inner), 0) && !HasSExt(e.inner)
  {
    ProductLine(e.inner, depth + 1, w, nuw0);
    NoWrap(0, Width(e.inner));
    var inner := GetLinearExpression(e.inner, 0, 0, depth + 1, w, nuw0, true);
    MultipleOfLess(inner.scale - WordProduct(e.inner), w, Width(e));
  }

  lemma ScaleOnly(r: Linear, l: Line, p: int, v: int, n: nat)
    requires Congruent(r.scale, p, n) && r.offset == l.offset
    ensures Agree(r, l, v, n) <==> Multiple((p - l.scale) * v, n)
  {
    var s := r.scale;
    MultipleTimes(s - p, v, n);
    assert (s - l.scale) * v == (p - l.scale) * v + (s - p) * v;
    if Multiple((s - l.scale) * v, n) { MultipleSum((s - l.scale) * v, (s - p) * v, n); }
    if Multiple((p - l.scale) * v, n) { MultipleSum((p - l.scale) * v, (s - p) * v, n); }
  }

  lemma UnitWitness(e: Expr, depth: nat, w: nat, nuw0: bool, u: int)
    requires WellFormed(e) && e.SExt? && IsProduct(e.inner) && Width(e) <= w && depth + 1 + Factors(e.inner) <= 6
    requires FitsAt(e.inner, u) && (u == 1 || u == -1)
    ensures AlwaysRight(e, depth, w, nuw0) ==> Congruent(WordProduct(e.inner), SignedProduct(e.inner), Width(e))
  {
    var env: Env := id => u;
    VariableFits(e.inner, u);
    SignedEnv(Variable(e.inner), u, env);
    ProductKeeps(e.inner, env);
    ProductAt(e, depth, w, nuw0, env);
    var d := WordProduct(e.inner) - SignedProduct(e.inner);
    if Multiple(d * u, Width(e)) {
      MultipleTimes(d * u, u, Width(e));
      assert (d * u) * u == d;
    }
  }

  lemma {:induction false} VariableFits(e: Expr, v: int)
    requires IsProduct(e) && WellFormed(e) && FitsAt(e, v)
    ensures InSignedRange(v, Width(e))
    decreases e
  {
    if e.Bin? { VariableFits(e.left, v); }
  }

  lemma SignedEnv(x: Expr, v: int, env: Env)
    requires WellFormed(x) && x.Leaf? && env(x.id) == v && InSignedRange(v, Width(x))
    ensures Signed(Eval(x, env), Width(x)) == v
  {
    WrapCongruent(v, Width(x), Width(x));
    SignedIs(Wrap(v, Width(x)), v, Width(x));
  }

  lemma RightProduct(e: Expr, env: Env)
    requires WellFormed(e) && e.SExt? && IsProduct(e.inner) && Keeps(e, env)
    requires FitsAt(e.inner, 1) || FitsAt(e.inner, -1) ==>
      Congruent(WordProduct(e.inner), SignedProduct(e.inner), Width(e))
    ensures var value := Signed(Eval(Variable(e.inner), env), Width(e.inner));
      Multiple((WordProduct(e.inner) - SignedProduct(e.inner)) * value, Width(e))
  {
    var v := Signed(Eval(Variable(e.inner), env), Width(e.inner));
    ProductKeeps(e.inner, env);
    if v != 0 {
      UnitFits(e.inner, v, if v > 0 then 1 else -1);
      MultipleTimes(WordProduct(e.inner) - SignedProduct(e.inner), v, Width(e));
    } else {
      MultipleZero(Width(e));
    }
  }

  /** So it is right if no constant is negative. */
  lemma {:induction false} NoNegativeFactor(e: Expr)
    requires WellFormed(e) && IsProduct(e) && NonNegative(e)
    ensures WordProduct(e) == SignedProduct(e)
    decreases e
  {
    if e.Bin? { NoNegativeFactor(e.left); }
  }

  predicate NonNegative(e: Expr) {
    e.Bin? ==> 2 * e.c < Pow2(Width(e.left)) && NonNegative(e.left)
  }

  /** With a single constant, exactly if that is not negative. */
  lemma SextOfOneFactor(id: int, small: nat, c: int, n: nat, depth: nat, w: nat, nuw0: bool)
    requires 2 <= small < n <= w && 0 <= c < Pow2(small) && depth <= 4
    ensures var e := SExt(Bin(Mul, Leaf(id, small), c, false, true, false), n);
      WellFormed(e) && (AlwaysRight(e, depth, w, nuw0) <==> 2 * c < Pow2(small))
  {
    var x := Leaf(id, small);
    var m := Bin(Mul, x, c, false, true, false);
    OneFactor(x, m, c);
    SextOfProduct(SExt(m, n), depth, w, nuw0);
    NegativeDiffers(c, small, n);
  }

  lemma NegativeDiffers(c: int, small: nat, n: nat)
    requires small < n
    ensures Congruent(c, Signed(c, small), n) <==> 2 * c < Pow2(small)
  {
    MultipleZero(n);
    if 2 * c >= Pow2(small) {
      Pow2Grows(small + 1, n);
      NotMultiple(Pow2(small), n);
    }
  }

  lemma OneFactor(x: Expr, m: Expr, c: int)
    requires x.Leaf? && 2 <= x.width && 0 <= c < Pow2(x.width) && m == Bin(Mul, x, c, false, true, false)
    ensures WellFormed(m) && Width(m) == x.width && IsProduct(m) && Factors(m) == 1
    ensures WordProduct(m) == c && SignedProduct(m) == Signed(c, x.width) && FitsAt(m, 1)
  {
    assert WellFormed(x) && Width(x) == x.width && IsProduct(x) && Factors(x) == 0;
    assert SignedProduct(x) == 1 && WordProduct(x) == 1;
    SignedFits(c, x.width, x.width);
    Pow2Grows(2, x.width);
    assert FitsAt(x, 1);
  }

  // ----- inputs for which the decomposition of a sign extension is wrong -----

  function Plus(e: Expr, c: int): Expr { Bin(Add, e, c, false, true, false) }

  /** x + 100 + 100 on 8 bits does not wrap for x = -100, but the constants do. */
  lemma SumFails(small: nat, n: nat, w: nat, env: Env)
    requires Pow2(small) == 256 && small + 2 <= n <= w && env(0) == 156
    ensures var e := SExt(Plus(Plus(Leaf(0, small), 100), 100), n);
      WellFormed(e) && Keeps(e, env) && !RightAt(GetLinearExpression(e, 0, 0, 0, w, true, true), e, env)
  {
    var x := Leaf(0, small);
    var e := SExt(Plus(Plus(x, 100), 100), n);
    var y, z := Plus(x, 100), Plus(Plus(x, 100), 100);
    assert small > 0;
    NoWrap(156, small);
    WrapsOnce(156 + 100, small, 0);
    NoWrap(100, small);
    assert Width(x) == small && WellFormed(x) && Width(y) == small && WellFormed(y) && Width(z) == small &&
      WellFormed(z);
    assert Eval(x, env) == 156 && Eval(y, env) == 0 && Eval(z, env) == 100;
    assert Keeps(x, env) && Keeps(y, env) && Keeps(z, env) && !HasSExt(x) && !HasSExt(y) && !HasSExt(z);
    assert ExactLine(x, 3) == Line(1, 0) && ExactLine(y, 2) == Line(1, 100) && ExactLine(z, 1) == Line(1, 200);
    var rx := GetLinearExpression(x, 0, 0, 3, w, true, true);
    assert rx == Whole(x, 0, 0, true, true);
    var ry := GetLinearExpression(y, 0, 0, 2, w, true, true);
    assert ry.zext == 0 && ry.nsw;
    SextOfSum(e, 0, w, true, true, env);
  }

  lemma WrapsOnce(x: int, n: nat, r: int)
    requires x == Pow2(n) + r && 0 <= r < Pow2(n)
    ensures Wrap(x, n) == r
  {
    DivUnique(x, Pow2(n), 1, r);
  }

  /** x * -1 on 8 bits: the scale is not sign extended, and becomes 255. */
  lemma ProductFails(small: nat, n: nat, w: nat, env: Env)
    requires Pow2(small) == 256 && small < n <= w && env(0) == 1
    ensures var e := SExt(Bin(Mul, Leaf(0, small), 255, false, true, false), n);
      WellFormed(e) && Keeps(e, env) && !RightAt(GetLinearExpression(e, 0, 0, 0, w, true, true), e, env)
  {
    var x := Leaf(0, small);
    var m := Bin(Mul, x, 255, false, true, false);
    NoWrap(1, small);
    Pow2Grows(small + 1, n);
    Pow2Grows(small, w);
    NoWrap(255, w);
    NoWrap(0, w);
    assert Width(x) == small && WellFormed(x) && Width(m) == small && WellFormed(m);
    assert Eval(x, env) == 1 && Keeps(x, env) && Keeps(m, env);
    assert ExactLine(x, 2) == Line(1, 0) && ExactLine(m, 1) == Line(-1, 0);
    var rx := GetLinearExpression(x, 0, 0, 2, w, true, true);
    assert rx == Whole(x, 0, 0, true, true);
    assert GetLinearExpression(m, 0, 0, 1, w, true, true) == Linear(x, 255, 0, 0, 0, false, true);
    SextKept(SExt(m, n), 0, w, true, true, env);
    NotMultiple(256, n);
  }

  /** zext x - 1: through the zero extension, the sign extension is taken for another one. */
  lemma ZextFails(small: nat, mid: nat, n: nat, w: nat, env: Env)
    requires 0 < small < mid < n <= w && env(0) == 0
    ensures var e := SExt(Plus(ZExt(Leaf(0, small), mid), Pow2(mid) - 1), n);
      WellFormed(e) && Keeps(e, env) && !RightAt(GetLinearExpression(e, 0, 0, 0, w, true, true), e, env)
  {
    var v := Leaf(0, small);
    var x := ZExt(v, mid);
    var m := Plus(x, Pow2(mid) - 1);
    NoWrap(0, small);
    NoWrap(Pow2(mid) - 1, mid);
    Pow2Grows(1, mid);
    assert Width(v) == small && WellFormed(v) && Width(x) == mid && WellFormed(x) && Width(m) == mid && WellFormed(m);
    assert Eval(v, env) == 0 && Eval(x, env) == 0 && Eval(m, env) == Pow2(mid) - 1;
    assert Keeps(v, env) && Keeps(x, env) && Keeps(m, env) && !HasSExt(v) && !HasSExt(x) && !HasSExt(m);
    var rv := GetLinearExpression(v, 0, 0, 3, w, true, true);
    assert rv == Whole(v, 0, 0, true, true);
    assert GetLinearExpression(x, 0, 0, 2, w, true, true).zext == mid - small;
    SextThroughZext(SExt(m, n), 0, w, true, true, env);
  }

  lemma WrapCongruent(x: int, w: nat, k: nat)
    requires k <= w
    ensures Congruent(Wrap(x, w), x, k) && Congruent(x, Wrap(x, w), k)
  {
    var p := Pow2(w);
    var q := x / p;
    assert x == q * p + x % p;
    PowerMultiple(w, k);
    MultipleTimes(p, -q, k);
    MultipleTimes(p, q, k);
    assert p * -q == -(q * p) && p * q == q * p;
  }

  lemma CongruentChain(a: int, b: int, c: int, k: nat)
    requires Congruent(a, b, k) && Congruent(b, c, k)
    ensures Congruent(a, c, k)
  {
    MultipleSum(a - b, b - c, k);
  }

  lemma CongruentSum(a: int, b: int, c: int, d: int, k: nat)
    requires Congruent(a, b, k) && Congruent(c, d, k)
    ensures Congruent(a + c, b + d, k)
  {
    MultipleSum(a - b, c - d, k);
  }

  lemma CongruentTimes(a: int, b: int, m: int, k: nat)
    requires Congruent(a, b, k)
    ensures Congruent(a * m, b * m, k)
  {
    MultipleTimes(a - b, m, k);
    assert (a - b) * m == a * m - b * m;
  }

  lemma CongruentSelf(a: int, k: nat)
    ensures Congruent(a, a, k)
  {
    MultipleZero(k);
  }

  /** Adding a constant to both sides. */
  lemma AddStep(x: int, linear: int, offset: int, c: int, w: nat, k: nat)
    requires k <= w && Congruent(x, linear + offset, k)
    ensures Congruent(x + c, linear + Wrap(offset + c, w), k)
  {
    CongruentSelf(c, k);
    CongruentSum(x, linear + offset, c, c, k);
    WrapCongruent(offset + c, w, k);
    CongruentSelf(linear, k);
    CongruentSum(linear, linear, offset + c, Wrap(offset + c, w), k);
    CongruentChain(x + c, linear + (offset + c), linear + Wrap(offset + c, w), k);
  }

  /** Multiplying both sides by a constant. */
  lemma MulStep(x: int, scale: int, v: int, offset: int, m: int, w: nat, k: nat)
    requires k <= w && Congruent(x, scale * v + offset, k)
    ensures Congruent(x * m, Wrap(scale * m, w) * v + Wrap(offset * m, w), k)
  {
    CongruentTimes(x, scale * v + offset, m, k);
    WrapCongruent(scale * m, w, k);
    CongruentTimes(scale * m, Wrap(scale * m, w), v, k);
    WrapCongruent(offset * m, w, k);
    CongruentSum((scale * m) * v, Wrap(scale * m, w) * v, offset * m, Wrap(offset * m, w), k);
    assert (scale * v + offset) * m == (scale * m) * v + offset * m by { Rearrange(scale, v, offset, m); }
    CongruentChain(x * m, (scale * m) * v + offset * m, Wrap(scale * m, w) * v + Wrap(offset * m, w), k);
  }

  lemma Rearrange(s: int, v: int, o: int, m: int)
    ensures (s * v + o) * m == (s * m) * v + o * m
  {
    assert (s * v + o) * m == (s * v) * m + o * m;
    assert (s * v) * m == s * (v * m);
    assert (s * m) * v == s * (m * v);
  }

  lemma WholeMeans(e: Expr, zext: nat, sext: nat, nuw: bool, nsw: bool, w: nat, env: Env)
    requires WellFormed(e)
    ensures Means(Whole(e, zext, sext, nuw, nsw), e, env, w)
  {
    MultipleZero(Width(e));
    MultipleZero(w);
  }

  lemma ConstMeans(e: Expr, r: Linear, w: nat, env: Env)
    requires WellFormed(e) && e.Const? && e.width <= w && r.v == e && r.scale == 0 && r.offset == Wrap(e.value, w)
    ensures Means(r, e, env, w)
  {
    WrapCongruent(e.value, w, Width(e));
    WrapCongruent(e.value, w, w);
  }

  /** The operation applied to what is beneath it, up to any width that it does not wrap in. */
  lemma ExactMeans(inner: Linear, r: Linear, op: Op, x: int, c: int, v: int, w: nat, k: nat)
    requires k <= w && 0 <= x && 0 <= c && (op == Shl ==> c < w) && (op == OrOp ==> And(x, c) == 0)
    requires Congruent(x, inner.scale * v + inner.offset, k)
    requires Applied(inner, r, op, c, w)
    ensures Congruent(Exact(op, x, c), r.scale * v + r.offset, k)
  {
    if op == Mul {
      MulStep(x, inner.scale, v, inner.offset, c, w, k);
    } else if op == Shl {
      MulStep(x, inner.scale, v, inner.offset, Pow2(c), w, k);
    } else {
      if op == OrOp { OrAdds(x, c); }
      AddStep(x, inner.scale * v, inner.offset, if op == Sub then -c else c, w, k);
    }
  }

  /** How an operation changes scale and offset. */
  predicate Applied(inner: Linear, r: Linear, op: Op, c: int, w: nat)
    requires c >= 0
  {
    r.scale == Apply(inner, op, c, w).scale && r.offset == Apply(inner, op, c, w).offset
  }

  lemma BinMeans(inner: Linear, r: Linear, e: Expr, env: Env, w: nat)
    requires WellFormed(e) && e.Bin? && WellFormed(inner.v) && r.v == inner.v && Width(e) <= w
    requires Keeps(e, env) && Means(inner, e.left, env, w) && (e.op == OrOp ==> e.disjoint)
    requires Applied(inner, r, e.op, e.c, w)
    requires r.nuw ==> inner.nuw && e.op != Shl && (e.nuw || e.op == OrOp)
    ensures Means(r, e, env, w)
  {
    var x, k := Eval(e.left, env), Width(e.left);
    var v := Eval(inner.v, env);
    ExactMeans(inner, r, e.op, x, e.c, v, w, k);
    WrapCongruent(Exact(e.op, x, e.c), k, k);
    CongruentChain(Eval(e, env), Exact(e.op, x, e.c), r.scale * v + r.offset, k);
    if r.nuw {
      ExactMeans(inner, r, e.op, x, e.c, v, w, w);
      if e.op == OrOp { OrBound(x, e.c, k); }
      NoWrap(Exact(e.op, x, e.c), k);
    }
  }

  lemma NoWrap(x: int, k: nat)
    requires 0 <= x < Pow2(k)
    ensures Wrap(x, k) == x
  {
    DivUnique(x, Pow2(k), 0, x);
  }

  /** Zero extension does not change the value; a decomposition survives it if nothing has wrapped. */
  lemma ExtendedMeans(r: Linear, inner: Expr, e: Expr, env: Env, w: nat)
    requires WellFormed(e) && e == ZExt(inner, Width(e)) && WellFormed(r.v) && Width(e) <= w
    requires Congruent(Eval(inner, env), r.scale * Eval(r.v, env) + r.offset, w)
    ensures Means(r, e, env, w)
  {
    MultipleOfLess(Eval(e, env) - (r.scale * Eval(r.v, env) + r.offset), w, Width(e));
  }
}
