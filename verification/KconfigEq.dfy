/** expr_eliminate_yn, expr_eliminate_eq and expr_eq of tools/kconfig/expr.c:
    cancelling the common operands of two and/or chains. The two arguments of
    expr_eliminate_eq never share nodes, so values describe its effect exactly. */
module KconfigEq {
  import opened KconfigExpr
  import opened KconfigTransform

  // ----- expr_eliminate_yn -----

  // One and/or node whose operands are already simplified.
  function SimplifyBin(op: BinOp, l: Expr, r: Expr): (e: Expr)
    ensures Size(e) <= 1 + Size(l) + Size(r)
  {
    var unit, zero := Sym(op.Unit()), Sym(op.Dual().Unit());
    if l == zero then zero
    else if l == unit then r
    else if r == zero then zero
    else if r == unit then l
    else Bin(op, l, r)
  }

  function EliminateYn(e: Expr): (r: Expr)
    ensures Size(r) <= Size(e)
  {
    if e.Bin? then SimplifyBin(e.op, EliminateYn(e.l), EliminateYn(e.r)) else e
  }

  predicate IsYn(e: Expr) {
    e == TRUE || e == FALSE
  }

  /** No and/or node, reached through and/or nodes only, has y or n as an operand. */
  predicate YnFree(e: Expr) {
    e.Bin? ==> !IsYn(e.l) && !IsYn(e.r) && YnFree(e.l) && YnFree(e.r)
  }

  lemma {:induction false} EliminateYnFree(e: Expr)
    ensures YnFree(EliminateYn(e))
    ensures Size(EliminateYn(e)) == Size(e) <==> YnFree(e)
    ensures YnFree(e) ==> EliminateYn(e) == e
  {
    if e.Bin? {
      EliminateYnFree(e.l);
      EliminateYnFree(e.r);
    }
  }

  lemma {:induction false} EliminateYnValue(e: Expr, env: Env)
    requires WellFormed(env)
    ensures Value(EliminateYn(e), env) == Value(e, env)
  {
    if e.Bin? {
      EliminateYnValue(e.l, env);
      EliminateYnValue(e.r, env);
    }
  }

  lemma {:induction false} EliminateYnNormal(e: Expr)
    requires Normal(e)
    ensures Normal(EliminateYn(e))
  {
    if e.Bin? {
      EliminateYnNormal(e.l);
      EliminateYnNormal(e.r);
    }
  }

  // ----- expr_eq and expr_eliminate_eq -----

  function ExprEq(x: Expr, y: Expr): bool
    decreases Size(x) + Size(y), 2
  {
    match x
    case Cmp(_, _, _) => x == y
    case Sym(_) => x == y
    case Not(x') => y.Not? && ExprEq(x', y.e)
    case Bin(op, _, _) =>
      && IsOp(y, op)
      && var (x', y') := CancelChain(op, x, y);
         var (x'', y'') := (EliminateYn(x'), EliminateYn(y'));
         x''.Sym? && x'' == y''
  }

  /** __expr_eliminate_eq: every operand of the t-chain x is held against every operand
      of the t-chain y, and equal ones are overwritten by the unit of t. */
  function CancelChain(t: BinOp, x: Expr, y: Expr): (r: (Expr, Expr))
    ensures Size(r.0) <= Size(x) && Size(r.1) <= Size(y)
    ensures IsOp(r.0, t) == IsOp(x, t) && IsOp(r.1, t) == IsOp(y, t)
    ensures !IsOp(x, t) ==> r.0 == x || r.0 == Sym(t.Unit())
    ensures !IsOp(y, t) ==> r.1 == y || r.1 == Sym(t.Unit())
    decreases Size(x) + Size(y), if IsOp(x, t) || IsOp(y, t) then 1 else 3
  {
    if IsOp(x, t) then
      var (l, y') := CancelChain(t, x.l, y);
      var (r, y'') := CancelChain(t, x.r, y');
      (Bin(t, l, r), y'')
    else if IsOp(y, t) then
      var (x', l) := CancelChain(t, x, y.l);
      var (x'', r) := CancelChain(t, x', y.r);
      (x'', Bin(t, l, r))
    else if x == y && IsYn(x) then (x, y)
    else if ExprEq(x, y) then (Sym(t.Unit()), Sym(t.Unit()))
    else (x, y)
  }

  /** expr_eliminate_eq on two expressions that are not NULL. */
  function EliminateEq(x: Expr, y: Expr): (Expr, Expr) {
    var (x1, y1) := if x.Bin? then CancelChain(x.op, x, y) else (x, y);
    SecondPass(x1, y1)
  }

  // If the types differ, the operator of the second expression gets a pass as well.
  function SecondPass(x: Expr, y: Expr): (Expr, Expr) {
    var (x', y') := if y.Bin? && !IsOp(x, y.op) then CancelChain(y.op, x, y) else (x, y);
    (EliminateYn(x'), EliminateYn(y'))
  }

  // ----- soundness -----

  /** x is x' with the factor c taken out. */
  ghost predicate Factors(t: BinOp, x: Expr, x': Expr, c: Expr) {
    forall env :: WellFormed(env) ==> Value(x, env) == t.Apply(Value(x', env), Value(c, env))
  }

  lemma FactorBin(t: BinOp, l: Expr, l': Expr, c1: Expr, r: Expr, r': Expr, c2: Expr)
    requires Factors(t, l, l', c1) && Factors(t, r, r', c2)
    ensures Factors(t, Bin(t, l, r), Bin(t, l', r'), Bin(t, c1, c2))
  {
  }

  lemma FactorTwice(t: BinOp, y: Expr, y': Expr, c1: Expr, y'': Expr, c2: Expr)
    requires Factors(t, y, y', c1) && Factors(t, y', y'', c2)
    ensures Factors(t, y, y'', Bin(t, c1, c2))
  {
  }

  lemma FactorUnit(t: BinOp, x: Expr)
    ensures Factors(t, x, x, Sym(t.Unit()))
    ensures Factors(t, x, Sym(t.Unit()), x)
  {
  }

  /** What a cancelling pass takes away from both sides is one and the same expression c:
      old x = new x op c and old y = new y op c, in every environment. */
  lemma {:induction false} CancelChainFactor(t: BinOp, x: Expr, y: Expr) returns (c: Expr)
    ensures var (x', y') := CancelChain(t, x, y); Factors(t, x, x', c) && Factors(t, y, y', c)
    decreases Size(x) + Size(y), if IsOp(x, t) || IsOp(y, t) then 1 else 3
  {
    var (x2, y2) := CancelChain(t, x, y);
    if IsOp(x, t) {
      var (l, y') := CancelChain(t, x.l, y);
      var c1 := CancelChainFactor(t, x.l, y);
      var c2 := CancelChainFactor(t, x.r, y');
      c := Bin(t, c1, c2);
      FactorBin(t, x.l, l, c1, x.r, x2.r, c2);
      FactorTwice(t, y, y', c1, y2, c2);
    } else if IsOp(y, t) {
      var (x', l) := CancelChain(t, x, y.l);
      var c1 := CancelChainFactor(t, x, y.l);
      var c2 := CancelChainFactor(t, x', y.r);
      c := Bin(t, c1, c2);
      FactorBin(t, y.l, l, c1, y.r, y2.r, c2);
      FactorTwice(t, x, x', c1, x2, c2);
    } else if !(x == y && IsYn(x)) && ExprEq(x, y) {
      ExprEqSound(x, y);
      c := x;
      FactorUnit(t, x);
    } else {
      c := Sym(t.Unit());
      FactorUnit(t, x);
      FactorUnit(t, y);
    }
  }

  /** Expressions that expr_eq identifies have the same value everywhere. */
  lemma {:induction false} ExprEqSound(x: Expr, y: Expr)
    requires ExprEq(x, y)
    ensures SameValue(x, y)
    decreases Size(x) + Size(y), 2
  {
    match x
    case Cmp(_, _, _) =>
    case Sym(_) =>
    case Not(x') => ExprEqSound(x', y.e);
    case Bin(op, _, _) =>
      var (x', y') := CancelChain(op, x, y);
      var c := CancelChainFactor(op, x, y);
      forall env | WellFormed(env) ensures Value(x, env) == Value(y, env) {
        EliminateYnValue(x', env);
        EliminateYnValue(y', env);
      }
  }

  // Cancelling keeps the order between the two sides if it ends in that order.
  lemma {:induction false} CancelChainOrder(t: BinOp, x: Expr, y: Expr, env: Env)
    requires WellFormed(env)
    requires Value(CancelChain(t, x, y).0, env) <= Value(CancelChain(t, x, y).1, env)
    ensures Value(x, env) <= Value(y, env)
  {
    var c := CancelChainFactor(t, x, y);
  }

  /** If expr_eliminate_eq leaves y for its second argument, the first one implied it. The
      two passes may run with different operators. */
  lemma {:induction false} EliminateEqImplies(x: Expr, y: Expr, env: Env)
    requires WellFormed(env)
    requires EliminateEq(x, y).1 == TRUE
    ensures Value(x, env) <= Value(y, env)
  {
    var (x1, y1) := if x.Bin? then CancelChain(x.op, x, y) else (x, y);
    var (x2, y2) := if y1.Bin? && !IsOp(x1, y1.op) then CancelChain(y1.op, x1, y1) else (x1, y1);
    EliminateYnValue(y2, env);
    assert Value(x2, env) <= Value(y2, env);
    if y1.Bin? && !IsOp(x1, y1.op) {
      CancelChainOrder(y1.op, x1, y1, env);
    }
    if x.Bin? {
      CancelChainOrder(x.op, x, y, env);
    }
  }

  // ----- completeness on identical expressions -----

  /** The operands of a t-chain, from left to right. */
  function Operands(t: BinOp, e: Expr): (s: seq<Expr>)
    ensures |s| >= 1
  {
    if IsOp(e, t) then Operands(t, e.l) + Operands(t, e.r) else [e]
  }

  function Blank(t: BinOp, e: Expr): Expr {
    if IsYn(e) then e else Sym(t.Unit())
  }

  // e with its first n operands blanked.
  function BlankFirst(t: BinOp, e: Expr, n: nat): Expr {
    if n == 0 then e
    else if IsOp(e, t) then
      var k := |Operands(t, e.l)|;
      Bin(t, BlankFirst(t, e.l, n), BlankFirst(t, e.r, if n <= k then 0 else n - k))
    else Blank(t, e)
  }

  lemma {:induction false} CancelYn(t: BinOp, c: Expr, y: Expr)
    requires IsYn(c)
    ensures CancelChain(t, c, y) == (c, y)
    decreases y
  {
    if IsOp(y, t) {
      CancelYn(t, c, y.l);
      CancelYn(t, c, y.r);
    }
  }

  lemma {:induction false} CancelBlanked(t: BinOp, a: Expr, y: Expr, n: nat)
    requires !IsOp(a, t) && !IsYn(a) && n >= |Operands(t, y)|
    ensures CancelChain(t, a, BlankFirst(t, y, n)) == (a, BlankFirst(t, y, n))
    decreases y
  {
    if IsOp(y, t) {
      CancelBlanked(t, a, y.l, n);
      CancelBlanked(t, a, y.r, n - |Operands(t, y.l)|);
    }
  }

  // The n-th operand of y finds itself behind the n blanked ones.
  lemma {:induction false} CancelOperand(t: BinOp, a: Expr, y: Expr, n: nat)
    requires n < |Operands(t, y)| && Operands(t, y)[n] == a && !IsOp(a, t)
    requires !IsYn(a) ==> ExprEq(a, a)
    ensures CancelChain(t, a, BlankFirst(t, y, n)) == (Blank(t, a), BlankFirst(t, y, n + 1))
    decreases y
  {
    if IsYn(a) {
      CancelYn(t, a, BlankFirst(t, y, n));
      BlankYn(t, y, n);
    } else if IsOp(y, t) {
      var k := |Operands(t, y.l)|;
      if n < k {
        CancelOperand(t, a, y.l, n);
        CancelYn(t, Blank(t, a), y.r);
      } else {
        CancelBlanked(t, a, y.l, n);
        BlankAll(t, y.l, n);
        CancelOperand(t, a, y.r, n - k);
      }
    }
  }

  lemma {:induction false} BlankYn(t: BinOp, y: Expr, n: nat)
    requires n < |Operands(t, y)| && IsYn(Operands(t, y)[n])
    ensures BlankFirst(t, y, n + 1) == BlankFirst(t, y, n)
    decreases y
  {
    if IsOp(y, t) {
      var k := |Operands(t, y.l)|;
      if n < k {
        BlankYn(t, y.l, n);
      } else {
        BlankAll(t, y.l, n);
        BlankYn(t, y.r, n - k);
      }
    }
  }

  function AllBlank(t: BinOp, e: Expr): Expr {
    if IsOp(e, t) then Bin(t, AllBlank(t, e.l), AllBlank(t, e.r)) else Blank(t, e)
  }

  lemma {:induction false} BlankedIsAll(t: BinOp, y: Expr, n: nat)
    requires n >= |Operands(t, y)|
    ensures BlankFirst(t, y, n) == AllBlank(t, y)
    decreases y
  {
    if IsOp(y, t) {
      var k := |Operands(t, y.l)|;
      assert |Operands(t, y)| == k + |Operands(t, y.r)|;
      BlankedIsAll(t, y.l, n);
      BlankedIsAll(t, y.r, n - k);
    }
  }

  lemma {:induction false} AllBlankYn(t: BinOp, y: Expr)
    ensures EliminateYn(AllBlank(t, y)).Sym? && IsYn(EliminateYn(AllBlank(t, y)))
    decreases y
  {
    if IsOp(y, t) {
      AllBlankYn(t, y.l);
      AllBlankYn(t, y.r);
    }
  }

  lemma BlankAll(t: BinOp, y: Expr, n: nat)
    requires n >= |Operands(t, y)|
    ensures BlankFirst(t, y, n) == BlankFirst(t, y, n + 1) == BlankFirst(t, y, |Operands(t, y)|)
    ensures EliminateYn(BlankFirst(t, y, n)).Sym?
    ensures IsYn(EliminateYn(BlankFirst(t, y, n)))
  {
    BlankedIsAll(t, y, n);
    BlankedIsAll(t, y, n + 1);
    BlankedIsAll(t, y, |Operands(t, y)|);
    AllBlankYn(t, y);
  }

  lemma {:induction false} CancelBin(t: BinOp, e: Expr, y0: Expr, a: Expr, y1: Expr, b: Expr, y2: Expr)
    requires IsOp(e, t) && CancelChain(t, e.l, y0) == (a, y1) && CancelChain(t, e.r, y1) == (b, y2)
    ensures CancelChain(t, e, y0) == (Bin(t, a, b), y2)
  {
  }

  // The two halves of a chain, blanked one after the other.
  lemma {:induction false} BlankBoth(t: BinOp, e: Expr, y0: Expr, y1: Expr, y2: Expr)
    requires IsOp(e, t)
    requires CancelChain(t, e.l, y0) == (BlankFirst(t, e.l, |Operands(t, e.l)|), y1)
    requires CancelChain(t, e.r, y1) == (BlankFirst(t, e.r, |Operands(t, e.r)|), y2)
    ensures CancelChain(t, e, y0) == (BlankFirst(t, e, |Operands(t, e)|), y2)
  {
    CancelBin(t, e, y0, BlankFirst(t, e.l, |Operands(t, e.l)|), y1, BlankFirst(t, e.r, |Operands(t, e.r)|), y2);
    BlankedIsAll(t, e.l, |Operands(t, e.l)|);
    BlankedIsAll(t, e.r, |Operands(t, e.r)|);
    BlankedIsAll(t, e, |Operands(t, e)|);
  }

  /** Held one after the other against y[0], y[1], ..., the expressions in s are blanked. */
  predicate Steps(t: BinOp, s: seq<Expr>, y: seq<Expr>) {
    |y| == |s| + 1 && forall i :: 0 <= i < |s| ==> CancelChain(t, s[i], y[i]) == (Blank(t, s[i]), y[i + 1])
  }

  lemma {:induction false} CancelSteps(t: BinOp, e: Expr, y: seq<Expr>)
    requires Steps(t, Operands(t, e), y)
    ensures CancelChain(t, e, y[0]) == (BlankFirst(t, e, |Operands(t, e)|), y[|y| - 1])
    decreases e
  {
    if IsOp(e, t) {
      var k := |Operands(t, e.l)|;
      StepParts(t, Operands(t, e.l), Operands(t, e.r), y);
      CancelSteps(t, e.l, y[..k + 1]);
      CancelSteps(t, e.r, y[k..]);
      BlankBoth(t, e, y[0], y[k], y[|y| - 1]);
    } else {
      assert Operands(t, e)[0] == e;
    }
  }

  lemma StepParts(t: BinOp, a: seq<Expr>, b: seq<Expr>, y: seq<Expr>)
    requires Steps(t, a + b, y)
    ensures Steps(t, a, y[..|a| + 1]) && Steps(t, b, y[|a|..])
  {
    assert forall i :: 0 <= i < |a| ==> (a + b)[i] == a[i];
    forall i | 0 <= i < |b| ensures CancelChain(t, b[i], y[|a|..][i]) == (Blank(t, b[i]), y[|a|..][i + 1]) {
      assert (a + b)[|a| + i] == b[i];
    }
  }

  lemma {:induction false} OperandsSmaller(t: BinOp, e: Expr, i: nat)
    requires i < |Operands(t, e)|
    ensures Size(Operands(t, e)[i]) <= Size(e)
    ensures IsOp(e, t) ==> Size(Operands(t, e)[i]) < Size(e)
    ensures !IsOp(Operands(t, e)[i], t)
  {
    if IsOp(e, t) {
      var k := |Operands(t, e.l)|;
      if i < k { OperandsSmaller(t, e.l, i); } else { OperandsSmaller(t, e.r, i - k); }
    }
  }

  /** expr_eq recognises every expression as equal to itself. */
  lemma {:induction false} ExprEqReflexive(x: Expr)
    ensures ExprEq(x, x)
    decreases Size(x)
  {
    if x.Not? {
      ExprEqReflexive(x.e);
    } else if x.Bin? {
      var t, s := x.op, Operands(x.op, x);
      var y := seq(|s| + 1, i requires 0 <= i => BlankFirst(t, x, i));
      forall i | 0 <= i < |s| ensures CancelChain(t, s[i], y[i]) == (Blank(t, s[i]), y[i + 1]) {
        OperandsSmaller(t, x, i);
        if !IsYn(s[i]) { ExprEqReflexive(s[i]); }
        CancelOperand(t, s[i], x, i);
      }
      CancelSteps(t, x, y);
      BlankAll(t, x, |s|);
    }
  }
}
