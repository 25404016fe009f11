/** What expr_eq and expr_eliminate_eq of tools/kconfig/expr.c decide on expressions without
    duplicates: equality up to the order and the bracketing of chains. */
module KconfigForms {
  import opened KconfigExpr
  import opened KconfigTransform
  import opened KconfigEq
  import opened KconfigJoin
  import opened KconfigDups
  import opened KconfigTests

  /** An expression without the order and the bracketing of its chains. */
  datatype Form = Atom(e: Expr) | Chain(op: BinOp, parts: set<Form>)

  function FormOf(e: Expr): Form
    decreases e, 1
  {
    if e.Bin? then Chain(e.op, Parts(e.op, e)) else Atom(e)
  }

  /** The forms of the operands of the t-chain e. */
  function Parts(t: BinOp, e: Expr): set<Form>
    decreases e, if IsOp(e, t) then 0 else 2
  {
    if IsOp(e, t) then Parts(t, e.l) + Parts(t, e.r) else {FormOf(e)}
  }

  /** The operands of the t-chain e have different forms, are neither y nor n, and are clean
      themselves. */
  predicate CleanIn(t: BinOp, e: Expr)
    decreases e, if IsOp(e, t) then 0 else 2
  {
    if IsOp(e, t) then CleanIn(t, e.l) && CleanIn(t, e.r) && Parts(t, e.l) !! Parts(t, e.r)
    else !IsYn(e) && Clean(e)
  }

  predicate Clean(e: Expr)
    decreases e, 1
  {
    Normal(e) && (e.Bin? ==> CleanIn(e.op, e))
  }

  lemma {:induction false} PartsNotEmpty(t: BinOp, e: Expr)
    ensures Parts(t, e) != {}
    decreases e
  {
    if IsOp(e, t) {
      PartsNotEmpty(t, e.l);
    } else {
      assert FormOf(e) in Parts(t, e);
    }
  }

  // ----- chains with operands blanked -----

  /** e with the operands whose form is in done replaced by the unit. */
  function Blanked(t: BinOp, e: Expr, done: set<Form>): Expr {
    if IsOp(e, t) then Bin(t, Blanked(t, e.l, done), Blanked(t, e.r, done))
    else if FormOf(e) in done then Sym(t.Unit()) else e
  }

  lemma {:induction false} BlankedAgree(t: BinOp, e: Expr, p: set<Form>, q: set<Form>)
    requires p * Parts(t, e) == q * Parts(t, e)
    ensures Blanked(t, e, p) == Blanked(t, e, q)
    decreases e
  {
    if IsOp(e, t) {
      assert p * Parts(t, e.l) == p * Parts(t, e) * Parts(t, e.l);
      assert q * Parts(t, e.l) == q * Parts(t, e) * Parts(t, e.l);
      assert p * Parts(t, e.r) == p * Parts(t, e) * Parts(t, e.r);
      assert q * Parts(t, e.r) == q * Parts(t, e) * Parts(t, e.r);
      BlankedAgree(t, e.l, p, q);
      BlankedAgree(t, e.r, p, q);
    } else {
      assert FormOf(e) in p <==> FormOf(e) in p * Parts(t, e);
      assert FormOf(e) in q <==> FormOf(e) in q * Parts(t, e);
    }
  }

  lemma {:induction false} CleanStays(e: Expr)
    requires Clean(e)
    ensures EliminateYn(e) == e
    decreases e, 1
  {
    if e.Bin? { ChainStays(e.op, e); }
  }

  lemma {:induction false} ChainStays(t: BinOp, e: Expr)
    requires CleanIn(t, e)
    ensures EliminateYn(e) == e && !IsYn(e)
    decreases e, if IsOp(e, t) then 0 else 2
  {
    if IsOp(e, t) {
      ChainStays(t, e.l);
      ChainStays(t, e.r);
    } else {
      CleanStays(e);
    }
  }

  /** What is left of a chain when the blanked operands have gone. */
  lemma {:induction false} BlankedRest(t: BinOp, e: Expr, done: set<Form>)
    requires CleanIn(t, e)
    ensures var r := EliminateYn(Blanked(t, e, done));
            if Parts(t, e) <= done then r == Sym(t.Unit())
            else CleanIn(t, r) && Parts(t, r) == Parts(t, e) - done && !IsYn(r)
    decreases e
  {
    if IsOp(e, t) {
      BlankedRest(t, e.l, done);
      BlankedRest(t, e.r, done);
      var l, r := EliminateYn(Blanked(t, e.l, done)), EliminateYn(Blanked(t, e.r, done));
      assert Parts(t, e) - done == (Parts(t, e.l) - done) + (Parts(t, e.r) - done);
    } else {
      assert Parts(t, e) == {FormOf(e)};
      CleanStays(e);
    }
  }

  // ----- cancelling by forms -----

  // An operand against a chain: it meets the one of its form, if that is still there.
  lemma {:induction false} OneByForm(t: BinOp, u: Expr, e: Expr, done: set<Form>)
    requires !IsOp(u, t) && !IsYn(u) && Clean(u) && CleanIn(t, e)
    ensures CancelChain(t, u, Blanked(t, e, done))
         == (if FormOf(u) in Parts(t, e) && FormOf(u) !in done then Sym(t.Unit()) else u,
             Blanked(t, e, done + {FormOf(u)}))
    decreases Size(u) + Size(e), if IsOp(e, t) then 1 else 3, 0
  {
    var unit, form := Sym(t.Unit()), FormOf(u);
    if IsOp(e, t) {
      OneByForm(t, u, e.l, done);
      if form in Parts(t, e.l) && form !in done {
        CancelYn(t, unit, Blanked(t, e.r, done));
        BlankedAgree(t, e.r, done, done + {form});
      } else {
        OneByForm(t, u, e.r, done);
      }
    } else if FormOf(e) in done {
      assert !ExprEq(u, unit);
    } else {
      ExprEqExact(u, e);
    }
  }

  // A chain against a chain: on both sides the common forms go.
  lemma {:induction false} AllByForm(t: BinOp, d: Expr, e: Expr, done: set<Form>)
    requires CleanIn(t, d) && CleanIn(t, e)
    ensures CancelChain(t, d, Blanked(t, e, done))
         == (Blanked(t, d, Parts(t, e) - done), Blanked(t, e, done + Parts(t, d)))
    decreases Size(d) + Size(e), if IsOp(d, t) || IsOp(e, t) then 1 else 3, 1
  {
    if IsOp(d, t) {
      AllByForm(t, d.l, e, done);
      var more := done + Parts(t, d.l);
      AllByForm(t, d.r, e, more);
      assert more + Parts(t, d.r) == done + Parts(t, d);
      BlankedAgree(t, d.r, Parts(t, e) - more, Parts(t, e) - done);
    } else {
      OneByForm(t, d, e, done);
    }
  }

  lemma {:induction false} BlankedNothing(t: BinOp, e: Expr)
    ensures Blanked(t, e, {}) == e
    decreases e
  {
    if IsOp(e, t) {
      BlankedNothing(t, e.l);
      BlankedNothing(t, e.r);
    }
  }

  /** expr_eq on clean expressions: equal up to order and bracketing. */
  lemma {:induction false} ExprEqExact(x: Expr, y: Expr)
    requires Clean(x) && Clean(y)
    ensures ExprEq(x, y) <==> FormOf(x) == FormOf(y)
    decreases Size(x) + Size(y), 2, 0
  {
    if x.Bin? && IsOp(y, x.op) {
      ChainsExact(x.op, x, y);
    } else if x.Not? && y.Not? {
      assert ExprEq(x, y) == ExprEq(x.e, y.e);
    }
  }

  lemma {:induction false} ChainsExact(t: BinOp, x: Expr, y: Expr)
    requires IsOp(x, t) && IsOp(y, t) && Clean(x) && Clean(y)
    ensures ExprEq(x, y) <==> FormOf(x) == FormOf(y)
    decreases Size(x) + Size(y), 1, 2
  {
    var p, q := Parts(t, x), Parts(t, y);
    BlankedNothing(t, y);
    AllByForm(t, x, y, {});
    assert q - {} == q && {} + p == p;
    assert CancelChain(t, x, y) == (Blanked(t, x, q), Blanked(t, y, p));
    BlankedRest(t, x, q);
    BlankedRest(t, y, p);
    if p != q { NoCommonRest(t, EliminateYn(Blanked(t, x, q)), EliminateYn(Blanked(t, y, p)), p, q); }
  }

  // Two rests that are equal would share a form that belongs to one side only.
  lemma {:induction false} NoCommonRest(t: BinOp, r: Expr, s: Expr, p: set<Form>, q: set<Form>)
    requires if p <= q then r == Sym(t.Unit()) else Parts(t, r) == p - q && !IsYn(r)
    requires if q <= p then s == Sym(t.Unit()) else Parts(t, s) == q - p && !IsYn(s)
    requires p != q
    ensures r != s
  {
    if !(p <= q) && !(q <= p) { PartsNotEmpty(t, r); }
  }

  // ----- expressions without duplicates are clean -----

  lemma {:induction false} PartsOfOperands(t: BinOp, e: Expr, f: Form)
    requires f in Parts(t, e)
    ensures exists k :: 0 <= k < |Operands(t, e)| && FormOf(Operands(t, e)[k]) == f
    decreases e
  {
    var s := Operands(t, e);
    if IsOp(e, t) {
      var a, b := Operands(t, e.l), Operands(t, e.r);
      if f in Parts(t, e.l) {
        PartsOfOperands(t, e.l, f);
        var k :| 0 <= k < |a| && FormOf(a[k]) == f;
        assert s[k] == a[k];
      } else {
        PartsOfOperands(t, e.r, f);
        var k :| 0 <= k < |b| && FormOf(b[k]) == f;
        assert s[|a| + k] == b[k];
      }
    } else {
      assert s[0] == e;
    }
  }

  lemma {:induction false} OperandsParts(b: Expr, d: Expr)
    requires forall o :: o in Operands(And, b) ==> o in Operands(And, d)
    ensures Parts(And, b) <= Parts(And, d)
  {
    forall f | f in Parts(And, b) ensures f in Parts(And, d) {
      PartsOfOperands(And, b, f);
      var k :| 0 <= k < |Operands(And, b)| && FormOf(Operands(And, b)[k]) == f;
      assert Operands(And, b)[k] in Operands(And, b);
      OperandInParts(d, Operands(And, b)[k]);
    }
  }

  lemma {:induction false} OperandInParts(d: Expr, o: Expr)
    requires o in Operands(And, d)
    ensures FormOf(o) in Parts(And, d)
    decreases d
  {
    if IsOp(d, And) {
      if o in Operands(And, d.l) { OperandInParts(d.l, o); } else { OperandInParts(d.r, o); }
    }
  }

  predicate CleanOperands(s: seq<Expr>) {
    && (forall k :: 0 <= k < |s| ==> Clean(s[k]) && !IsYn(s[k]))
    && (forall j, k :: 0 <= j < k < |s| ==> FormOf(s[j]) != FormOf(s[k]))
  }

  lemma CleanSplit(a: seq<Expr>, b: seq<Expr>)
    requires CleanOperands(a + b)
    ensures CleanOperands(a) && CleanOperands(b)
    ensures forall j, k :: 0 <= j < |a| && 0 <= k < |b| ==> FormOf(a[j]) != FormOf(b[k])
  {
    var s := a + b;
    assert forall k :: 0 <= k < |a| ==> s[k] == a[k];
    assert forall k :: 0 <= k < |b| ==> s[|a| + k] == b[k];
  }

  lemma {:induction false} OperandsClean(t: BinOp, e: Expr)
    requires CleanOperands(Operands(t, e))
    ensures CleanIn(t, e)
    decreases e
  {
    var s := Operands(t, e);
    if IsOp(e, t) {
      CleanSplit(Operands(t, e.l), Operands(t, e.r));
      OperandsClean(t, e.l);
      OperandsClean(t, e.r);
      forall f | f in Parts(t, e.l) ensures f !in Parts(t, e.r) {
        PartsOfOperands(t, e.l, f);
        if f in Parts(t, e.r) { PartsOfOperands(t, e.r, f); }
      }
    } else {
      assert s[0] == e;
    }
  }

  lemma {:induction false} OperandOf(t: BinOp, e: Expr, k: nat)
    requires k < |Operands(t, e)|
    ensures var o := Operands(t, e)[k];
            && !IsOp(o, t) && (Normal(e) ==> Normal(o)) && (YnFree(e) ==> YnFree(o))
            && (IsOp(e, t) ==> Size(o) < Size(e)) && (IsOp(e, t) && YnFree(e) ==> !IsYn(o))
    decreases e
  {
    if IsOp(e, t) {
      var n := |Operands(t, e.l)|;
      if k < n { OperandOf(t, e.l, k); } else { OperandOf(t, e.r, k - n); }
    }
  }

  /** Normal, without duplicates, and without y and n in its chains: that is clean. */
  lemma {:induction false} NoDupsClean(e: Expr)
    requires Normal(e) && NoDups(e) && YnFree(e)
    ensures Clean(e)
    decreases Size(e)
  {
    if e.Bin? {
      var t, s := e.op, Operands(e.op, e);
      assert |s| == |Operands(t, e.l)| + |Operands(t, e.r)|;
      forall k | 0 <= k < |s| ensures Clean(s[k]) && !IsYn(s[k]) {
        OperandOf(t, e, k);
        NoDupsOperand(e, k);
        NoDupsClean(s[k]);
      }
      forall j, k | 0 <= j < k < |s| ensures FormOf(s[j]) != FormOf(s[k]) {
        NoDupsPair(e, j, k);
        ExprEqExact(s[j], s[k]);
      }
      OperandsClean(t, e);
    }
  }

  lemma {:induction false} NoDupsOperand(e: Expr, k: nat)
    requires e.Bin? && NoDups(e) && k < |Operands(e.op, e)|
    ensures NoDups(Operands(e.op, e)[k])
  {
    var p := PathAt(e.op, e, k);
    var q := PathAt(e.op, e, if k == 0 then 1 else 0);
    NoDupsMeans(e, p, q);
  }

  lemma {:induction false} NoDupsPair(e: Expr, j: nat, k: nat)
    requires e.Bin? && NoDups(e) && j < k < |Operands(e.op, e)|
    ensures !ExprEq(Operands(e.op, e)[j], Operands(e.op, e)[k])
  {
    var p := PathAt(e.op, e, j);
    var q := PathAt(e.op, e, k);
    NoDupsMeans(e, p, q);
  }

  // ----- expr_eliminate_eq on clean expressions -----

  /** An or-chain of clean operands, of which some have turned into n. */
  predicate Damped(y: Expr) {
    if IsOp(y, Or) then Damped(y.l) && Damped(y.r) else y == FALSE || (Clean(y) && !IsYn(y))
  }

  lemma {:induction false} CleanDamped(y: Expr)
    requires CleanIn(Or, y)
    ensures Damped(y)
    decreases y
  {
    if IsOp(y, Or) {
      CleanDamped(y.l);
      CleanDamped(y.r);
    }
  }

  lemma {:induction false} DampedNotTrue(y: Expr)
    requires Damped(y)
    ensures EliminateYn(y) != TRUE
    decreases y
  {
    if IsOp(y, Or) {
      DampedNotTrue(y.l);
      DampedNotTrue(y.r);
    } else if y != FALSE {
      CleanStays(y);
    }
  }

  lemma {:induction false} OrPass(x: Expr, y: Expr)
    requires Damped(y)
    ensures Damped(CancelChain(Or, x, y).1)
    decreases Size(x) + Size(y)
  {
    if IsOp(x, Or) {
      OrPass(x.l, y);
      OrPass(x.r, CancelChain(Or, x.l, y).1);
    } else if IsOp(y, Or) {
      OrPass(x, y.l);
      OrPass(CancelChain(Or, x, y.l).0, y.r);
    }
  }

  // What is no or-chain stays as it is in such a pass, or turns into n as a whole.
  lemma {:induction false} OrCancels(d: Expr, b: Expr)
    requires !IsOp(b, Or)
    ensures CancelChain(Or, d, b).1 == b || CancelChain(Or, d, b).1 == FALSE
    decreases d
  {
    if IsOp(d, Or) {
      OrCancels(d.l, b);
      OrCancels(d.r, CancelChain(Or, d.l, b).1);
    }
  }

  // What is no and-chain takes away one operand at most.
  lemma {:induction false} OneAtMost(u: Expr, y: Expr)
    requires !IsOp(u, And) && CleanIn(And, y)
    ensures CancelChain(And, u, y) == (u, y) || CancelChain(And, u, y).0 == TRUE
    ensures IsOp(y, And) ==> EliminateYn(CancelChain(And, u, y).1) != TRUE
    decreases y
  {
    if IsOp(y, And) {
      OneAtMost(u, y.l);
      ChainStays(And, y.l);
      ChainStays(And, y.r);
      if CancelChain(And, u, y.l).0 == TRUE { CancelYn(And, TRUE, y.r); } else { OneAtMost(u, y.r); }
    }
  }

  // n is never used up.
  lemma {:induction false} NoStays(t: BinOp, d: Expr)
    ensures CancelChain(t, d, FALSE).1 == FALSE
    decreases d
  {
    if IsOp(d, t) {
      NoStays(t, d.l);
      NoStays(t, d.r);
    }
  }

  // y is used up from the start.
  lemma {:induction false} YesStays(t: BinOp, d: Expr)
    ensures CancelChain(t, d, TRUE).1 == TRUE
    decreases d
  {
    if IsOp(d, t) {
      YesStays(t, d.l);
      YesStays(t, d.r);
    }
  }

  lemma {:induction false} AndPasses(d: Expr, b: Expr)
    requires IsOp(d, And) && Clean(d) && CleanIn(And, b)
    ensures EliminateEq(d, b).1 == TRUE <==> Parts(And, b) <= Parts(And, d)
  {
    var p, q := Parts(And, d), Parts(And, b);
    BlankedNothing(And, b);
    AllByForm(And, d, b, {});
    assert {} + p == p;
    BlankedRest(And, b, p);
    var (x, y) := CancelChain(And, d, b);
    if y.Bin? && !IsOp(x, y.op) {
      CleanDamped(b);
      OrPass(x, b);
      DampedNotTrue(CancelChain(Or, x, b).1);
    }
  }

  lemma {:induction false} OtherPasses(d: Expr, b: Expr)
    requires !IsOp(d, And) && CleanIn(And, b)
    ensures EliminateEq(d, b).1 != TRUE
  {
    var (d1, b1) := if d.Bin? then CancelChain(d.op, d, b) else (d, b);
    if IsOp(b, Or) {
      CleanDamped(b);
      OrPass(d, b);
      OrPass(d1, b1);
      DampedNotTrue(b1);
      DampedNotTrue(CancelChain(Or, d1, b1).1);
    } else {
      OrCancels(d, b);
      ChainStays(And, b);
      if IsOp(b1, And) { OneAtMost(d1, b1); }
    }
  }

  /** expr_eliminate_eq on clean expressions uses up the second one if and only if the first is
      an and-chain that has all its operands, up to order and bracketing. */
  lemma {:induction false} PassesExactly(d: Expr, b: Expr)
    requires Clean(d) && Clean(b) && !IsYn(b)
    ensures EliminateEq(d, b).1 == TRUE <==> IsOp(d, And) && Parts(And, b) <= Parts(And, d)
  {
    if IsOp(d, And) { AndPasses(d, b); } else { OtherPasses(d, b); }
  }

  lemma {:induction false} OperandPasses(d: Expr, b: Expr)
    requires IsOp(d, And) && Normal(d) && NoDups(d) && YnFree(d)
    requires !b.Bin? && Normal(b) && !IsYn(b) && b in Operands(And, d)
    ensures EliminateEq(d, b).1 == TRUE
  {
    NoDupsClean(d);
    PassesExactly(d, b);
    OperandInParts(d, b);
    assert Parts(And, b) == {FormOf(b)};
  }
}
