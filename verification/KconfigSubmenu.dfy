/** What the submenu test of menu_finalize in tools/kconfig/menu.c accepts: the other half of
    KconfigMenu, which shows what acceptance means. */
module KconfigSubmenu {
  import opened Basics
  import opened KconfigExpr
  import opened KconfigTransform
  import opened KconfigEq
  import opened KconfigJoin
  import opened KconfigDups
  import opened KconfigMenu
  import opened KconfigTests
  import opened KconfigForms

  // ----- operands of a chain -----

  lemma {:induction false} TameOperands(e: Expr, x: Expr)
    requires IsTest(x)
    ensures Tame(e, x) <==> forall o :: o in Operands(And, e) ==> Tame(o, x)
    decreases e
  {
    if IsOp(e, And) {
      TameOperands(e.l, x);
      TameOperands(e.r, x);
    } else {
      assert e in Operands(And, e);
    }
  }

  /** Every operand of base is a test, is an operand of dep as well, and is all that dep says
      about its symbol. */
  ghost predicate Repeats(dep: Expr, base: Expr) {
    forall x :: x in Operands(And, base) ==> IsTest(x) && x in Operands(And, dep) && Tame(dep, x)
  }

  lemma {:induction false} PresentKeeps(e: Expr, base: Expr, only: bool)
    requires Normal(e) && Normal(base) && Repeats(e, base) && (only ==> e == base)
    ensures Keeps(Present(e), Operands(And, Present(base)), only)
  {
    var xs, ys := Operands(And, base), Operands(And, Present(base));
    PresentNormal(e);
    PresentOperands(e);
    PresentOperands(base);
    forall y | y in ys ensures IsTest(y) && Normal(y) && Tame(Present(e), y) && y in Operands(And, Present(e)) {
      var i :| 0 <= i < |ys| && ys[i] == y;
      assert xs[i] in xs;
      PresentTame(e, xs[i]);
      PresentNormal(xs[i]);
      var j :| 0 <= j < |Operands(And, e)| && Operands(And, e)[j] == xs[i];
      assert Operands(And, Present(e))[j] == y;
    }
  }

  lemma {:induction false} NotNoKeeps(e: Expr, base: Expr, only: bool)
    requires Normal(e) && Normal(base) && Repeats(e, base) && (only ==> e == base)
    ensures Keeps(NotNo(Some(e)), Operands(And, Present(base)), only) || (NotNo(Some(e)) == FALSE && !only)
  {
    PresentTest(e);
    PresentKeeps(e, base, only);
    DupsKeep(Present(e), Operands(And, Present(base)), only);
  }

  lemma RepeatsItself(dep: Expr, base: Expr)
    requires Repeats(dep, base)
    ensures Repeats(base, base)
  {
    forall x | x in Operands(And, base) ensures Tame(base, x) {
      TameOperands(dep, x);
      TameOperands(base, x);
    }
  }

  lemma {:induction false} YnFreeOperands(e: Expr)
    requires e.Bin? && YnFree(e)
    ensures forall o :: o in Operands(And, e) ==> !IsYn(o)
  {
    if IsOp(e, And) {
      if e.l.Bin? { YnFreeOperands(e.l); }
      if e.r.Bin? { YnFreeOperands(e.r); }
    }
  }

  /** The two-valued form of the parent's condition: some of its tests and nothing else. */
  lemma {:induction false} BaseTests(base: Expr)
    requires Normal(base) && Repeats(base, base)
    ensures var b := NotNo(Some(base));
            forall o :: o in Operands(And, b) ==> IsTest(o) && o in Operands(And, Present(base))
  {
    var b, ys := NotNo(Some(base)), Operands(And, Present(base));
    NotNoKeeps(base, base, true);
    PresentTest(base);
    PresentKeeps(base, base, true);
    assert ys[0] in ys;
    if b.Bin? {
      if b != Present(base) { YnFreeOperands(b); }
    } else {
      assert Operands(And, b) == [b];
    }
    forall o | o in Operands(And, b) ensures o in ys {
      if b == Present(base) { assert o in ys; } else if b.Bin? { assert o != TRUE; } else { assert b == ys[0]; }
    }
  }

  // ----- which entries are found -----

  lemma {:induction false} PresentYnFree(e: Expr)
    requires Normal(e)
    ensures YnFree(Present(e)) && !IsYn(Present(e))
  {
    if e.Bin? {
      PresentYnFree(e.l);
      PresentYnFree(e.r);
    }
  }

  /** The two-valued form of a normal condition is clean. */
  lemma NotNoClean(e: Option<Expr>)
    requires OptNormal(e)
    ensures Clean(NotNo(e))
  {
    if e.Some? {
      PresentTest(e.value);
      PresentYnFree(e.value);
      PresentNormal(e.value);
      NoDupsClean(NotNo(e));
    } else {
      NotNoNull();
    }
  }

  lemma NotNoNull()
    ensures NotNo(None) == TRUE
  {
    assert Transform(Not(Sym(SYM_NO))) == TRUE;
  }

  /** Operands that cannot be anything but n while s is n: s itself, s = y, s = m and s != n. */
  predicate NeedsSymbol(o: Expr, s: Symbol) {
    o in {Sym(s), Cmp(Eq, s, SYM_YES), Cmp(Eq, s, SYM_MOD), Cmp(Ne, s, SYM_NO)}
  }

  /** expr_depends_symbol finds exactly the conjunctions with such an operand. */
  lemma {:induction false} DependsOperand(e: Expr, s: Symbol)
    ensures DependsSymbol(e, s) <==> exists o :: o in Operands(And, e) && NeedsSymbol(o, s)
    decreases e
  {
    if IsOp(e, And) {
      DependsOperand(e.l, s);
      DependsOperand(e.r, s);
      assert forall o :: o in Operands(And, e) <==> o in Operands(And, e.l) || o in Operands(And, e.r);
    } else {
      assert e in Operands(And, e);
    }
  }

  /** Which entries are found: those that contain the symbol and need it, or whose two-valued
      condition is a conjunction with all the operands of the parent's, up to order and
      bracketing. A parent's condition that comes out as y is in every entry, n is in none. */
  lemma {:induction false} SubmenuExact(base: Option<Expr>, dep: Option<Expr>, sym: Symbol)
    requires OptNormal(base) && OptNormal(dep)
    ensures var b, d := NotNo(base), NotNo(dep);
            Accepted(base, dep, sym)
            <==> dep.Some? && ContainsSymbol(dep.value, sym)
                 && (|| (exists o :: o in Operands(And, dep.value) && NeedsSymbol(o, sym))
                     || b == TRUE
                     || (b != FALSE && IsOp(d, And) && Parts(And, b) <= Parts(And, d)))
  {
    var b, d := NotNo(base), NotNo(dep);
    if dep.Some? { DependsOperand(dep.value, sym); }
    NotNoClean(base);
    NotNoClean(dep);
    if b == TRUE {
      if d.Bin? { YesStays(d.op, d); }
    } else if b == FALSE {
      if d.Bin? { NoStays(d.op, d); }
    } else {
      PassesExactly(d, b);
    }
  }

  /** For an entry that repeats the parent's condition, and says no more about its symbols, the
      condition of the entry alone decides: an operand needs the symbol, or it stays a conjunction
      when it is made two-valued. */
  lemma {:induction false} SubmenuComplete(base: Expr, dep: Expr, sym: Symbol)
    requires Normal(base) && Normal(dep) && Repeats(dep, base) && ContainsSymbol(dep, sym)
    ensures Accepted(Some(base), Some(dep), sym)
            <==> (exists o :: o in Operands(And, dep) && NeedsSymbol(o, sym)) || IsOp(NotNo(Some(dep)), And)
  {
    var b, d := NotNo(Some(base)), NotNo(Some(dep));
    SubmenuExact(Some(base), Some(dep), sym);
    RepeatsItself(dep, base);
    BaseTests(base);
    NotNoKeeps(dep, base, false);
    assert |Operands(And, b)| >= 1 && Operands(And, b)[0] in Operands(And, b);
    if IsOp(d, And) { OperandsParts(b, d); }
  }

  /** Without a condition of the parent's prompt every entry with the symbol is accepted. */
  lemma {:induction false} SubmenuNoCondition(dep: Expr, sym: Symbol)
    requires ContainsSymbol(dep, sym)
    ensures Accepted(None, Some(dep), sym)
  {
    var d := NotNo(Some(dep));
    NotNoNull();
    if d.Bin? { YesStays(d.op, d); }
  }
}
