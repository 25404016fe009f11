/** Two entries that menu_finalize of tools/kconfig/menu.c judges wrongly: one that is not made a
    child of its symbol, although its condition repeats that of the parent, and one that is made
    a child, although it can be visible while its parent is not. */
module KconfigMissed {
  import opened Basics
  import opened KconfigExpr
  import opened KconfigTransform
  import opened KconfigEq
  import opened KconfigJoin
  import opened KconfigDups
  import opened KconfigMenu
  import opened KconfigTests
  import opened KconfigForms

  // A pass over (p && q) && r in which only p and q merge, into m.
  lemma {:induction false} MissedPass(p: Expr, q: Expr, r: Expr, m: Expr)
    requires !p.Bin? && !q.Bin? && !r.Bin? && !m.Bin?
    requires JoinAnd(p, q) == Some(m)
    requires JoinAnd(TRUE, r).None? && JoinAnd(m, TRUE).None? && JoinAnd(m, r).None?
    requires JoinAnd(r, TRUE).None? && JoinAnd(r, m).None?
    ensures EliminateDups1(And, Bin(And, Bin(And, p, q), r), [], []) == (Bin(And, Bin(And, TRUE, m), r), 1)
  {
    var e, f := Bin(And, Bin(And, p, q), r), Bin(And, Bin(And, TRUE, m), r);
    var ll, lr, left, right: Path := [Left, Left], [Left, Right], [Left], [Right];
    Slots(p, q, r);
    Slots(TRUE, m, r);
    assert [] + [Left] == left && [] + [Right] == right && left + [Left] == ll && left + [Right] == lr;
    FirstRow(p, q, r, m);
    LaterRows(m, r);
    SplitRows(e, left, [], f, 1);
    SplitRows(e, [], [], f, 1);
  }

  lemma {:induction false} SplitRows(e: Expr, p: Path, q: Path, f: Expr, n: nat)
    requires InChain(And, e, p) && InChain(And, e, q) && Slot(e, p) && IsOp(At(e, p), And)
    requires InChain(And, e, p + [Left]) && EliminateDups1(And, e, p + [Left], q) == (f, n)
    requires InChain(And, f, p + [Right]) && InChain(And, f, q) && EliminateDups1(And, f, p + [Right], q) == (f, 0)
    ensures EliminateDups1(And, e, p, q) == (f, n)
  {}

  lemma LaterRows(m: Expr, r: Expr)
    requires !m.Bin? && !r.Bin?
    requires JoinAnd(m, TRUE).None? && JoinAnd(m, r).None? && JoinAnd(r, TRUE).None? && JoinAnd(r, m).None?
    ensures var f := Bin(And, Bin(And, TRUE, m), r);
            && InChain(And, f, [Left, Right]) && InChain(And, f, [Right])
            && EliminateDups1(And, f, [Left, Right], []) == (f, 0) && EliminateDups1(And, f, [Right], []) == (f, 0)
  {
    var f := Bin(And, Bin(And, TRUE, m), r);
    Slots(TRUE, m, r);
    SlotIndices(TRUE, m, r);
    assert Operands(And, Bin(And, TRUE, m)) == [TRUE, m];
    assert Operands(And, f) == [TRUE, m, r];
    RowIf(f, [Left, Right], []);
    RowIf(f, [Right], []);
  }

  lemma {:induction false} FirstRow(p: Expr, q: Expr, r: Expr, m: Expr)
    requires !p.Bin? && !q.Bin? && !r.Bin? && !m.Bin?
    requires JoinAnd(p, q) == Some(m) && JoinAnd(TRUE, r).None?
    ensures InChain(And, Bin(And, Bin(And, p, q), r), [Left, Left])
    ensures EliminateDups1(And, Bin(And, Bin(And, p, q), r), [Left, Left], [])
         == (Bin(And, Bin(And, TRUE, m), r), 1)
  {
    var e, f := Bin(And, Bin(And, p, q), r), Bin(And, Bin(And, TRUE, m), r);
    var ll, lr, left, right: Path := [Left, Left], [Left, Right], [Left], [Right];
    Slots(p, q, r);
    assert [] + [Left] == left && [] + [Right] == right && left + [Left] == ll && left + [Right] == lr;
    FirstPair(p, q, r, m);
    FirstLast(m, r);
    SplitColumns(e, ll, [], f, 1);
  }

  lemma FirstLast(m: Expr, r: Expr)
    requires !m.Bin? && !r.Bin? && JoinAnd(TRUE, r).None?
    ensures var f := Bin(And, Bin(And, TRUE, m), r);
            && InChain(And, f, [Left, Left]) && InChain(And, f, [Right])
            && EliminateDups1(And, f, [Left, Left], [Right]) == (f, 0)
  {
    Slots(TRUE, m, r);
  }

  lemma {:induction false} SplitColumns(e: Expr, p: Path, q: Path, f: Expr, n: nat)
    requires Operand(And, e, p) && InChain(And, e, q) && Slot(e, q) && IsOp(At(e, q), And)
    requires InChain(And, e, q + [Left]) && EliminateDups1(And, e, p, q + [Left]) == (f, n)
    requires InChain(And, f, p) && InChain(And, f, q + [Right]) && EliminateDups1(And, f, p, q + [Right]) == (f, 0)
    ensures EliminateDups1(And, e, p, q) == (f, n)
  {}

  lemma FirstPair(p: Expr, q: Expr, r: Expr, m: Expr)
    requires !p.Bin? && !q.Bin? && !r.Bin? && !m.Bin? && JoinAnd(p, q) == Some(m)
    ensures var e := Bin(And, Bin(And, p, q), r);
            && InChain(And, e, [Left, Left]) && InChain(And, e, [Left])
            && EliminateDups1(And, e, [Left, Left], [Left]) == (Bin(And, Bin(And, TRUE, m), r), 1)
  {
    var e, f := Bin(And, Bin(And, p, q), r), Bin(And, Bin(And, TRUE, m), r);
    var ll, lr: Path := [Left, Left], [Left, Right];
    Slots(p, q, r);
    Slots(TRUE, q, r);
    assert [Left] + [Left] == ll && [Left] + [Right] == lr;
    assert Put(e, ll, TRUE) == Bin(And, Bin(And, TRUE, q), r);
    assert Merge(And, e, ll, lr, m) == f;
    assert EliminateDups1(And, e, ll, lr) == (f, 1);
    assert EliminateDups1(And, e, ll, ll) == (e, 0);
  }

  // The row of an operand that merges with none of the others.
  lemma {:induction false} RowIf(e: Expr, p: Path, q: Path)
    requires Operand(And, e, p) && InChain(And, e, q)
    requires forall o :: o in Operands(And, e) ==> !o.Bin?
    requires forall j :: 0 <= j < |Operands(And, e)| && j != Index(And, e, p) ==>
               JoinAnd(At(e, p), Operands(And, e)[j]).None?
    ensures EliminateDups1(And, e, p, q) == (e, 0)
    decreases Below(And, e, q)
  {
    InChainSlot(And, e, q);
    if IsOp(At(e, q), And) {
      InChainExtend(And, e, q, Left);
      InChainExtend(And, e, q, Right);
      RowIf(e, p, q + [Left]);
      RowIf(e, p, q + [Right]);
    } else if p != q {
      IndexPut(And, e, p, FALSE);
      IndexPut(And, e, q, FALSE);
      if Index(And, e, p) == Index(And, e, q) { IndexInjective(And, e, p, q); }
    }
  }

  // The slots of (p && q) && r.
  lemma Slots(p: Expr, q: Expr, r: Expr)
    requires !p.Bin? && !q.Bin? && !r.Bin?
    ensures var e := Bin(And, Bin(And, p, q), r);
            && InChain(And, e, [Left]) && Slot(e, [Left]) && At(e, [Left]) == Bin(And, p, q)
            && Operand(And, e, [Left, Left]) && At(e, [Left, Left]) == p
            && Operand(And, e, [Left, Right]) && At(e, [Left, Right]) == q
            && Operand(And, e, [Right]) && At(e, [Right]) == r
            && (forall x :: Put(e, [Left, Left], x) == Bin(And, Bin(And, x, q), r))
            && (forall x :: Put(e, [Left, Right], x) == Bin(And, Bin(And, p, x), r))
  {
    var e, f := Bin(And, Bin(And, p, q), r), Bin(And, p, q);
    forall x, s ensures Put(f, [s], x) == if s.Left? then Bin(And, x, q) else Bin(And, p, x) { OneStep(f, x, s); }
    forall x, s ensures Put(e, [Left, s], x) == Bin(And, Put(f, [s], x), r) {
      assert [Left, s][1..] == [s];
      OneStep(f, x, s);
    }
    OneStep(e, p, Left);
    OneStep(e, p, Right);
    OneStep(f, p, Left);
    OneStep(f, p, Right);
    assert [Left, Left][1..] == [Left] && [Left, Right][1..] == [Right];
  }

  // Their places among the operands.
  lemma SlotIndices(p: Expr, q: Expr, r: Expr)
    requires !p.Bin? && !q.Bin? && !r.Bin?
    ensures var e := Bin(And, Bin(And, p, q), r);
            && InChain(And, e, [Left, Left]) && Index(And, e, [Left, Left]) == 0
            && InChain(And, e, [Left, Right]) && Index(And, e, [Left, Right]) == 1
            && InChain(And, e, [Right]) && Index(And, e, [Right]) == 2
  {
    var e, f := Bin(And, Bin(And, p, q), r), Bin(And, p, q);
    assert [Left] + [] == [Left] && [Right] + [] == [Right];
    assert [Left] + [Left] == [Left, Left] && [Left] + [Right] == [Left, Right];
    IndexStep(f, Left, []);
    IndexStep(f, Right, []);
    IndexStep(e, Left, [Left]);
    IndexStep(e, Left, [Right]);
    IndexStep(e, Right, []);
  }

  lemma {:induction false} IndexStep(e: Expr, s: Step, p: Path)
    requires IsOp(e, And) && InChain(And, if s.Left? then e.l else e.r, p)
    ensures InChain(And, e, [s] + p)
    ensures Index(And, e, [s] + p)
         == if s.Left? then Index(And, e.l, p) else |Operands(And, e.l)| + Index(And, e.r, p)
  {
    assert ([s] + p)[0] == s && ([s] + p)[1..] == p;
  }

  lemma {:induction false} OneStep(f: Expr, x: Expr, s: Step)
    requires f.Bin?
    ensures Slot(f, [s]) && At(f, [s]) == if s.Left? then f.l else f.r
    ensures Put(f, [s], x) == if s.Left? then Bin(f.op, x, f.r) else Bin(f.op, f.l, x)
  {
    var p: Path, c := [s], if s.Left? then f.l else f.r;
    assert p[1..] == [] && p[0] == s;
    assert At(c, []) == c && Put(c, [], x) == x;
    assert At(f, p) == At(c, p[1..]);
  }

  lemma {:induction false} SettledIf(e: Expr, p: Path, q: Path)
    requires InChain(And, e, p) && InChain(And, e, q)
    requires forall o :: o in Operands(And, e) ==> !o.Bin?
    requires forall i, j :: 0 <= i < |Operands(And, e)| && 0 <= j < |Operands(And, e)| && i != j ==>
               JoinAnd(Operands(And, e)[i], Operands(And, e)[j]).None?
    ensures Settled(And, e, p, q)
    decreases Below(And, e, p)
  {
    InChainSlot(And, e, p);
    if IsOp(At(e, p), And) {
      InChainExtend(And, e, p, Left);
      InChainExtend(And, e, p, Right);
      SettledIf(e, p + [Left], q);
      SettledIf(e, p + [Right], q);
    } else {
      IndexPut(And, e, p, FALSE);
      RowIf(e, p, q);
    }
  }

  lemma MissedBase(a: Symbol)
    requires a.Config? && a.Type() == Tristate
    ensures NotNo(Some(Sym(a))) == Cmp(Ne, a, SYM_NO)
  {
    PresentTest(Sym(a));
  }

  lemma MissedJoins(a: Symbol, s: Symbol)
    requires a.Config? && s.Config? && a != s && a.Type() == Tristate && s.Type() == Tristate
    ensures var p, q, r, m := Cmp(Ne, a, SYM_NO), Cmp(Ne, a, SYM_YES), Cmp(Ne, s, SYM_YES), Cmp(Eq, a, SYM_MOD);
            && JoinAnd(p, q) == Some(m)
            && JoinAnd(TRUE, r).None? && JoinAnd(m, TRUE).None? && JoinAnd(m, r).None?
            && JoinAnd(r, TRUE).None? && JoinAnd(r, m).None?
  {
    assert "y"[0] != "n"[0];
  }

  lemma MissedEntry(a: Symbol, s: Symbol)
    requires a.Config? && s.Config? && a != s && a.Type() == Tristate && s.Type() == Tristate
    ensures NotNo(Some(Bin(And, Bin(And, Sym(a), Cmp(Ne, a, SYM_YES)), Cmp(Ne, s, SYM_YES))))
            == Bin(And, Cmp(Eq, a, SYM_MOD), Cmp(Ne, s, SYM_YES))
  {
    var p, q, r, m := Cmp(Ne, a, SYM_NO), Cmp(Ne, a, SYM_YES), Cmp(Ne, s, SYM_YES), Cmp(Eq, a, SYM_MOD);
    var dep := Bin(And, Bin(And, Sym(a), q), r);
    PresentTest(dep);
    assert Present(Bin(And, Sym(a), q)) == Bin(And, p, q) && Present(r) == r;
    MissedJoins(a, s);
    MissedFixpoint(p, q, r, m);
  }

  lemma {:induction false} MissedFixpoint(p: Expr, q: Expr, r: Expr, m: Expr)
    requires !p.Bin? && !q.Bin? && !r.Bin? && !m.Bin? && !IsYn(r) && !IsYn(m)
    requires JoinAnd(p, q) == Some(m)
    requires JoinAnd(TRUE, r).None? && JoinAnd(m, TRUE).None? && JoinAnd(m, r).None?
    requires JoinAnd(r, TRUE).None? && JoinAnd(r, m).None?
    ensures WithoutDups(Bin(And, Bin(And, p, q), r)) == Bin(And, m, r)
  {
    var e, d := Bin(And, Bin(And, p, q), r), Bin(And, m, r);
    MissedPass(p, q, r, m);
    RoundOf(e);
    assert EliminateYn(Bin(And, TRUE, m)) == m;
    assert EliminateYn(Bin(And, Bin(And, TRUE, m), r)) == d;
    assert Operands(And, d) == [m, r];
    SettledIf(d, [], []);
  }

  /** The parent's prompt depends on a, the entry on a as well, on a being not y, and on s: its
      condition has the parent's as an operand and is never above it, and cancelling the bare
      conditions shows that. But as tests, "a is not n" and "a is not y" have become one, and
      the entry is not made a child of the symbol s. */
  lemma {:induction false} SubmenuMissed(a: Symbol, s: Symbol)
    requires a.Config? && s.Config? && a != s && a.Type() == Tristate && s.Type() == Tristate
    ensures var base, dep := Sym(a), Bin(And, Bin(And, Sym(a), Cmp(Ne, a, SYM_YES)), Cmp(Ne, s, SYM_YES));
            && Normal(base) && Normal(dep) && NoDups(dep) && ContainsSymbol(dep, s) && base in Operands(And, dep)
            && EliminateEq(dep, base).1 == TRUE
            && !Accepted(Some(base), Some(dep), s)
  {
    MissedBare(a, s);
    MissedTest(a, s);
    MissedDepends(a, s);
  }

  // The bare conditions.
  lemma MissedBare(a: Symbol, s: Symbol)
    requires a.Config? && s.Config? && a != s && a.Type() == Tristate && s.Type() == Tristate
    ensures var base, dep := Sym(a), Bin(And, Bin(And, Sym(a), Cmp(Ne, a, SYM_YES)), Cmp(Ne, s, SYM_YES));
            && Normal(base) && Normal(dep) && NoDups(dep) && base in Operands(And, dep)
            && EliminateEq(dep, base).1 == TRUE
  {
    assert "y"[0] != "n"[0];
    MissedConditions(Sym(a), Cmp(Ne, a, SYM_YES), Cmp(Ne, s, SYM_YES));
  }

  // The conditions made two-valued.
  lemma MissedTest(a: Symbol, s: Symbol)
    requires a.Config? && s.Config? && a != s && a.Type() == Tristate && s.Type() == Tristate
    ensures var base, dep := Sym(a), Bin(And, Bin(And, Sym(a), Cmp(Ne, a, SYM_YES)), Cmp(Ne, s, SYM_YES));
            EliminateEq(NotNo(Some(dep)), NotNo(Some(base))).1 != TRUE
  {
    MissedBase(a);
    MissedEntry(a, s);
    MissedCancel(Cmp(Eq, a, SYM_MOD), Cmp(Ne, s, SYM_YES), Cmp(Ne, a, SYM_NO));
  }

  lemma {:induction false} MissedDepends(a: Symbol, s: Symbol)
    requires a.Config? && s.Config? && a != s
    ensures var dep := Bin(And, Bin(And, Sym(a), Cmp(Ne, a, SYM_YES)), Cmp(Ne, s, SYM_YES));
            ContainsSymbol(dep, s) && !DependsSymbol(dep, s)
  {
    assert "y"[0] != "n"[0];
    assert !DependsSymbol(Bin(And, Sym(a), Cmp(Ne, a, SYM_YES)), s) && !DependsSymbol(Cmp(Ne, s, SYM_YES), s);
  }

  lemma {:induction false} MissedConditions(base: Expr, q: Expr, r: Expr)
    requires Normal(base) && Normal(q) && Normal(r) && !base.Bin? && !q.Bin? && !r.Bin?
    requires !IsYn(base) && !IsYn(q) && !IsYn(r)
    requires JoinAnd(base, q).None? && JoinAnd(q, base).None? && JoinAnd(base, r).None? && JoinAnd(r, base).None?
    requires JoinAnd(q, r).None? && JoinAnd(r, q).None?
    ensures var dep := Bin(And, Bin(And, base, q), r);
            NoDups(dep) && base in Operands(And, dep) && EliminateEq(dep, base).1 == TRUE
  {
    var dep := Bin(And, Bin(And, base, q), r);
    assert Operands(And, Bin(And, base, q)) == [base, q];
    assert Operands(And, dep) == [base, q, r];
    SettledIf(dep, [], []);
    OperandPasses(dep, base);
  }

  lemma {:induction false} MissedCancel(m: Expr, r: Expr, b: Expr)
    requires m.Cmp? && r.Cmp? && b.Cmp? && !ExprEq(m, b) && !ExprEq(r, b)
    ensures EliminateEq(Bin(And, m, r), b).1 == b
  {
    assert CancelChain(And, m, b) == (m, b);
    assert CancelChain(And, r, b) == (r, b);
    assert CancelChain(And, Bin(And, m, r), b) == (Bin(And, m, r), b);
  }

  // ----- an entry that is visible without its parent -----

  // Two tests of different symbols do not merge, and pass against one of them.
  lemma {:induction false} TwoTests(p: Expr, q: Expr)
    requires p.Cmp? && q.Cmp? && Normal(p) && Normal(q)
    requires JoinAnd(p, q).None? && JoinAnd(q, p).None?
    ensures WithoutDups(Bin(And, p, q)) == Bin(And, p, q) && WithoutDups(p) == p
    ensures EliminateEq(Bin(And, p, q), p).1 == TRUE
  {
    var d := Bin(And, p, q);
    assert Operands(And, d) == [p, q];
    SettledIf(d, [], []);
    OperandPasses(d, p);
  }

  /** The parent's prompt depends on a being n, the entry on !a and on s not being y. With a at m
      the entry is visible, and neither is the parent nor is s set. */
  lemma SubmenuUnsafe(a: Symbol, s: Symbol)
    requires a.Config? && s.Config? && a != s && a.Type() == Tristate && s.Type() == Tristate
    ensures var base, dep := Cmp(Eq, a, SYM_NO), Bin(And, Not(Sym(a)), Cmp(Ne, s, SYM_YES));
            var env := OnlyMod(a);
            && Normal(base) && Normal(dep) && Accepted(Some(base), Some(dep), s) && WellFormed(env)
            && Value(dep, env) == MOD && Value(base, env) == NO && env.tri(s) == NO
  {
    UnsafeAccepted(a, s);
    UnsafeValues(a, s);
  }

  lemma UnsafeAccepted(a: Symbol, s: Symbol)
    requires a.Config? && s.Config? && a != s && a.Type() == Tristate && s.Type() == Tristate
    ensures Accepted(Some(Cmp(Eq, a, SYM_NO)), Some(Bin(And, Not(Sym(a)), Cmp(Ne, s, SYM_YES))), s)
  {
    var base, q := Cmp(Eq, a, SYM_NO), Cmp(Ne, s, SYM_YES);
    var dep := Bin(And, Not(Sym(a)), q);
    PresentTest(base);
    PresentTest(dep);
    assert Present(dep) == Bin(And, base, q);
    TwoTests(base, q);
  }

  lemma {:induction false} UnsafeValues(a: Symbol, s: Symbol)
    requires a.Config? && s.Config? && a != s && a.Type() == Tristate && s.Type() == Tristate
    ensures var env := OnlyMod(a);
            && WellFormed(env) && Value(Cmp(Eq, a, SYM_NO), env) == NO && Value(Not(Sym(a)), env) == MOD
            && Value(Cmp(Ne, s, SYM_YES), env) == YES && env.tri(s) == NO
  {
    assert "y"[0] != "n"[0] && "m"[0] != "n"[0] && "y"[0] != "m"[0];
    CompareTri(OnlyMod(a), Eq, a, "n");
    CompareTri(OnlyMod(a), Ne, s, "y");
  }

  /** Symbol a is m, all others are n. */
  function OnlyMod(a: Symbol): Env {
    Env((x: Symbol) => if x == SYM_YES then YES else if x == SYM_MOD || x == a then MOD else NO,
        (x: Symbol) => if x.Const? then x.name else if x == a then "m" else "n",
        (x, base) => None, (x, base) => None)
  }
}
