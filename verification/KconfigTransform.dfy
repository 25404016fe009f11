/** expr_transform, expr_trans_bool, expr_trans_compare and the two symbol searches of
    tools/kconfig/expr.c, on expression values. */
module KconfigTransform {
  import opened Basics
  import opened KconfigExpr

  /** Termination measure of expr_transform. De Morgan's step feeds its own, longer
      output back to the function, but a negation weighs more the higher it stands. */
  function Weight(e: Expr): nat {
    match e
    case Sym(_) => 1
    case Cmp(_, _, _) => 3
    case Not(x) => 1 + 2 * Weight(x)
    case Bin(_, l, r) => 2 + Weight(l) + Weight(r)
  }

  lemma {:induction false} DeMorganWeight(op: BinOp, l: Expr, r: Expr)
    ensures Weight(Bin(op.Dual(), Not(l), Not(r))) < Weight(Not(Bin(op, l, r)))
  {
    assert Weight(Not(l)) == 1 + 2 * Weight(l) && Weight(Not(r)) == 1 + 2 * Weight(r);
  }

  function TransformCmp(rel: Rel, a: Symbol, b: Symbol): (r: Expr)
    ensures Weight(r) <= 3
  {
    if a.Type() != Boolean || rel.Ordered() then Cmp(rel, a, b)
    else if b == SYM_NO then (if rel.Eq? then Not(Sym(a)) else Sym(a))
    else if b == SYM_MOD then (if rel.Eq? then FALSE else TRUE)
    else if b == SYM_YES then (if rel.Eq? then Sym(a) else Not(Sym(a)))
    else Cmp(rel, a, b)
  }

  function Transform(e: Expr): (r: Expr)
    ensures Weight(r) <= Weight(e)
    decreases Weight(e)
  {
    match e
    case Sym(_) => e
    case Cmp(rel, a, b) => TransformCmp(rel, a, b)
    case Bin(op, l, r) => Bin(op, Transform(l), Transform(r))
    case Not(x) =>
      var x' := Transform(x);
      match x'
      case Not(y) => Transform(y)
      case Cmp(rel, a, b) => Cmp(rel.Negate(), a, b)
      case Bin(op, l, r) =>
        DeMorganWeight(op, l, r);
        Transform(Bin(op.Dual(), Not(l), Not(r)))
      case Sym(s) =>
        if s == SYM_YES then FALSE
        else if s == SYM_MOD then Sym(SYM_MOD)
        else if s == SYM_NO then TRUE
        else Not(x')
  }

  /** Negation normal form: negation only of non-constant symbols, and no boolean
      symbol tested against y, m or n. */
  predicate Normal(e: Expr) {
    match e
    case Sym(_) => true
    case Cmp(rel, a, b) => a.Type() == Boolean && !rel.Ordered() ==> !IsTriConst(b)
    case Not(x) => x.Sym? && !IsTriConst(x.s)
    case Bin(_, l, r) => Normal(l) && Normal(r)
  }

  /** Every ordered comparison in e has comparable operands. */
  predicate Comparable(e: Expr, env: Env) {
    match e
    case Sym(_) => true
    case Cmp(rel, a, b) => Compare(env, rel, a, b).Some?
    case Not(x) => Comparable(x, env)
    case Bin(_, l, r) => Comparable(l, env) && Comparable(r, env)
  }

  lemma {:induction false} TransformNormal(e: Expr)
    ensures Normal(Transform(e))
    decreases Weight(e)
  {
    match e
    case Sym(_) =>
    case Cmp(_, _, _) =>
    case Bin(_, l, r) => TransformNormal(l); TransformNormal(r);
    case Not(x) =>
      TransformNormal(x);
      match Transform(x)
      case Not(y) => TransformNormal(y);
      case Bin(op, l, r) =>
        DeMorganWeight(op, l, r);
        TransformNormal(Bin(op.Dual(), Not(l), Not(r)));
      case Sym(_) =>
      case Cmp(_, _, _) =>
  }

  lemma {:induction false} TransformOfNormal(e: Expr)
    requires Normal(e)
    ensures Transform(e) == e
  {
    match e
    case Bin(_, l, r) => TransformOfNormal(l); TransformOfNormal(r);
    case Sym(_) =>
    case Not(_) =>
    case Cmp(_, _, _) =>
  }

  lemma {:induction false} TransformIdempotent(e: Expr)
    ensures Transform(Transform(e)) == Transform(e)
  {
    TransformNormal(e);
    TransformOfNormal(Transform(e));
  }

  lemma {:induction false} TransformCmpValue(rel: Rel, a: Symbol, b: Symbol, env: Env)
    requires WellFormed(env)
    requires Comparable(Cmp(rel, a, b), env)
    ensures Value(TransformCmp(rel, a, b), env) == Value(Cmp(rel, a, b), env)
    ensures Comparable(TransformCmp(rel, a, b), env)
  {
    if a.Type() == Boolean && IsTriConst(b) {
      CompareTri(env, rel, a, b.name);
      assert env.tri(Config(a.id, a.typ)) != MOD;
    }
  }

  /** expr_transform keeps the value in every well-formed environment in which the
      ordered comparisons of e make sense. */
  lemma {:induction false} TransformValue(e: Expr, env: Env)
    requires WellFormed(env) && Comparable(e, env)
    ensures Value(Transform(e), env) == Value(e, env)
    ensures Comparable(Transform(e), env)
    decreases Weight(e)
  {
    match e
    case Sym(_) =>
    case Cmp(rel, a, b) => TransformCmpValue(rel, a, b, env);
    case Bin(_, l, r) => TransformValue(l, env); TransformValue(r, env);
    case Not(x) =>
      TransformValue(x, env);
      match Transform(x)
      case Not(y) => TransformValue(y, env);
      case Bin(op, l, r) =>
        DeMorganWeight(op, l, r);
        TransformValue(Bin(op.Dual(), Not(l), Not(r)), env);
      case Sym(_) =>
      case Cmp(rel, a, b) => assert Compare(env, rel.Negate(), a, b) == Compare(env, rel, a, b);
  }

  /** Incomparable operands are the exact obstacle at the place where it arises: negating
      a comparison keeps its value if and only if its operands can be compared. */
  lemma {:induction false} NegatedComparison(rel: Rel, a: Symbol, b: Symbol, env: Env)
    requires WellFormed(env) && rel.Ordered()
    ensures Transform(Not(Cmp(rel, a, b))) == Cmp(rel.Negate(), a, b)
    ensures Value(Transform(Not(Cmp(rel, a, b))), env) == Value(Not(Cmp(rel, a, b)), env)
            <==> Compare(env, rel, a, b).Some?
  {
    assert Compare(env, rel.Negate(), a, b) == Compare(env, rel, a, b);
  }

  // ----- expr_trans_bool -----

  function TransBool(e: Expr): Expr {
    match e
    case Bin(op, l, r) => Bin(op, TransBool(l), TransBool(r))
    case Not(x) => Not(TransBool(x))
    case Cmp(rel, a, b) =>
      if rel.Ne? && a.Type() == Tristate && b == SYM_NO then Sym(a) else e
    case Sym(_) => e
  }

  /** Negations stand over symbols only. */
  predicate NotsOnSymbols(e: Expr) {
    match e
    case Not(x) => x.Sym?
    case Bin(_, l, r) => NotsOnSymbols(l) && NotsOnSymbols(r)
    case Sym(_) => true
    case Cmp(_, _, _) => true
  }

  lemma {:induction false} NormalNots(e: Expr)
    requires Normal(e)
    ensures NotsOnSymbols(e)
  {
    match e
    case Bin(_, l, r) => NormalNots(l); NormalNots(r);
    case Sym(_) =>
    case Not(_) =>
    case Cmp(_, _, _) =>
  }

  /** Below negation normal form expr_trans_bool may lower a value from y to m, never from or
      to n: an entry is visible afterwards exactly when it was before. */
  lemma {:induction false} TransBoolVisibility(e: Expr, env: Env)
    requires WellFormed(env) && NotsOnSymbols(e)
    ensures Value(TransBool(e), env) != NO <==> Value(e, env) != NO
    ensures Value(TransBool(e), env) <= Value(e, env)
  {
    match e
    case Bin(_, l, r) => TransBoolVisibility(l, env); TransBoolVisibility(r, env);
    case Cmp(rel, a, b) =>
      if rel.Ne? && a.Type() == Tristate && b == SYM_NO {
        CompareTri(env, rel, a, "n");
      }
    case Sym(_) =>
    case Not(_) =>
  }

  lemma {:induction false} TransBoolNormal(e: Expr)
    requires Normal(e)
    ensures Normal(TransBool(e))
  {
    match e
    case Bin(_, l, r) => TransBoolNormal(l); TransBoolNormal(r);
    case Sym(_) =>
    case Not(_) =>
    case Cmp(_, _, _) =>
  }

  /** A test that a tristate symbol is not n. */
  predicate NotNoTest(e: Expr) {
    e.Cmp? && e.rel.Ne? && e.a.Type() == Tristate && e.b == SYM_NO
  }

  /** No such test stands at any depth of e. */
  predicate TestFree(e: Expr) {
    match e
    case Bin(_, l, r) => TestFree(l) && TestFree(r)
    case Not(x) => TestFree(x)
    case _ => !NotNoTest(e)
  }

  /** The value of e if each such test had the value of its symbol. */
  ghost function ValueOfSymbols(e: Expr, env: Env): Tri {
    match e
    case Bin(op, l, r) => op.Apply(ValueOfSymbols(l, env), ValueOfSymbols(r, env))
    case Not(x) => 2 - ValueOfSymbols(x, env)
    case _ => if NotNoTest(e) then env.tri(e.a) else Value(e, env)
  }

  /** expr_trans_bool leaves no test "is not n" of a tristate symbol at any depth, changes an
      expression exactly when there was one, and gives each the value of its symbol. */
  lemma {:induction false} TransBoolExact(e: Expr, env: Env)
    ensures TestFree(TransBool(e))
    ensures TransBool(e) == e <==> TestFree(e)
    ensures Value(TransBool(e), env) == ValueOfSymbols(e, env)
  {
    match e
    case Bin(_, l, r) => TransBoolExact(l, env); TransBoolExact(r, env);
    case Not(x) => TransBoolExact(x, env);
    case Sym(_) =>
    case Cmp(_, _, _) =>
  }

  /** No symbol of such a test is m. */
  predicate TestsTwoValued(e: Expr, env: Env) {
    match e
    case Bin(_, l, r) => TestsTwoValued(l, env) && TestsTwoValued(r, env)
    case Not(x) => TestsTwoValued(x, env)
    case _ => NotNoTest(e) ==> env.tri(e.a) != MOD
  }

  /** So the value is kept whenever no tested symbol is m. */
  lemma {:induction false} TransBoolKeeps(e: Expr, env: Env)
    requires WellFormed(env) && TestsTwoValued(e, env)
    ensures Value(TransBool(e), env) == Value(e, env)
  {
    match e
    case Bin(_, l, r) => TransBoolKeeps(l, env); TransBoolKeeps(r, env);
    case Not(x) => TransBoolKeeps(x, env);
    case Sym(_) =>
    case Cmp(rel, a, b) => if NotNoTest(e) { CompareTri(env, rel, a, "n"); }
  }

  /** The value itself is not kept, and with a negation above the test not even visibility. */
  lemma {:induction false} TransBoolLimits(a: Symbol, env: Env)
    requires WellFormed(env) && a.Type() == Tristate
    ensures Value(TransBool(Cmp(Ne, a, SYM_NO)), env) == Value(Cmp(Ne, a, SYM_NO), env)
            <==> env.tri(a) != MOD
    ensures (Value(TransBool(Not(Cmp(Ne, a, SYM_NO))), env) != NO
             <==> Value(Not(Cmp(Ne, a, SYM_NO)), env) != NO)
            <==> env.tri(a) != MOD
  {
    CompareTri(env, Ne, a, "n");
  }

  // ----- expr_trans_compare -----

  /** expr_trans_compare for comparison type Eq or Ne and the constants y and n;
      a NULL expression is None. */
  function TransCompare(e: Expr, eq: bool, yes: bool): Expr
    decreases e
  {
    var c := if yes then SYM_YES else SYM_NO;
    match e
    case Bin(op, l, r) =>
      var b := Bin(if yes then op else op.Dual(),
                   TransCompare(l, true, yes), TransCompare(r, true, yes));
      if eq then b else Not(b)
    case Not(x) => TransCompare(x, !eq, yes)
    case Cmp(_, _, _) => if eq == yes then e else Not(e)
    case Sym(s) => Cmp(if eq then Eq else Ne, s, c)
  }

  function TransCompareOpt(e: Option<Expr>, eq: bool, yes: bool): Expr {
    match e
    case Some(x) => TransCompare(x, eq, yes)
    case None =>
      var c := Sym(if yes then SYM_YES else SYM_NO);
      if eq then c else Not(c)
  }

  predicate TriSymbol(s: Symbol) {
    s.Type() == Boolean || s.Type() == Tristate || IsTriConst(s)
  }

  /** Bare leaves are bool or tristate symbols or the constants y, m, n. */
  predicate TriLeaves(e: Expr) {
    match e
    case Sym(s) => TriSymbol(s)
    case Not(x) => TriLeaves(x)
    case Bin(_, l, r) => TriLeaves(l) && TriLeaves(r)
    case Cmp(_, _, _) => true
  }

  /** No negated subexpression is m. */
  predicate TwoValuedNots(e: Expr, env: Env) {
    match e
    case Not(x) => Value(x, env) != MOD && TwoValuedNots(x, env)
    case Bin(_, l, r) => TwoValuedNots(l, env) && TwoValuedNots(r, env)
    case Sym(_) => true
    case Cmp(_, _, _) => true
  }

  lemma {:induction false} TriSymbolCompare(s: Symbol, rel: Rel, c: Symbol, env: Env)
    requires WellFormed(env) && TriSymbol(s) && IsTriConst(c) && !rel.Ordered()
    ensures Value(Cmp(rel, s, c), env) == if rel.Holds(env.tri(s) - env.tri(c)) then YES else NO
  {
    if s.Config? {
      CompareTri(env, rel, s, c.name);
    } else {
      assert env.strtoll(TriStr(env.tri(s)), 0) == None;
      assert env.strtoll(TriStr(env.tri(c)), 0) == None;
    }
  }

  /** The result is y exactly when the comparison of e's value with y or n holds. */
  lemma {:induction false} TransCompareValue(e: Expr, eq: bool, yes: bool, env: Env)
    requires WellFormed(env) && TriLeaves(e) && TwoValuedNots(e, env)
    ensures Value(TransCompare(e, eq, yes), env)
            == if eq == (Value(e, env) == if yes then YES else NO) then YES else NO
  {
    match e
    case Bin(_, l, r) => TransCompareValue(l, true, yes, env); TransCompareValue(r, true, yes, env);
    case Not(x) => TransCompareValue(x, !eq, yes, env);
    case Sym(s) => TriSymbolCompare(s, if eq then Eq else Ne, if yes then SYM_YES else SYM_NO, env);
    case Cmp(_, _, _) =>
  }

  lemma {:induction false} TransCompareOptValue(e: Option<Expr>, eq: bool, yes: bool, env: Env)
    requires WellFormed(env)
    requires e.Some? ==> TriLeaves(e.value) && TwoValuedNots(e.value, env)
    ensures Value(TransCompareOpt(e, eq, yes), env)
            == if eq == (OptValue(e, env) == if yes then YES else NO) then YES else NO
  {
    if e.Some? {
      TransCompareValue(e.value, eq, yes, env);
    }
  }

  /** Why negations must be two-valued: a negated symbol passes if and only if it is not m. */
  lemma {:induction false} TransCompareOfNot(s: Symbol, eq: bool, yes: bool, env: Env)
    requires WellFormed(env) && TriSymbol(s)
    ensures Value(TransCompare(Not(Sym(s)), eq, yes), env)
            == (if eq == (Value(Not(Sym(s)), env) == if yes then YES else NO) then YES else NO)
            <==> env.tri(s) != MOD
  {
    TriSymbolCompare(s, if eq then Ne else Eq, if yes then SYM_YES else SYM_NO, env);
  }

  lemma {:induction false} TransCompareComparable(e: Expr, eq: bool, yes: bool, env: Env)
    requires Comparable(e, env)
    ensures Comparable(TransCompare(e, eq, yes), env)
  {
    match e
    case Bin(_, l, r) =>
      TransCompareComparable(l, true, yes, env);
      TransCompareComparable(r, true, yes, env);
    case Not(x) => TransCompareComparable(x, !eq, yes, env);
    case Sym(_) =>
    case Cmp(_, _, _) =>
  }

  // ----- expr_contains_symbol, expr_depends_symbol -----

  predicate ContainsSymbol(e: Expr, s: Symbol) {
    match e
    case Bin(_, l, r) => ContainsSymbol(l, s) || ContainsSymbol(r, s)
    case Sym(x) => x == s
    case Cmp(_, a, b) => a == s || b == s
    case Not(x) => ContainsSymbol(x, s)
  }

  /** e with symbol s replaced by t. */
  function Renamed(e: Expr, s: Symbol, t: Symbol): Expr {
    match e
    case Bin(op, l, r) => Bin(op, Renamed(l, s, t), Renamed(r, s, t))
    case Not(x) => Not(Renamed(x, s, t))
    case Sym(x) => Sym(if x == s then t else x)
    case Cmp(rel, a, b) => Cmp(rel, if a == s then t else a, if b == s then t else b)
  }

  /** An expression contains s if and only if putting another symbol for s changes it. */
  lemma {:induction false} ContainsRenamed(e: Expr, s: Symbol, t: Symbol)
    requires t != s
    ensures ContainsSymbol(e, s) <==> Renamed(e, s, t) != e
  {
    match e
    case Bin(_, l, r) => ContainsRenamed(l, s, t); ContainsRenamed(r, s, t);
    case Not(x) => ContainsRenamed(x, s, t);
    case Sym(_) =>
    case Cmp(_, _, _) =>
  }

  predicate DependsSymbol(e: Expr, s: Symbol) {
    match e
    case Bin(op, l, r) => op.And? && (DependsSymbol(l, s) || DependsSymbol(r, s))
    case Sym(x) => x == s
    case Cmp(rel, a, b) =>
      a == s && ((rel.Eq? && (b == SYM_YES || b == SYM_MOD)) || (rel.Ne? && b == SYM_NO))
    case Not(_) => false
  }

  /** A true answer of expr_depends_symbol is a real implication between values. */
  lemma {:induction false} DependsSymbolImplies(e: Expr, s: Symbol, env: Env)
    requires WellFormed(env) && TriSymbol(s) && DependsSymbol(e, s)
    requires Value(e, env) != NO
    ensures env.tri(s) != NO
    ensures ContainsSymbol(e, s)
  {
    match e
    case Bin(_, l, r) =>
      if DependsSymbol(l, s) { DependsSymbolImplies(l, s, env); } else { DependsSymbolImplies(r, s, env); }
    case Cmp(rel, a, b) => TriSymbolCompare(a, rel, b, env);
    case Sym(_) =>
  }

  /** Symbols that e does not contain have no influence on its value. */
  lemma {:induction false} ContainsSymbolFrame(e: Expr, s: Symbol, env: Env, env': Env)
    requires !ContainsSymbol(e, s)
    requires env'.strtoll == env.strtoll && env'.strtoull == env.strtoull
    requires forall x :: x != s ==> env'.tri(x) == env.tri(x) && env'.str(x) == env.str(x)
    ensures Value(e, env') == Value(e, env)
  {
    match e
    case Bin(_, l, r) => ContainsSymbolFrame(l, s, env, env'); ContainsSymbolFrame(r, s, env, env');
    case Not(x) => ContainsSymbolFrame(x, s, env, env');
    case Sym(_) =>
    case Cmp(_, _, _) =>
  }

  lemma {:induction false} DependsContains(e: Expr, s: Symbol)
    requires DependsSymbol(e, s)
    ensures ContainsSymbol(e, s)
  {
    if e.Bin? {
      if DependsSymbol(e.l, s) { DependsContains(e.l, s); } else { DependsContains(e.r, s); }
    }
  }
}
