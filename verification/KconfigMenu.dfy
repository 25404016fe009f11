/** The contexts in which menu_finalize of tools/kconfig/menu.c runs the expression passes. */
module KconfigMenu {
  import opened Basics
  import opened KconfigExpr
  import opened KconfigTransform
  import opened KconfigEq
  import opened KconfigDups
  import opened KconfigTests

  function AllocAnd(x: Option<Expr>, y: Option<Expr>): Option<Expr> {
    if x.None? then y else if y.None? then x else Some(Bin(And, x.value, y.value))
  }

  predicate OptNormal(e: Option<Expr>) {
    e.Some? ==> Normal(e.value)
  }

  predicate OptComparable(e: Option<Expr>, env: Env) {
    e.Some? ==> Comparable(e.value, env)
  }

  /** The expression that the propagation computes. */
  function Propagated(base: Option<Expr>, dep: Option<Expr>, transBool: bool): Option<Expr> {
    match AllocAnd(base, if dep.Some? then Some(Transform(dep.value)) else None)
    case None => None
    case Some(e) => Some(if transBool then TransBool(WithoutDups(e)) else WithoutDups(e))
  }

  /** Propagating the parent's dependency into that of a child or of one of its properties:
      the result is in normal form and holds as far as both conditions do. For an entry that
      is not tristate (transBool says whether expr_trans_bool runs) only n and not-n survive, and
      no test "is not n" of a tristate symbol is left. */
  method PropagateDependency(base: Option<Expr>, dep: Option<Expr>, transBool: bool)
    returns (r: Option<Expr>)
    requires OptNormal(base)
    ensures r == Propagated(base, dep, transBool)
    ensures OptNormal(r)
    ensures forall env :: WellFormed(env) && OptComparable(dep, env) ==>
              (OptValue(r, env) != NO <==> OptValue(base, env) != NO && OptValue(dep, env) != NO)
    ensures !transBool ==> forall env :: WellFormed(env) && OptComparable(dep, env) ==>
              OptValue(r, env) == And.Apply(OptValue(base, env), OptValue(dep, env))
    ensures transBool && r.Some? ==> TestFree(r.value)
  {
    var d := if dep.Some? then Some(Transform(dep.value)) else None;
    if dep.Some? { TransformNormal(dep.value); }
    var joint := AllocAnd(base, d);
    r := joint;
    if joint.Some? {
      var e := EliminateDups(joint.value);
      r := Some(if transBool then TransBool(e) else e);
      NormalNots(e);
      TransBoolNormal(e);
      forall env | WellFormed(env) && OptComparable(dep, env)
        ensures OptValue(r, env) != NO <==> OptValue(base, env) != NO && OptValue(dep, env) != NO
        ensures !transBool ==> OptValue(r, env) == And.Apply(OptValue(base, env), OptValue(dep, env))
      {
        if dep.Some? { TransformValue(dep.value, env); }
        TransBoolVisibility(e, env);
      }
      TransBoolExact(e, AllMod());
    }
  }

  /** "e is not n" as a two-valued expression without duplicates. */
  function NotNo(e: Option<Expr>): Expr {
    WithoutDups(Transform(TransCompareOpt(e, false, false)))
  }

  // Where the value of e can be tested by comparisons.
  predicate Testable(e: Option<Expr>, env: Env) {
    e.Some? ==> TriLeaves(e.value) && TwoValuedNots(e.value, env) && Comparable(e.value, env)
  }

  lemma {:induction false} NotNoValue(e: Option<Expr>, env: Env)
    requires WellFormed(env) && Testable(e, env)
    ensures Value(NotNo(e), env) == if OptValue(e, env) != NO then YES else NO
    ensures NoDups(NotNo(e))
  {
    var c := TransCompareOpt(e, false, false);
    if e.Some? {
      TransCompareComparable(e.value, false, false, env);
    }
    TransCompareOptValue(e, false, false, env);
    TransformValue(c, env);
  }

  /** The test by which menu_finalize makes the entry with visibility dep a child of the
      symbol sym whose prompt has visibility base. */
  method JoinsSubmenu(base: Option<Expr>, dep: Option<Expr>, sym: Symbol) returns (child: bool)
    ensures child <==> Accepted(base, dep, sym)
  {
    if dep.None? || !ContainsSymbol(dep.value, sym) {
      return false;
    }
    if DependsSymbol(dep.value, sym) {
      return true;
    }
    var b := EliminateDups(Transform(TransCompareOpt(base, false, false)));
    var d := EliminateDups(Transform(TransCompareOpt(dep, false, false)));
    child := EliminateEq(d, b).1 == TRUE;
  }

  predicate Accepted(base: Option<Expr>, dep: Option<Expr>, sym: Symbol) {
    && dep.Some? && ContainsSymbol(dep.value, sym)
    && (DependsSymbol(dep.value, sym) || EliminateEq(NotNo(dep), NotNo(base)).1 == TRUE)
  }

  /** An accepted entry is never visible without its new parent being visible, or else
      without sym itself being set. */
  lemma SubmenuVisibility(base: Option<Expr>, dep: Option<Expr>, sym: Symbol, env: Env)
    requires Accepted(base, dep, sym) && TriSymbol(sym)
    requires WellFormed(env) && Testable(base, env) && Testable(dep, env)
    requires OptValue(dep, env) != NO
    ensures OptValue(base, env) != NO || env.tri(sym) != NO
  {
    if DependsSymbol(dep.value, sym) {
      DependsSymbolImplies(dep.value, sym, env);
    } else {
      NotNoValue(base, env);
      NotNoValue(dep, env);
      EliminateEqImplies(NotNo(dep), NotNo(base), env);
    }
  }

  // ----- what the two-valued form misses -----

  /** e is not n, with a negated symbol at m counting as n. */
  predicate Strictly(e: Expr, env: Env) {
    match e
    case Sym(s) => env.tri(s) != NO
    case Cmp(_, _, _) => Value(e, env) != NO
    case Not(x) => Value(x, env) == NO
    case Bin(op, l, r) =>
      if op.And? then Strictly(l, env) && Strictly(r, env) else Strictly(l, env) || Strictly(r, env)
  }

  predicate OptStrictly(e: Option<Expr>, env: Env) {
    e.Some? ==> Strictly(e.value, env)
  }

  predicate OptTriLeaves(e: Option<Expr>) {
    e.Some? ==> TriLeaves(e.value)
  }

  lemma {:induction false} PresentStrict(e: Expr, env: Env)
    requires WellFormed(env) && Normal(e) && TriLeaves(e)
    ensures Value(Present(e), env) != NO <==> Strictly(e, env)
    ensures Strictly(e, env) ==> Value(e, env) != NO
    decreases e
  {
    match e
    case Bin(_, l, r) =>
      PresentStrict(l, env);
      PresentStrict(r, env);
    case Not(x) => PresentSymbol(x.s, env);
    case Sym(s) => PresentSymbol(s, env);
    case Cmp(_, _, _) =>
  }

  lemma {:induction false} PresentSymbol(s: Symbol, env: Env)
    requires WellFormed(env) && TriSymbol(s)
    ensures Value(TransformCmp(Ne, s, SYM_NO), env) == if env.tri(s) != NO then YES else NO
    ensures Value(TransformCmp(Eq, s, SYM_NO), env) == if env.tri(s) == NO then YES else NO
  {
    TriSymbolCompare(s, Ne, SYM_NO, env);
    TriSymbolCompare(s, Eq, SYM_NO, env);
    if s.Type() == Boolean { assert s == Config(s.id, s.typ); }
  }

  /** Whatever the values are, the two-valued form of a normal condition says whether it is not
      n when negated symbols at m count as n. */
  lemma {:induction false} NotNoStrict(e: Option<Expr>, env: Env)
    requires WellFormed(env) && OptNormal(e) && OptTriLeaves(e)
    ensures Value(NotNo(e), env) != NO <==> OptStrictly(e, env)
    ensures OptStrictly(e, env) ==> OptValue(e, env) != NO
  {
    if e.Some? {
      PresentTest(e.value);
      PresentStrict(e.value, env);
      assert SameValue(Present(e.value), NotNo(e));
    } else {
      assert Transform(Not(Sym(SYM_NO))) == TRUE;
    }
  }

  /** With nothing asked of negations: an accepted entry is never visible without its new parent
      being visible or sym being set, unless it is visible only through a negated symbol at m. */
  lemma SubmenuStrict(base: Option<Expr>, dep: Option<Expr>, sym: Symbol, env: Env)
    requires Accepted(base, dep, sym) && TriSymbol(sym) && WellFormed(env)
    requires OptNormal(base) && OptTriLeaves(base) && OptNormal(dep) && OptTriLeaves(dep)
    requires OptStrictly(dep, env)
    ensures OptValue(base, env) != NO || env.tri(sym) != NO
  {
    NotNoStrict(base, env);
    NotNoStrict(dep, env);
    if DependsSymbol(dep.value, sym) {
      DependsSymbolImplies(dep.value, sym, env);
    } else {
      EliminateEqImplies(NotNo(dep), NotNo(base), env);
    }
  }

  /** Only boolean symbols are negated. */
  predicate BooleanNots(e: Expr) {
    match e
    case Not(x) => x.Sym? && x.s.Type() == Boolean
    case Bin(_, l, r) => BooleanNots(l) && BooleanNots(r)
    case _ => true
  }

  /** All tristate symbols at m, all others at n. */
  function AllMod(): Env {
    Env((s: Symbol) => if s == SYM_YES then YES else if s == SYM_MOD || s.Type() == Tristate then MOD else NO,
        (s: Symbol) => if s.Const? then s.name else if s.typ == Tristate then "m" else "n",
        (s, base) => None, (s, base) => None)
  }

  lemma {:induction false} AllModNots(e: Expr)
    requires Normal(e) && TriLeaves(e) && TwoValuedNots(e, AllMod())
    ensures BooleanNots(e)
  {
    if e.Bin? {
      AllModNots(e.l);
      AllModNots(e.r);
    }
  }

  lemma {:induction false} BooleanTwoValued(e: Expr, env: Env)
    requires WellFormed(env) && BooleanNots(e)
    ensures TwoValuedNots(e, env)
  {
    match e
    case Bin(_, l, r) => BooleanTwoValued(l, env); BooleanTwoValued(r, env);
    case Not(x) => assert x.s == Config(x.s.id, x.s.typ);
    case _ =>
  }

  /** The condition of NotNoValue and SubmenuVisibility on negations holds whatever the values
      are, if and only if only boolean symbols are negated. */
  lemma {:induction false} TwoValuedAlways(e: Expr)
    requires Normal(e) && TriLeaves(e)
    ensures (forall env :: WellFormed(env) ==> TwoValuedNots(e, env)) <==> BooleanNots(e)
  {
    assert WellFormed(AllMod());
    if BooleanNots(e) {
      forall env | WellFormed(env) ensures TwoValuedNots(e, env) { BooleanTwoValued(e, env); }
    } else if TwoValuedNots(e, AllMod()) {
      AllModNots(e);
    }
  }
}
