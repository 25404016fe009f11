/** expr_join_or and expr_join_and of tools/kconfig/expr.c: merging two operands of one
    chain into a single expression, where that is possible. */
module KconfigJoin {
  import opened Basics
  import opened KconfigExpr
  import opened KconfigTransform
  import opened KconfigEq

  /** The symbol that both operands speak about. */
  function JoinSymbol(x: Expr, y: Expr): Option<Symbol> {
    if !(Literal(x) && Literal(y)) then None
    else if x.Not? && !(x.e.Sym? || EqNe(x.e)) then None
    else if y.Not? && !y.e.Sym? then None
    else
      var s1 := Subject(if x.Not? then x.e else x);
      var s2 := Subject(if y.Not? then y.e else y);
      if s1 == s2 && (s1.Type() == Boolean || s1.Type() == Tristate) then Some(s1) else None
  }

  predicate EqNe(e: Expr) {
    e.Cmp? && !e.rel.Ordered()
  }

  predicate Literal(e: Expr) {
    e.Sym? || e.Not? || EqNe(e)
  }

  function Subject(e: Expr): Symbol
    requires e.Sym? || EqNe(e)
  {
    if e.Sym? then e.s else e.a
  }

  predicate Test(e: Expr, rel: Rel, c: Symbol) {
    e.Cmp? && e.rel == rel && e.b == c
  }

  predicate Tests(x: Expr, y: Expr, rel: Rel, c: Symbol, d: Symbol) {
    (Test(x, rel, c) && Test(y, rel, d)) || (Test(x, rel, d) && Test(y, rel, c))
  }

  predicate SymWith(x: Expr, y: Expr, rel: Rel, c: Symbol) {
    (x.Sym? && Test(y, rel, c)) || (y.Sym? && Test(x, rel, c))
  }

  function JoinOr(x: Expr, y: Expr): Option<Expr> {
    if ExprEq(x, y) then Some(x)
    else match JoinSymbol(x, y)
      case None => None
      case Some(s) =>
        if s.Type() == Tristate && Tests(x, y, Eq, SYM_YES, SYM_MOD) then Some(Cmp(Ne, s, SYM_NO))
        else if s.Type() == Tristate && Tests(x, y, Eq, SYM_YES, SYM_NO) then Some(Cmp(Ne, s, SYM_MOD))
        else if s.Type() == Tristate && Tests(x, y, Eq, SYM_MOD, SYM_NO) then Some(Cmp(Ne, s, SYM_YES))
        else if s.Type() == Boolean
             && ((x.Not? && x.e.Sym? && y.Sym?) || (y.Not? && y.e.Sym? && x.Sym?)) then Some(TRUE)
        else None
  }

  function JoinAnd(x: Expr, y: Expr): Option<Expr> {
    if ExprEq(x, y) then Some(x)
    else match JoinSymbol(x, y)
      case None => None
      case Some(s) =>
        if SymWith(x, y, Eq, SYM_YES) then Some(Cmp(Eq, s, SYM_YES))
        else if SymWith(x, y, Ne, SYM_NO) then Some(Sym(s))
        else if SymWith(x, y, Ne, SYM_MOD) then Some(Cmp(Eq, s, SYM_YES))
        else if s.Type() != Tristate then None
        else if Rels(x, y, Eq, Ne) && x.b.Const? && y.b.Const? then
          Some(if x.b != y.b then Cmp(Eq, s, x.b) else FALSE)
        else if Rels(x, y, Ne, Eq) && x.b.Const? && y.b.Const? then
          Some(if x.b != y.b then Cmp(Eq, s, y.b) else FALSE)
        else if Tests(x, y, Ne, SYM_YES, SYM_NO) then Some(Cmp(Eq, s, SYM_MOD))
        else if Tests(x, y, Ne, SYM_YES, SYM_MOD) then Some(Cmp(Eq, s, SYM_NO))
        else if Tests(x, y, Ne, SYM_MOD, SYM_NO) then Some(Cmp(Eq, s, SYM_YES))
        else None
  }

  predicate Rels(x: Expr, y: Expr, p: Rel, q: Rel) {
    x.Cmp? && y.Cmp? && x.rel == p && y.rel == q
  }

  function Join(t: BinOp, x: Expr, y: Expr): Option<Expr> {
    if t.And? then JoinAnd(x, y) else JoinOr(x, y)
  }

  // The values a test of a bool or tristate symbol against a constant can take.
  lemma {:induction false} TestValue(env: Env, rel: Rel, s: Symbol, c: Symbol)
    requires WellFormed(env) && c.Const? && (s.Type() == Boolean || s.Type() == Tristate)
    requires !rel.Ordered()
    ensures Value(Cmp(rel, s, c), env)
            == if (TriStr(env.tri(s)) == c.name) == rel.Eq? then YES else NO
    ensures s.Type() == Boolean ==> env.tri(s) != MOD
  {
    CompareTri(env, rel, s, c.name);
    assert s == Config(s.id, s.typ);
  }

  lemma {:induction false} JoinOrValue(x: Expr, y: Expr, env: Env)
    requires WellFormed(env) && JoinOr(x, y).Some?
    ensures Value(JoinOr(x, y).value, env) == Or.Apply(Value(x, env), Value(y, env))
  {
    if ExprEq(x, y) {
      ExprEqSound(x, y);
    } else if x.Cmp? {
      JoinTestsOrValue(x, y, env);
    } else {
      var s := JoinSymbol(x, y).value;
      assert env.tri(s) != MOD by { TestValue(env, Eq, s, SYM_YES); }
    }
  }

  lemma {:induction false} JoinTestsOrValue(x: Expr, y: Expr, env: Env)
    requires WellFormed(env) && JoinOr(x, y).Some? && !ExprEq(x, y) && x.Cmp?
    ensures Value(JoinOr(x, y).value, env) == Or.Apply(Value(x, env), Value(y, env))
  {
    var s, b, c, d := JoinTestsOr(x, y);
    TestValue(env, Eq, s, b);
    TestValue(env, Eq, s, c);
    TestValue(env, Ne, s, d);
  }

  // The merges of two tests: "is b or c" becomes "is not d".
  lemma JoinTestsOr(x: Expr, y: Expr) returns (s: Symbol, b: Symbol, c: Symbol, d: Symbol)
    requires JoinOr(x, y).Some? && !ExprEq(x, y) && x.Cmp?
    ensures s.Type() == Tristate && x == Cmp(Eq, s, b) && y == Cmp(Eq, s, c) && JoinOr(x, y).value == Cmp(Ne, s, d)
    ensures {b, c, d} == {SYM_YES, SYM_MOD, SYM_NO}
  {
    s, b, c, d := JoinSymbol(x, y).value, x.b, y.b, JoinOr(x, y).value.b;
  }

  lemma {:induction false} JoinAndValue(x: Expr, y: Expr, env: Env)
    requires WellFormed(env) && JoinAnd(x, y).Some?
    ensures Value(JoinAnd(x, y).value, env) == And.Apply(Value(x, env), Value(y, env))
  {
    if ExprEq(x, y) {
      ExprEqSound(x, y);
    } else if Rels(x, y, Eq, Ne) || Rels(x, y, Ne, Eq) || Rels(x, y, Ne, Ne) {
      JoinTestsValue(x, y, env);
    } else {
      JoinSymbolAndValue(x, y, env);
    }
  }

  // The merges of a bare symbol with a test of it.
  lemma JoinSymbolAnd(x: Expr, y: Expr) returns (s: Symbol, c: Expr)
    requires JoinAnd(x, y).Some? && !ExprEq(x, y) && (x.Sym? || y.Sym?)
    ensures s.Type() == Boolean || s.Type() == Tristate
    ensures (x == Sym(s) && y == c) || (y == Sym(s) && x == c)
    ensures var r := JoinAnd(x, y).value;
            || (c == Cmp(Eq, s, SYM_YES) && r == c)
            || (c == Cmp(Ne, s, SYM_NO) && r == Sym(s))
            || (c == Cmp(Ne, s, SYM_MOD) && r == Cmp(Eq, s, SYM_YES))
  {
    s, c := JoinSymbol(x, y).value, if x.Sym? then y else x;
  }

  lemma {:induction false} JoinSymbolAndValue(x: Expr, y: Expr, env: Env)
    requires WellFormed(env) && JoinAnd(x, y).Some? && !ExprEq(x, y)
    requires x.Sym? || y.Sym?
    ensures Value(JoinAnd(x, y).value, env) == And.Apply(Value(x, env), Value(y, env))
  {
    var s, c := JoinSymbolAnd(x, y);
    SymbolAndTest(env, s);
  }

  lemma {:induction false} SymbolAndTest(env: Env, s: Symbol)
    requires WellFormed(env) && (s.Type() == Boolean || s.Type() == Tristate)
    ensures And.Apply(env.tri(s), Value(Cmp(Eq, s, SYM_YES), env)) == Value(Cmp(Eq, s, SYM_YES), env)
    ensures And.Apply(env.tri(s), Value(Cmp(Ne, s, SYM_NO), env)) == env.tri(s)
    ensures And.Apply(env.tri(s), Value(Cmp(Ne, s, SYM_MOD), env)) == Value(Cmp(Eq, s, SYM_YES), env)
  {
    TestValue(env, Eq, s, SYM_YES);
    TestValue(env, Ne, s, SYM_NO);
    TestValue(env, Ne, s, SYM_MOD);
  }

  lemma {:induction false} JoinTestsValue(x: Expr, y: Expr, env: Env)
    requires WellFormed(env) && JoinAnd(x, y).Some? && !ExprEq(x, y)
    requires Rels(x, y, Eq, Ne) || Rels(x, y, Ne, Eq) || Rels(x, y, Ne, Ne)
    ensures Value(JoinAnd(x, y).value, env) == And.Apply(Value(x, env), Value(y, env))
  {
    var s := JoinSymbol(x, y).value;
    TestValue(env, x.rel, s, x.b);
    TestValue(env, y.rel, s, y.b);
    var r := JoinAnd(x, y).value;
    if r.Cmp? { TestValue(env, Eq, s, r.b); }
  }

  /** A join stands for both operands, is no longer than they are together, and is not
      itself a chain of the operator that is being joined. */
  lemma {:induction false} JoinSound(t: BinOp, x: Expr, y: Expr)
    requires Join(t, x, y).Some? && !IsOp(x, t)
    ensures SameValue(Join(t, x, y).value, Bin(t, x, y))
    ensures Size(Join(t, x, y).value) <= Size(x) + Size(y) - 1
    ensures !IsOp(Join(t, x, y).value, t)
    ensures Normal(x) && Normal(y) ==> Normal(Join(t, x, y).value)
  {
    forall env | WellFormed(env)
      ensures Value(Join(t, x, y).value, env) == Value(Bin(t, x, y), env)
    {
      if t.And? { JoinAndValue(x, y, env); } else { JoinOrValue(x, y, env); }
    }
  }

  /** Which pairs of tests of one tristate symbol against y, m and n are merged. */
  lemma JoinTestsComplete(s: Symbol, p: Rel, c: Symbol, q: Rel, d: Symbol)
    requires s.Type() == Tristate && IsTriConst(c) && IsTriConst(d)
    requires !p.Ordered() && !q.Ordered()
    ensures JoinOr(Cmp(p, s, c), Cmp(q, s, d)).None? <==> (p != q || (c != d && p.Ne?))
    ensures JoinAnd(Cmp(p, s, c), Cmp(q, s, d)).None? <==> (p == q && c != d && p.Eq?)
  {
    assert c.name == "y" || c.name == "m" || c.name == "n";
    assert "y" != "m" && "m" != "n" && "y" != "n";
    assert Literal(Cmp(p, s, c)) && Literal(Cmp(q, s, d));
  }

  predicate TriType(s: Symbol) {
    s.Type() == Boolean || s.Type() == Tristate
  }

  /** x is a bool or tristate symbol, y its test for being y, not n or not m. */
  predicate SymbolAndItsTest(x: Expr, y: Expr) {
    x.Sym? && TriType(x.s) && y in {Cmp(Eq, x.s, SYM_YES), Cmp(Ne, x.s, SYM_NO), Cmp(Ne, x.s, SYM_MOD)}
  }

  /** Two tests of one tristate symbol against constants: one for and one against, or against two
      of y, m and n. */
  predicate TestsThatMeet(x: Expr, y: Expr) {
    && EqNe(x) && EqNe(y) && x.a == y.a && x.a.Type() == Tristate && x.b.Const? && y.b.Const?
    && (x.rel != y.rel || (x.rel.Ne? && IsTriConst(x.b) && IsTriConst(y.b) && x.b != y.b))
  }

  /** Two tests for different ones of y, m and n. */
  predicate TestsThatAdd(x: Expr, y: Expr) {
    && EqNe(x) && EqNe(y) && x.a == y.a && x.a.Type() == Tristate && x.rel.Eq? && y.rel.Eq?
    && IsTriConst(x.b) && IsTriConst(y.b) && x.b != y.b
  }

  /** A bool symbol and its negation. */
  predicate Opposite(x: Expr, y: Expr) {
    x.Sym? && x.s.Type() == Boolean && y == Not(x)
  }

  /** Which pairs are merged at all. */
  lemma {:induction false} JoinAndExactly(x: Expr, y: Expr)
    ensures JoinAnd(x, y).Some?
            <==> ExprEq(x, y) || SymbolAndItsTest(x, y) || SymbolAndItsTest(y, x) || TestsThatMeet(x, y)
  {
    assert "y"[0] != "m"[0] && "m"[0] != "n"[0] && "y"[0] != "n"[0];
    if x.Cmp? && y.Cmp? && x.b.Const? && y.b.Const? && JoinSymbol(x, y).Some? {
      assert x.b == y.b <==> x.b.name == y.b.name;
    }
  }

  lemma {:induction false} JoinOrExactly(x: Expr, y: Expr)
    ensures JoinOr(x, y).Some?
            <==> ExprEq(x, y) || TestsThatAdd(x, y) || Opposite(x, y) || Opposite(y, x)
  {
    assert "y"[0] != "m"[0] && "m"[0] != "n"[0] && "y"[0] != "n"[0];
  }
}
