/** Tests of symbols under the passes of tools/kconfig/expr.c: what becomes of an operand of an
    and-chain when the chain is compared with n, transformed and freed of duplicates. */
module KconfigTests {
  import opened Basics
  import opened KconfigExpr
  import opened KconfigTransform
  import opened KconfigEq
  import opened KconfigJoin
  import opened KconfigDups

  // ----- "is not n", operand by operand -----

  /** The test "e is not n" of an expression in normal form, leaf by leaf. */
  function Present(e: Expr): (r: Expr)
    requires Normal(e)
    ensures e.Bin? ==> r.Bin? && r.op == e.op
    ensures !e.Bin? ==> !r.Bin?
  {
    match e
    case Sym(s) => TransformCmp(Ne, s, SYM_NO)
    case Not(x) => TransformCmp(Eq, x.s, SYM_NO)
    case Cmp(_, _, _) => e
    case Bin(op, l, r) => Bin(op, Present(l), Present(r))
  }

  lemma {:induction false} PresentTest(e: Expr)
    requires Normal(e)
    ensures Transform(TransCompare(e, false, false)) == Present(e)
    ensures Transform(Not(Transform(TransCompare(e, true, false)))) == Present(e)
    decreases e
  {
    match e
    case Bin(op, l, r) =>
      PresentTest(l);
      PresentTest(r);
      var b := TransCompare(e, true, false);
      var tl, tr := Transform(TransCompare(l, true, false)), Transform(TransCompare(r, true, false));
      assert Transform(b) == Bin(op.Dual(), tl, tr);
      DeMorganWeight(op.Dual(), tl, tr);
      assert Transform(Not(b)) == Transform(Bin(op, Not(tl), Not(tr)));
      TransformIdempotent(b);
    case Cmp(rel, a, b) =>
      TransformOfNormal(e);
      assert Transform(Not(e)) == Cmp(rel.Negate(), a, b);
      TransformOfNormal(Cmp(rel.Negate(), a, b));
    case Sym(s) => PresentLeaf(s);
    case Not(x) => PresentLeaf(x.s);
  }

  lemma {:induction false} PresentLeaf(s: Symbol)
    ensures Transform(Not(Transform(Cmp(Eq, s, SYM_NO)))) == TransformCmp(Ne, s, SYM_NO)
    ensures !IsTriConst(s) ==> Transform(Not(Transform(Cmp(Ne, s, SYM_NO)))) == TransformCmp(Eq, s, SYM_NO)
  {
    if s.Type() == Boolean {
      assert Transform(Sym(s)) == Sym(s);
      assert Transform(Not(Sym(s))) == Not(Sym(s));
    }
  }

  lemma {:induction false} PresentNormal(e: Expr)
    requires Normal(e)
    ensures Normal(Present(e))
  {
    if e.Bin? {
      PresentNormal(e.l);
      PresentNormal(e.r);
    }
  }

  lemma {:induction false} PresentOperands(e: Expr)
    requires Normal(e)
    ensures |Operands(And, Present(e))| == |Operands(And, e)|
    ensures forall i :: 0 <= i < |Operands(And, e)| ==>
              Normal(Operands(And, e)[i]) && Operands(And, Present(e))[i] == Present(Operands(And, e)[i])
    decreases e
  {
    if IsOp(e, And) {
      PresentOperands(e.l);
      PresentOperands(e.r);
    }
  }

  // ----- tests that stay -----

  /** A symbol, a negated symbol or a comparison, about a configuration symbol. */
  predicate IsTest(x: Expr) {
    || (x.Sym? && x.s.Config?)
    || (x.Not? && x.e.Sym? && x.e.s.Config?)
    || (x.Cmp? && x.a.Config?)
  }

  function About(x: Expr): Symbol
    requires IsTest(x)
  {
    match x
    case Sym(s) => s
    case Not(y) => y.s
    case Cmp(_, a, _) => a
  }

  /** e is the boolean symbol of x or its negation, as is x. */
  predicate Flips(e: Expr, x: Expr)
    requires IsTest(x)
  {
    var a := About(x);
    a.Type() == Boolean && !x.Cmp? && (e == Sym(a) || e == Not(Sym(a)))
  }

  /** What e says about the symbol of x is x itself; a boolean symbol may also occur bare or
      negated. */
  predicate Tame(e: Expr, x: Expr)
    requires IsTest(x)
  {
    if e.Bin? then Tame(e.l, x) && Tame(e.r, x)
    else ContainsSymbol(e, About(x)) ==> e == x || Flips(e, x)
  }

  lemma {:induction false} PresentTame(e: Expr, x: Expr)
    requires Normal(e) && Normal(x) && IsTest(x) && Tame(e, x)
    ensures IsTest(Present(x)) && Tame(Present(e), Present(x))
  {
    if e.Bin? {
      PresentTame(e.l, x);
      PresentTame(e.r, x);
    } else {
      assert About(Present(x)) == About(x);
      assert ContainsSymbol(Present(e), About(x)) ==> ContainsSymbol(e, About(x));
    }
  }

  /** Whatever merges with x is x. */
  lemma {:induction false} JoinWithTest(x: Expr, o: Expr)
    requires IsTest(x) && Normal(x) && Normal(o) && Tame(o, x)
    ensures JoinAnd(x, o).Some? ==> o == x && JoinAnd(x, o).value == x
    ensures JoinAnd(o, x).Some? ==> o == x && JoinAnd(o, x).value == x
  {
    TestEq(x, o);
    TestEq(o, x);
  }

  lemma {:induction false} TestEq(x: Expr, y: Expr)
    requires (IsTest(x) && Normal(x)) || (IsTest(y) && Normal(y))
    ensures ExprEq(x, y) <==> x == y
  {
    ExprEqReflexive(x);
    if x.Not? && y.Not? { assert ExprEq(x, y) == ExprEq(x.e, y.e); }
  }

  lemma {:induction false} JoinTame(t: BinOp, y: Expr, z: Expr, x: Expr)
    requires IsTest(x) && Normal(x) && Normal(y) && Normal(z) && Tame(y, x) && Tame(z, x)
    requires Join(t, y, z).Some?
    ensures Tame(Join(t, y, z).value, x)
  {
    if !ExprEq(y, z) {
      if JoinSymbol(y, z).value == About(x) {
        TestEq(x, y);
        TestEq(x, z);
        if t.And? { JoinAndSame(y, z, x); } else { JoinOrSame(y, z, x); }
      } else {
        JoinOther(t, y, z, x);
      }
    }
  }

  // Two tests of the symbol of x itself.
  lemma {:induction false} JoinAndSame(y: Expr, z: Expr, x: Expr)
    requires IsTest(x) && Normal(x) && Normal(y) && Normal(z) && !ExprEq(y, z) && y != z
    requires Tame(y, x) && Tame(z, x) && JoinSymbol(y, z) == Some(About(x)) && JoinAnd(y, z).Some?
    ensures Tame(JoinAnd(y, z).value, x)
  {
  }

  lemma {:induction false} JoinOrSame(y: Expr, z: Expr, x: Expr)
    requires IsTest(x) && Normal(x) && Normal(y) && Normal(z) && !ExprEq(y, z) && y != z
    requires Tame(y, x) && Tame(z, x) && JoinSymbol(y, z) == Some(About(x)) && JoinOr(y, z).Some?
    ensures Tame(JoinOr(y, z).value, x)
  {
  }

  // Two tests of another symbol.
  lemma {:induction false} JoinOther(t: BinOp, y: Expr, z: Expr, x: Expr)
    requires IsTest(x) && !ExprEq(y, z) && Join(t, y, z).Some? && JoinSymbol(y, z).value != About(x)
    ensures Tame(Join(t, y, z).value, x)
  {
  }

  // ----- what the passes do to the operands of a chain -----

  /** The place of slot p among the operands of the t-chain e. */
  function Index(t: BinOp, e: Expr, p: Path): nat
    requires InChain(t, e, p)
  {
    if p == [] then 0
    else if p[0].Left? then Index(t, e.l, p[1..])
    else |Operands(t, e.l)| + Index(t, e.r, p[1..])
  }

  lemma {:induction false} IndexPut(t: BinOp, e: Expr, p: Path, x: Expr)
    requires Operand(t, e, p) && !IsOp(x, t)
    ensures var k := Index(t, e, p);
            && k < |Operands(t, e)| && Operands(t, e)[k] == At(e, p)
            && Operands(t, Put(e, p, x)) == Operands(t, e)[k := x]
  {
    if p != [] {
      IndexPut(t, if p[0].Left? then e.l else e.r, p[1..], x);
      var a, b, k := Operands(t, e.l), Operands(t, e.r), Index(t, e, p);
      if p[0].Left? {
        assert (a + b)[k := x] == a[k := x] + b;
      } else {
        assert (a + b)[k := x] == a + b[k - |a| := x];
      }
    }
  }

  lemma {:induction false} IndexInjective(t: BinOp, e: Expr, p: Path, q: Path)
    requires Operand(t, e, p) && Operand(t, e, q) && Index(t, e, p) == Index(t, e, q)
    ensures p == q
  {
    if p != [] && q != [] {
      IndexPut(t, if p[0].Left? then e.l else e.r, p[1..], FALSE);
      IndexPut(t, if q[0].Left? then e.l else e.r, q[1..], FALSE);
      assert p == [p[0]] + p[1..] && q == [q[0]] + q[1..];
      IndexInjective(t, if p[0].Left? then e.l else e.r, p[1..], q[1..]);
    }
  }

  lemma {:induction false} PathAt(t: BinOp, e: Expr, k: nat) returns (p: Path)
    requires k < |Operands(t, e)|
    ensures Operand(t, e, p) && Index(t, e, p) == k && At(e, p) == Operands(t, e)[k]
    decreases e
  {
    if IsOp(e, t) {
      var n := |Operands(t, e.l)|;
      if k < n {
        var q := PathAt(t, e.l, k);
        p := [Left] + q;
        assert p[1..] == q;
      } else {
        var q := PathAt(t, e.r, k - n);
        p := [Right] + q;
        assert p[1..] == q;
      }
    } else {
      p := [];
    }
  }

  lemma {:induction false} TamePut(e: Expr, p: Path, y: Expr, x: Expr)
    requires Slot(e, p) && IsTest(x) && Tame(e, x)
    ensures Tame(At(e, p), x)
    ensures Tame(y, x) ==> Tame(Put(e, p, y), x)
  {
    if p != [] { TamePut(if p[0].Left? then e.l else e.r, p[1..], y, x); }
  }

  /** A pass brings in nothing new about the symbol of x. */
  lemma {:induction false} PassTame(t: BinOp, e: Expr, p: Path, q: Path, x: Expr)
    requires InChain(t, e, p) && InChain(t, e, q)
    requires IsTest(x) && Normal(x) && Normal(e) && Tame(e, x)
    ensures Tame(EliminateDups1(t, e, p, q).0, x)
    decreases Size(e), Below(t, e, p) + Below(t, e, q), 1
  {
    InChainSlot(t, e, p);
    InChainSlot(t, e, q);
    if IsOp(At(e, p), t) {
      InChainExtend(t, e, p, Left);
      InChainExtend(t, e, p, Right);
      var r := EliminateDups1(t, e, p + [Left], q).0;
      SlotsAfterPass(t, e, r, p + [Right], q);
      PassTame(t, e, p + [Left], q, x);
      PassTame(t, r, p + [Right], q, x);
    } else if IsOp(At(e, q), t) {
      InChainExtend(t, e, q, Left);
      InChainExtend(t, e, q, Right);
      var r := EliminateDups1(t, e, p, q + [Left]).0;
      SlotsAfterPass(t, e, r, p, q + [Right]);
      PassTame(t, e, p, q + [Left], x);
      PassTame(t, r, p, q + [Right], x);
    } else if p != q {
      InsideTame(t, e, p, q, x);
      var r := DupsInside(t, e, p, q).0;
      if Join(t, At(r, p), At(r, q)).Some? { MergeTame(t, r, p, q, x); }
    }
  }

  lemma {:induction false} InsideTame(t: BinOp, e: Expr, p: Path, q: Path, x: Expr)
    requires Operand(t, e, p) && Operand(t, e, q) && p != q
    requires IsTest(x) && Normal(x) && Normal(e) && Tame(e, x)
    ensures Tame(DupsInside(t, e, p, q).0, x)
    decreases Size(e), 0, 0
  {
    var o := At(e, p);
    TamePut(e, p, o, x);
    if o.Bin? {
      OperandSmaller(t, e, p, q);
      PutSameValue(e, p, o);
      PassTame(o.op, o, [], [], x);
      TamePut(e, p, EliminateDups1(o.op, o, [], []).0, x);
    }
  }

  lemma {:induction false} MergeTame(t: BinOp, e: Expr, p: Path, q: Path, x: Expr)
    requires Operand(t, e, p) && Operand(t, e, q) && p != q && Join(t, At(e, p), At(e, q)).Some?
    requires IsTest(x) && Normal(x) && Normal(e) && Tame(e, x)
    ensures Tame(Merge(t, e, p, q, Join(t, At(e, p), At(e, q)).value), x)
  {
    var y, z := At(e, p), At(e, q);
    PutSameValue(e, p, y);
    PutSameValue(e, q, z);
    TamePut(e, q, z, x);
    TamePut(e, p, Sym(t.Unit()), x);
    JoinTame(t, y, z, x);
    PutOperand(t, e, p, Sym(t.Unit()));
    TamePut(Put(e, p, Sym(t.Unit())), q, Join(t, y, z).value, x);
  }

  lemma {:induction false} YnTame(e: Expr, x: Expr)
    requires IsTest(x) && Tame(e, x)
    ensures Tame(EliminateYn(e), x)
  {
    if e.Bin? {
      YnTame(e.l, x);
      YnTame(e.r, x);
    }
  }

  // ----- the tests of the parent stay -----

  type Tests = seq<Expr>

  /** The and-chain e has all of xs among its operands and is tame about them; if only is set,
      it has nothing else but y. */
  ghost predicate Keeps(e: Expr, xs: Tests, only: bool) {
    && Normal(e)
    && (forall x :: x in xs ==> IsTest(x) && Normal(x) && Tame(e, x) && x in Operands(And, e))
    && (only ==> forall o :: o in Operands(And, e) ==> o in xs || o == TRUE)
  }

  lemma {:induction false} MergeKeeps(e: Expr, p: Path, q: Path, xs: Tests, only: bool)
    requires Operand(And, e, p) && Operand(And, e, q) && p != q && Join(And, At(e, p), At(e, q)).Some?
    requires Keeps(e, xs, only)
    ensures Keeps(Merge(And, e, p, q, Join(And, At(e, p), At(e, q)).value), xs, only)
  {
    var y, z := At(e, p), At(e, q);
    var w := JoinAnd(y, z).value;
    MergeStep(And, e, p, q);
    MergedOperands(e, p, q, w);
    PutSameValue(e, p, y);
    PutSameValue(e, q, z);
    forall x | x in xs
      ensures Tame(Merge(And, e, p, q, w), x) && x in Operands(And, Merge(And, e, p, q, w))
    {
      MergeTame(And, e, p, q, x);
      MergeKeepsOne(e, p, q, x);
    }
    if only {
      assert w in xs || w == TRUE by {
        if y in xs { TamePut(e, q, z, y); JoinWithTest(y, z); }
        else if z in xs { TamePut(e, p, y, z); JoinWithTest(z, y); }
      }
    }
  }

  lemma {:induction false} MergeKeepsOne(e: Expr, p: Path, q: Path, x: Expr)
    requires Operand(And, e, p) && Operand(And, e, q) && p != q && Join(And, At(e, p), At(e, q)).Some?
    requires Normal(e) && IsTest(x) && Normal(x) && Tame(e, x) && x in Operands(And, e)
    ensures x in Operands(And, Merge(And, e, p, q, Join(And, At(e, p), At(e, q)).value))
  {
    var y, z, s := At(e, p), At(e, q), Operands(And, e);
    var w := JoinAnd(y, z).value;
    MergeStep(And, e, p, q);
    MergedOperands(e, p, q, w);
    PutSameValue(e, p, y);
    PutSameValue(e, q, z);
    TamePut(e, p, y, x);
    TamePut(e, q, z, x);
    JoinWithTest(x, y);
    JoinWithTest(x, z);
    SlotsKeep(s, Index(And, e, p), Index(And, e, q), w, x);
  }

  lemma SlotsKeep(s: seq<Expr>, i: nat, j: nat, w: Expr, x: Expr)
    requires i < |s| && j < |s| && x in s && (s[i] == x || s[j] == x ==> w == x)
    ensures x in s[i := TRUE][j := w]
  {
    var r, k := s[i := TRUE][j := w], PlaceOf(s, x);
    if k != i && k != j { assert r[k] == x; } else { assert r[j] == x; }
  }

  ghost function PlaceOf(s: seq<Expr>, x: Expr): (k: nat)
    requires x in s
    ensures k < |s| && s[k] == x
  {
    if s[0] == x then 0 else assert s == [s[0]] + s[1..]; 1 + PlaceOf(s[1..], x)
  }

  lemma {:induction false} MergedOperands(e: Expr, p: Path, q: Path, w: Expr)
    requires Operand(And, e, p) && Operand(And, e, q) && p != q && !IsOp(w, And)
    ensures var i, j, s := Index(And, e, p), Index(And, e, q), Operands(And, e);
            && i < |s| && j < |s| && i != j && s[i] == At(e, p) && s[j] == At(e, q)
            && Operands(And, Merge(And, e, p, q, w)) == s[i := TRUE][j := w]
  {
    IndexPut(And, e, p, TRUE);
    IndexPut(And, e, q, TRUE);
    PutOperand(And, e, p, TRUE);
    IndexPut(And, Put(e, p, TRUE), q, w);
    IndexSame(And, e, Put(e, p, TRUE), q);
    if Index(And, e, p) == Index(And, e, q) { IndexInjective(And, e, p, q); }
  }

  lemma {:induction false} IndexSame(t: BinOp, e: Expr, e': Expr, p: Path)
    requires SameChain(t, e, e') && InChain(t, e, p) && InChain(t, e', p)
    ensures Index(t, e, p) == Index(t, e', p)
  {
    if p != [] {
      SameChainLength(t, e.l, e'.l);
      if p[0].Left? { IndexSame(t, e.l, e'.l, p[1..]); } else { IndexSame(t, e.r, e'.r, p[1..]); }
    }
  }

  lemma {:induction false} SameChainLength(t: BinOp, e: Expr, e': Expr)
    requires SameChain(t, e, e')
    ensures |Operands(t, e)| == |Operands(t, e')|
  {
    if IsOp(e, t) {
      SameChainLength(t, e.l, e'.l);
      SameChainLength(t, e.r, e'.r);
    }
  }

  lemma {:induction false} PassKeeps(e: Expr, p: Path, q: Path, xs: Tests, only: bool)
    requires InChain(And, e, p) && InChain(And, e, q) && Keeps(e, xs, only)
    ensures Keeps(EliminateDups1(And, e, p, q).0, xs, only)
    decreases Below(And, e, p) + Below(And, e, q)
  {
    InChainSlot(And, e, p);
    InChainSlot(And, e, q);
    if IsOp(At(e, p), And) {
      InChainExtend(And, e, p, Left);
      InChainExtend(And, e, p, Right);
      var r := EliminateDups1(And, e, p + [Left], q).0;
      SlotsAfterPass(And, e, r, p + [Right], q);
      PassKeeps(e, p + [Left], q, xs, only);
      PassKeeps(r, p + [Right], q, xs, only);
    } else if IsOp(At(e, q), And) {
      InChainExtend(And, e, q, Left);
      InChainExtend(And, e, q, Right);
      var r := EliminateDups1(And, e, p, q + [Left]).0;
      SlotsAfterPass(And, e, r, p, q + [Right]);
      PassKeeps(e, p, q + [Left], xs, only);
      PassKeeps(r, p, q + [Right], xs, only);
    } else if p != q {
      InsideKeeps(e, p, q, xs, only);
      var r := DupsInside(And, e, p, q).0;
      if Join(And, At(r, p), At(r, q)).Some? { MergeKeeps(r, p, q, xs, only); }
    }
  }

  // The nested pass works on an operand that is a chain itself, so on none of the tests.
  lemma {:induction false} InsideKeeps(e: Expr, p: Path, q: Path, xs: Tests, only: bool)
    requires Operand(And, e, p) && Operand(And, e, q) && p != q && Keeps(e, xs, only)
    ensures Keeps(DupsInside(And, e, p, q).0, xs, only)
  {
    var o, r, s := At(e, p), DupsInside(And, e, p, q).0, Operands(And, e);
    if o.Bin? {
      var y := EliminateDups1(o.op, o, [], []).0;
      OperandSmaller(And, e, p, q);
      assert r == Put(e, p, y) && y.Bin? && y.op == o.op;
      IndexPut(And, e, p, y);
      forall x | x in xs ensures Tame(r, x) && x in Operands(And, r) {
        InsideTame(And, e, p, q, x);
        var k :| 0 <= k < |s| && s[k] == x;
        assert Operands(And, r)[k] == x;
      }
      assert o in s;
    }
  }

  lemma {:induction false} YnKeepsOperand(e: Expr, x: Expr)
    requires x in Operands(And, e) && !x.Bin? && !IsYn(x)
    ensures EliminateYn(e) == FALSE || x in Operands(And, EliminateYn(e))
    decreases e
  {
    if IsOp(e, And) {
      if x in Operands(And, e.l) { YnKeepsOperand(e.l, x); } else { YnKeepsOperand(e.r, x); }
    }
  }

  lemma {:induction false} YnOperands(e: Expr, xs: Tests)
    requires forall o :: o in Operands(And, e) ==> o == TRUE || (o in xs && !o.Bin? && !IsYn(o))
    ensures forall o :: o in Operands(And, EliminateYn(e)) ==> o in xs || o == TRUE
    decreases e
  {
    if IsOp(e, And) {
      YnOperands(e.l, xs);
      YnOperands(e.r, xs);
      assert FALSE !in xs || FALSE !in Operands(And, e);
    } else {
      assert e in Operands(And, e);
    }
  }

  /** The fixpoint of expr_eliminate_dups keeps the tests, unless it collapses to n. */
  lemma {:induction false} DupsKeep(e: Expr, xs: Tests, only: bool)
    requires Keeps(e, xs, only) && xs != []
    ensures Keeps(WithoutDups(e), xs, only) || (WithoutDups(e) == FALSE && !only)
    decreases Size(e)
  {
    assert xs[0] in xs;
    if !NoDups(e) {
      assert IsOp(e, And);
      var r := EliminateDups1(And, e, [], []).0;
      PassKeeps(e, [], [], xs, only);
      RoundOf(e);
      YnKeeps(r, xs, only);
      if Keeps(EliminateYn(r), xs, only) {
        DupsKeep(EliminateYn(r), xs, only);
      } else {
        assert NoDups(FALSE);
      }
    }
  }

  lemma {:induction false} RoundOf(e: Expr)
    requires e.Bin? && !NoDups(e)
    ensures Round(e) == EliminateYn(EliminateDups1(e.op, e, [], []).0) && Size(Round(e)) < Size(e)
    ensures WithoutDups(e) == WithoutDups(Round(e))
  {
  }

  lemma {:induction false} YnKeeps(r: Expr, xs: Tests, only: bool)
    requires Keeps(r, xs, only) && xs != []
    ensures Keeps(EliminateYn(r), xs, only) || (EliminateYn(r) == FALSE && !only)
  {
    EliminateYnNormal(r);
    forall x | x in xs
      ensures Tame(EliminateYn(r), x)
      ensures EliminateYn(r) == FALSE || x in Operands(And, EliminateYn(r))
    {
      YnTame(r, x);
      YnKeepsOperand(r, x);
    }
    if only {
      YnOperands(r, xs);
      assert xs[0] in xs;
      assert Operands(And, FALSE) == [FALSE];
    }
  }
}
