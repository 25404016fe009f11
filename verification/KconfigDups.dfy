/** expr_eliminate_dups of tools/kconfig/expr.c. The source walks one tree with two double
    pointers that both start at its root. Here a double pointer is the path from the root to the
    slot it points at, so that two paths alias exactly when the pointers do. */
module KconfigDups {
  import opened Basics
  import opened KconfigExpr
  import opened KconfigTransform
  import opened KconfigEq
  import opened KconfigJoin

  // ----- slots of a tree -----

  datatype Step = Left | Right
  type Path = seq<Step>

  predicate Slot(e: Expr, p: Path) {
    p == [] || (e.Bin? && Slot(if p[0].Left? then e.l else e.r, p[1..]))
  }

  function At(e: Expr, p: Path): Expr
    requires Slot(e, p)
  {
    if p == [] then e else At(if p[0].Left? then e.l else e.r, p[1..])
  }

  function Put(e: Expr, p: Path, x: Expr): Expr
    requires Slot(e, p)
  {
    if p == [] then x
    else if p[0].Left? then Bin(e.op, Put(e.l, p[1..], x), e.r)
    else Bin(e.op, e.l, Put(e.r, p[1..], x))
  }

  lemma {:induction false} SlotConcat(e: Expr, p: Path, q: Path)
    requires Slot(e, p)
    ensures Slot(e, p + q) <==> Slot(At(e, p), q)
    ensures Slot(e, p + q) ==> At(e, p + q) == At(At(e, p), q)
    ensures Slot(e, p + q) ==> forall x :: Put(e, p + q, x) == Put(e, p, Put(At(e, p), q, x))
  {
    if p == [] {
      assert p + q == q;
    } else {
      assert (p + q)[1..] == p[1..] + q;
      SlotConcat(if p[0].Left? then e.l else e.r, p[1..], q);
    }
  }

  lemma {:induction false} PutAt(e: Expr, p: Path, x: Expr)
    requires Slot(e, p)
    ensures Slot(Put(e, p, x), p) && At(Put(e, p, x), p) == x
    ensures Put(e, p, At(e, p)) == e
    ensures forall y :: Put(Put(e, p, x), p, y) == Put(e, p, y)
  {
    if p != [] {
      PutAt(if p[0].Left? then e.l else e.r, p[1..], x);
    }
  }

  /** Replacing a subtree by one of the same value keeps the value of the tree, and the
      size changes by the difference of the two. */
  lemma {:induction false} PutSameValue(e: Expr, p: Path, x: Expr)
    requires Slot(e, p)
    ensures SameValue(At(e, p), x) ==> SameValue(e, Put(e, p, x))
    ensures Size(Put(e, p, x)) == Size(e) - Size(At(e, p)) + Size(x)
    ensures Normal(e) ==> Normal(At(e, p))
    ensures Normal(e) && Normal(x) ==> Normal(Put(e, p, x))
  {
    if p != [] {
      PutSameValue(if p[0].Left? then e.l else e.r, p[1..], x);
    }
  }

  /** The nodes strictly above slot p all belong to one t-chain that starts at e. */
  predicate InChain(t: BinOp, e: Expr, p: Path) {
    p == [] || (IsOp(e, t) && InChain(t, if p[0].Left? then e.l else e.r, p[1..]))
  }

  lemma {:induction false} InChainSlot(t: BinOp, e: Expr, p: Path)
    requires InChain(t, e, p)
    ensures Slot(e, p)
  {
    if p != [] {
      InChainSlot(t, if p[0].Left? then e.l else e.r, p[1..]);
    }
  }

  /** Two trees with the same t-chain at their top; operands may differ. */
  predicate SameChain(t: BinOp, e: Expr, e': Expr) {
    if IsOp(e, t) then IsOp(e', t) && SameChain(t, e.l, e'.l) && SameChain(t, e.r, e'.r)
    else !IsOp(e', t)
  }

  function ChainSize(t: BinOp, e: Expr): nat {
    if IsOp(e, t) then 1 + ChainSize(t, e.l) + ChainSize(t, e.r) else 0
  }

  lemma {:induction false} InChainExtend(t: BinOp, e: Expr, p: Path, s: Step)
    requires InChain(t, e, p) && Slot(e, p) && IsOp(At(e, p), t)
    ensures InChain(t, e, p + [s]) && Slot(e, p + [s])
    ensures At(e, p + [s]) == if s.Left? then At(e, p).l else At(e, p).r
  {
    if p == [] {
      assert [s][1..] == [];
    } else {
      assert (p + [s])[1..] == p[1..] + [s];
      InChainExtend(t, if p[0].Left? then e.l else e.r, p[1..], s);
    }
  }

  lemma {:induction false} SameChainSlot(t: BinOp, e: Expr, e': Expr, p: Path)
    requires SameChain(t, e, e') && InChain(t, e, p)
    ensures InChain(t, e', p) && Slot(e, p) && Slot(e', p)
    ensures SameChain(t, At(e, p), At(e', p))
  {
    if p != [] {
      if p[0].Left? { SameChainSlot(t, e.l, e'.l, p[1..]); } else { SameChainSlot(t, e.r, e'.r, p[1..]); }
    }
  }

  lemma {:induction false} SameChainFacts(t: BinOp, e: Expr, e': Expr)
    ensures SameChain(t, e, e)
    ensures SameChain(t, e, e') ==> ChainSize(t, e) == ChainSize(t, e')
    ensures SameChain(t, e, e') ==> forall e'' :: SameChain(t, e', e'') ==> SameChain(t, e, e'')
  {
    if IsOp(e, t) {
      SameChainFacts(t, e.l, if IsOp(e', t) then e'.l else e.l);
      SameChainFacts(t, e.r, if IsOp(e', t) then e'.r else e.r);
    }
  }

  // ----- replacing operands of a chain -----

  /** Slot p holds an operand of the t-chain e. */
  predicate Operand(t: BinOp, e: Expr, p: Path) {
    InChain(t, e, p) && Slot(e, p) && !IsOp(At(e, p), t)
  }

  lemma {:induction false} PutOperand(t: BinOp, e: Expr, p: Path, x: Expr)
    requires Operand(t, e, p) && !IsOp(x, t)
    ensures SameChain(t, e, Put(e, p, x))
    ensures Operand(t, Put(e, p, x), p)
    ensures forall q :: Operand(t, e, q) && q != p ==>
              Operand(t, Put(e, p, x), q) && At(Put(e, p, x), q) == At(e, q)
  {
    if p != [] {
      PutOperand(t, if p[0].Left? then e.l else e.r, p[1..], x);
      SameChainFacts(t, e.l, e.l);
      SameChainFacts(t, e.r, e.r);
    }
    PutAt(e, p, x);
    forall q | Operand(t, e, q) && q != p
      ensures Operand(t, Put(e, p, x), q) && At(Put(e, p, x), q) == At(e, q)
    {
      PutElsewhere(t, e, p, q, x);
    }
  }

  lemma {:induction false} PutElsewhere(t: BinOp, e: Expr, p: Path, q: Path, x: Expr)
    requires Operand(t, e, p) && Operand(t, e, q) && q != p
    ensures Operand(t, Put(e, p, x), q) && At(Put(e, p, x), q) == At(e, q)
  {
    assert p != [] && q != [];
    assert p == [p[0]] + p[1..] && q == [q[0]] + q[1..];
    if p[0] == q[0] {
      PutElsewhere(t, if p[0].Left? then e.l else e.r, p[1..], q[1..], x);
    }
  }

  /** An operand can be taken out of its chain, leaving the unit behind. */
  lemma {:induction false} TakeOut(t: BinOp, e: Expr, p: Path, env: Env)
    requires WellFormed(env) && InChain(t, e, p) && Slot(e, p)
    ensures Value(e, env) == t.Apply(Value(Put(e, p, Sym(t.Unit())), env), Value(At(e, p), env))
  {
    if p != [] {
      TakeOut(t, if p[0].Left? then e.l else e.r, p[1..], env);
    }
  }

  lemma {:induction false} YnInChain(t: BinOp, e: Expr, p: Path)
    requires InChain(t, e, p) && Slot(e, p)
    requires !YnFree(At(e, p)) || (p != [] && IsYn(At(e, p)))
    ensures !YnFree(e)
  {
    if p != [] && YnFree(At(e, p)) && |p| == 1 {
      assert p[1..] == [];
    } else if p != [] {
      YnInChain(t, if p[0].Left? then e.l else e.r, p[1..]);
    }
  }

  /** The rewriting step: operands p and q become the unit and their join. */
  function Merge(t: BinOp, e: Expr, p: Path, q: Path, x: Expr): Expr
    requires Operand(t, e, p) && Operand(t, e, q) && p != q
  {
    PutOperand(t, e, p, Sym(t.Unit()));
    Put(Put(e, p, Sym(t.Unit())), q, x)
  }

  lemma {:induction false} MergeValue(t: BinOp, e: Expr, p: Path, q: Path, x: Expr, env: Env)
    requires Operand(t, e, p) && Operand(t, e, q) && p != q && WellFormed(env)
    requires Value(x, env) == t.Apply(Value(At(e, p), env), Value(At(e, q), env))
    ensures Value(Merge(t, e, p, q, x), env) == Value(e, env)
  {
    var f := Put(e, p, Sym(t.Unit()));
    PutOperand(t, e, p, Sym(t.Unit()));
    TakeOut(t, e, p, env);
    TakeOut(t, f, q, env);
    PutAt(f, q, x);
    PutInChain(t, f, q, x);
    TakeOut(t, Put(f, q, x), q, env);
  }

  lemma {:induction false} PutInChain(t: BinOp, e: Expr, p: Path, x: Expr)
    requires InChain(t, e, p) && Slot(e, p)
    ensures InChain(t, Put(e, p, x), p) && Slot(Put(e, p, x), p)
  {
    if p != [] {
      PutInChain(t, if p[0].Left? then e.l else e.r, p[1..], x);
    }
  }

  lemma {:induction false} MergeStep(t: BinOp, e: Expr, p: Path, q: Path)
    requires Operand(t, e, p) && Operand(t, e, q) && p != q
    requires Join(t, At(e, p), At(e, q)).Some?
    ensures var r := Merge(t, e, p, q, Join(t, At(e, p), At(e, q)).value);
            && SameChain(t, e, r) && SameValue(e, r) && Size(r) <= Size(e) && !YnFree(r)
            && (Normal(e) ==> Normal(r))
  {
    var x := Join(t, At(e, p), At(e, q)).value;
    var f, r := Put(e, p, Sym(t.Unit())), Merge(t, e, p, q, x);
    JoinSound(t, At(e, p), At(e, q));
    PutOperand(t, e, p, Sym(t.Unit()));
    PutOperand(t, f, q, x);
    SameChainFacts(t, e, f);
    PutSameValue(e, p, Sym(t.Unit()));
    PutSameValue(f, q, x);
    PutSameValue(e, q, x);
    assert p != [];
    assert At(r, p) == Sym(t.Unit()) by { PutAt(e, p, Sym(t.Unit())); }
    YnInChain(t, r, p);
    forall env | WellFormed(env) ensures Value(e, env) == Value(r, env) {
      MergeValue(t, e, p, q, x, env);
    }
  }

  // ----- expr_eliminate_dups1 and expr_eliminate_dups -----

  /** Nothing below slots p and q is left for the pass to rewrite. */
  predicate Settled(t: BinOp, e: Expr, p: Path, q: Path)
    requires InChain(t, e, p) && InChain(t, e, q)
    decreases Size(e), Below(t, e, p) + Below(t, e, q)
  {
    InChainSlot(t, e, p);
    InChainSlot(t, e, q);
    var x, y := At(e, p), At(e, q);
    if IsOp(x, t) then
      InChainExtend(t, e, p, Left);
      InChainExtend(t, e, p, Right);
      Settled(t, e, p + [Left], q) && Settled(t, e, p + [Right], q)
    else if IsOp(y, t) then
      InChainExtend(t, e, q, Left);
      InChainExtend(t, e, q, Right);
      Settled(t, e, p, q + [Left]) && Settled(t, e, p, q + [Right])
    else if p == q then true
    else
      && (x.Bin? ==> (OperandSmaller(t, e, p, q); Settled(x.op, x, [], [])))
      && Join(t, x, y).None?
  }

  function Below(t: BinOp, e: Expr, p: Path): nat {
    if Slot(e, p) then ChainSize(t, At(e, p)) else 0
  }

  lemma {:induction false} OperandSmaller(t: BinOp, e: Expr, p: Path, q: Path)
    requires Operand(t, e, p) && Operand(t, e, q) && p != q
    ensures p != [] && Size(At(e, p)) < Size(e)
  {
    AtSmaller(e, p);
  }

  lemma {:induction false} AtSmaller(e: Expr, p: Path)
    requires Slot(e, p)
    ensures Size(At(e, p)) <= Size(e)
    ensures p != [] ==> Size(At(e, p)) < Size(e)
  {
    if p != [] {
      AtSmaller(if p[0].Left? then e.l else e.r, p[1..]);
    }
  }

  /** What one pass may do to the tree: keep its meaning, never lengthen it, and count
      exactly when there was something to rewrite; a counted rewrite leaves a y or n behind
      for expr_eliminate_yn. */
  ghost predicate PassEffect(t: BinOp, e: Expr, r: Expr, n: nat) {
    && SameChain(t, e, r)
    && SameValue(e, r)
    && Size(r) <= Size(e)
    && (Normal(e) ==> Normal(r))
    && (n == 0 ==> r == e)
    && (n > 0 ==> !YnFree(r))
  }

  lemma PassTwice(t: BinOp, e: Expr, r1: Expr, n1: nat, r2: Expr, n2: nat)
    requires PassEffect(t, e, r1, n1) && PassEffect(t, r1, r2, n2)
    ensures PassEffect(t, e, r2, n1 + n2)
  {
    SameChainFacts(t, e, r1);
  }

  lemma PassNone(t: BinOp, e: Expr)
    ensures PassEffect(t, e, e, 0)
  {
    SameChainFacts(t, e, e);
  }

  lemma {:induction false} PassInside(t: BinOp, e: Expr, p: Path, x: Expr, n: nat)
    requires Operand(t, e, p) && At(e, p).Bin? && PassEffect(At(e, p).op, At(e, p), x, n)
    ensures PassEffect(t, e, Put(e, p, x), n)
  {
    PutOperand(t, e, p, x);
    PutSameValue(e, p, x);
    PutAt(e, p, x);
    if n > 0 {
      YnInChain(t, Put(e, p, x), p);
    }
  }

  /** expr_eliminate_dups1 on the tree e with both double pointers given as slots of e: the
      tree it leaves behind and what it adds to trans_count. */
  function EliminateDups1(t: BinOp, e: Expr, p: Path, q: Path): (res: (Expr, nat))
    requires InChain(t, e, p) && InChain(t, e, q)
    ensures PassEffect(t, e, res.0, res.1)
    ensures res.1 == 0 <==> Settled(t, e, p, q)
    decreases Size(e), Below(t, e, p) + Below(t, e, q), 1
  {
    InChainSlot(t, e, p);
    InChainSlot(t, e, q);
    PassNone(t, e);
    if IsOp(At(e, p), t) then
      InChainExtend(t, e, p, Left);
      InChainExtend(t, e, p, Right);
      var (r1, n1) := EliminateDups1(t, e, p + [Left], q);
      SlotsAfterPass(t, e, r1, p + [Right], q);
      var (r2, n2) := EliminateDups1(t, r1, p + [Right], q);
      PassTwice(t, e, r1, n1, r2, n2);
      (r2, n1 + n2)
    else if IsOp(At(e, q), t) then
      InChainExtend(t, e, q, Left);
      InChainExtend(t, e, q, Right);
      var (r1, n1) := EliminateDups1(t, e, p, q + [Left]);
      SlotsAfterPass(t, e, r1, p, q + [Right]);
      var (r2, n2) := EliminateDups1(t, r1, p, q + [Right]);
      PassTwice(t, e, r1, n1, r2, n2);
      (r2, n1 + n2)
    else if p == q then (e, 0)
    else
      var (r1, n1) := DupsInside(t, e, p, q);
      match Join(t, At(r1, p), At(r1, q))
      case None => (r1, n1)
      case Some(x) =>
        MergeStep(t, r1, p, q);
        var r2 := Merge(t, r1, p, q, x);
        PassTwice(t, e, r1, n1, r2, 1);
        (r2, n1 + 1)
  }

  // The nested call of expr_eliminate_dups1 on the operand in slot p.
  function DupsInside(t: BinOp, e: Expr, p: Path, q: Path): (res: (Expr, nat))
    requires Operand(t, e, p) && Operand(t, e, q) && p != q
    ensures PassEffect(t, e, res.0, res.1)
    ensures Operand(t, res.0, p) && Operand(t, res.0, q) && At(res.0, q) == At(e, q)
    ensures res.1 == 0 <==> (At(e, p).Bin? ==> NoDups(At(e, p)))
    decreases Size(e), 0, 0
  {
    PassNone(t, e);
    OperandSmaller(t, e, p, q);
    if At(e, p).Bin? then
      var (x, n) := EliminateDups1(At(e, p).op, At(e, p), [], []);
      PassInside(t, e, p, x, n);
      PutOperand(t, e, p, x);
      PutAt(e, p, x);
      (Put(e, p, x), n)
    else (e, 0)
  }

  /** No duplicate is left anywhere in e. */
  predicate NoDups(e: Expr) {
    e.Bin? ==> Settled(e.op, e, [], [])
  }

  lemma {:induction false} SlotsAfterPass(t: BinOp, e: Expr, r: Expr, p: Path, q: Path)
    requires InChain(t, e, p) && InChain(t, e, q) && SameChain(t, e, r)
    ensures InChain(t, r, p) && InChain(t, r, q)
    ensures Below(t, r, p) == Below(t, e, p) && Below(t, r, q) == Below(t, e, q)
  {
    SameChainSlot(t, e, r, p);
    SameChainSlot(t, e, r, q);
    SameChainFacts(t, At(e, p), At(r, p));
    SameChainFacts(t, At(e, q), At(r, q));
  }

  // One round of the loop: a pass, and the clean-up if the pass counted something.
  function Round(e: Expr): (r: Expr)
    ensures SameValue(e, r)
    ensures if NoDups(e) then r == e else YnFree(r) && Size(r) < Size(e)
    ensures Normal(e) ==> Normal(r)
  {
    if !e.Bin? then e
    else
      var (x, n) := EliminateDups1(e.op, e, [], []);
      if n == 0 then x
      else
        EliminateYnFree(x);
        EliminateYnSame(x);
        if Normal(x) then EliminateYnNormal(x); EliminateYn(x) else EliminateYn(x)
  }

  lemma {:induction false} EliminateYnSame(e: Expr)
    ensures SameValue(e, EliminateYn(e))
  {
    forall env | WellFormed(env) ensures Value(e, env) == Value(EliminateYn(e), env) {
      EliminateYnValue(e, env);
    }
  }

  /** The fixpoint that the rounds reach. */
  function WithoutDups(e: Expr): (r: Expr)
    ensures SameValue(e, r)
    ensures NoDups(r)
    ensures r == e || (YnFree(r) && Size(r) < Size(e))
    ensures r == e <==> NoDups(e)
    ensures Normal(e) ==> Normal(r)
    decreases Size(e)
  {
    if NoDups(e) then e else WithoutDups(Round(e))
  }

  /** The loop of expr_eliminate_dups: passes until one of them counts nothing. */
  method EliminateDups(e: Expr) returns (r: Expr)
    ensures r == WithoutDups(e)
  {
    r := e;
    while true
      invariant WithoutDups(r) == WithoutDups(e)
      decreases Size(r)
    {
      var transCount := 0;
      if r.Bin? {
        ghost var before := r;
        var res := EliminateDups1(r.op, r, [], []);
        r, transCount := res.0, res.1;
        assert transCount == 0 ==> r == before;
        if transCount != 0 {
          EliminateYnFree(r);
          assert EliminateYn(r) == Round(before);
        }
      }
      if transCount == 0 {
        break;
      }
      r := EliminateYn(r);
    }
  }

  // ----- what the absence of duplicates means -----

  lemma {:induction false} SettledPair(t: BinOp, e: Expr, p: Path, q: Path, a: Path, b: Path)
    requires Operand(t, e, p + a) && Operand(t, e, q + b) && p + a != q + b
    requires InChain(t, e, p) && InChain(t, e, q) && Settled(t, e, p, q)
    ensures Join(t, At(e, p + a), At(e, q + b)).None?
    ensures At(e, p + a).Bin? ==> Settled(At(e, p + a).op, At(e, p + a), [], [])
    decreases |a| + |b|
  {
    InChainSlot(t, e, p);
    InChainSlot(t, e, q);
    SlotConcat(e, p, a);
    SlotConcat(e, q, b);
    if IsOp(At(e, p), t) {
      assert a != [] by { assert p + [] == p; }
      assert p + a == p + [a[0]] + a[1..];
      InChainExtend(t, e, p, a[0]);
      SettledPair(t, e, p + [a[0]], q, a[1..], b);
    } else if IsOp(At(e, q), t) {
      assert b != [] by { assert q + [] == q; }
      assert q + b == q + [b[0]] + b[1..];
      InChainExtend(t, e, q, b[0]);
      SettledPair(t, e, p, q + [b[0]], a, b[1..]);
    } else {
      OperandIsLast(t, e, p, a);
      OperandIsLast(t, e, q, b);
      assert p + a == p && q + b == q;
    }
  }

  lemma {:induction false} OperandIsLast(t: BinOp, e: Expr, p: Path, a: Path)
    requires Operand(t, e, p) && InChain(t, e, p + a)
    ensures a == []
  {
    if p == [] {
      assert p + a == a;
    } else {
      assert (p + a)[1..] == p[1..] + a;
      OperandIsLast(t, if p[0].Left? then e.l else e.r, p[1..], a);
    }
  }

  /** A result of expr_eliminate_dups has no two operands in a chain that could still be
      merged, in particular no two identical ones, at any depth of alternating chains. */
  lemma {:induction false} NoDupsMeans(e: Expr, a: Path, b: Path)
    requires e.Bin? && NoDups(e)
    requires Operand(e.op, e, a) && Operand(e.op, e, b) && a != b
    ensures Join(e.op, At(e, a), At(e, b)).None?
    ensures At(e, a) != At(e, b)
    ensures NoDups(At(e, a))
  {
    assert [] + a == a && [] + b == b;
    SettledPair(e.op, e, [], [], a, b);
    ExprEqReflexive(At(e, a));
  }
}
