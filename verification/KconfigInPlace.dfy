/** The passes of tools/kconfig/expr.c as they work on allocated nodes: types and children
    are overwritten, a node takes over the contents of one of its children, and new nodes are
    allocated in between. Each pass is proved to leave the tree that the function of the same
    name computes. */
module KconfigInPlace {
  import opened KconfigExpr
  import opened KconfigTransform
  import opened KconfigEq

  datatype NodeType = E_SYMBOL | E_NOT | E_BIN(op: BinOp) | E_CMP(rel: Rel)

  /** union expr_data */
  datatype Data = NULL | SubExpr(expr: Node) | OfSymbol(sym: Symbol)

  /** struct expr */
  class Node {
    var typ: NodeType
    var left: Data
    var right: Data

    constructor (typ: NodeType, left: Data, right: Data)
      ensures this.typ == typ && this.left == left && this.right == right
    {
      this.typ, this.left, this.right := typ, left, right;
    }
  }

  /** Which nodes make up a tree. */
  datatype Shape = Nil | Tree(n: Node, l: Shape, r: Shape)

  function Nodes(s: Shape): set<Node> {
    if s.Nil? then {} else {s.n} + Nodes(s.l) + Nodes(s.r)
  }

  predicate Separate(s: Shape) {
    s.Tree? ==>
      && s.n !in Nodes(s.l) && s.n !in Nodes(s.r) && Nodes(s.l) !! Nodes(s.r)
      && Separate(s.l) && Separate(s.r)
  }

  // Framing needs to know that nothing in a shape is still to be allocated.
  lemma {:induction false} NodesAllocated(s: Shape)
    ensures forall n :: n in Nodes(s) ==> allocated(n)
  {
    if s.Tree? {
      NodesAllocated(s.l);
      NodesAllocated(s.r);
    }
  }

  /** The nodes of s hold the expression e. */
  ghost predicate Spells(s: Shape, e: Expr)
    reads Nodes(s)
  {
    && s.Tree?
    && match e
       case Sym(x) => s.l.Nil? && s.r.Nil? && s.n.typ == E_SYMBOL && s.n.left == OfSymbol(x)
       case Cmp(rel, a, b) =>
         s.l.Nil? && s.r.Nil? && s.n.typ == E_CMP(rel) && s.n.left == OfSymbol(a) && s.n.right == OfSymbol(b)
       case Not(x) =>
         && s.l.Tree? && s.r.Nil? && s.n.typ == E_NOT && s.n.left == SubExpr(s.l.n) && s.n.right == NULL
         && Spells(s.l, x)
       case Bin(op, x, y) =>
         && s.l.Tree? && s.r.Tree? && s.n.typ == E_BIN(op) && s.n.left == SubExpr(s.l.n) && s.n.right == SubExpr(s.r.n)
         && Spells(s.l, x) && Spells(s.r, y)
  }

  /** A tree of its own, rooted at n, that holds e. */
  ghost predicate Holds(n: Node, s: Shape, e: Expr)
    reads Nodes(s)
  {
    s.Tree? && s.n == n && Separate(s) && Spells(s, e)
  }

  lemma {:induction false} HoldsBin(n: Node, sl: Shape, sr: Shape, op: BinOp, l: Expr, r: Expr)
    requires sl.Tree? && sr.Tree? && Holds(sl.n, sl, l) && Holds(sr.n, sr, r)
    requires n !in Nodes(sl) && n !in Nodes(sr) && Nodes(sl) !! Nodes(sr)
    requires n.typ == E_BIN(op) && n.left == SubExpr(sl.n) && n.right == SubExpr(sr.n)
    ensures Holds(n, Tree(n, sl, sr), Bin(op, l, r))
  {
  }

  // ----- expr_trans_bool -----

  /** expr_trans_bool keeps the nodes and overwrites their contents. */
  method TransBoolInPlace(n: Node, ghost s: Shape, ghost e: Expr)
    requires Holds(n, s, e)
    modifies Nodes(s)
    ensures Holds(n, s, TransBool(e))
    decreases e
  {
    NodesAllocated(s);
    match n.typ
    case E_BIN(_) =>
      TransBoolInPlace(n.left.expr, s.l, e.l);
      TransBoolInPlace(n.right.expr, s.r, e.r);
    case E_NOT =>
      TransBoolInPlace(n.left.expr, s.l, e.e);
    case E_CMP(rel) =>
      if rel.Ne? && n.left.sym.Type() == Tristate && n.right == OfSymbol(SYM_NO) {
        n.typ := E_SYMBOL;
        n.right := NULL;
      }
    case E_SYMBOL =>
  }

  // ----- expr_eliminate_yn -----

  /** The node turns into a symbol. */
  method BecomeSymbol(n: Node, x: Symbol)
    modifies n
    ensures Holds(n, Tree(n, Nil, Nil), Sym(x))
  {
    n.typ, n.left, n.right := E_SYMBOL, OfSymbol(x), NULL;
  }

  /** *n = *child */
  method TakeContents(n: Node, child: Node, ghost s: Shape, ghost e: Expr)
    requires Holds(child, s, e) && n !in Nodes(s)
    modifies n
    ensures Holds(n, Tree(n, s.l, s.r), e)
  {
    NodesAllocated(s);
    n.typ, n.left, n.right := child.typ, child.left, child.right;
  }

  function IsConst(n: Node, x: Symbol): bool
    reads n
  {
    n.typ == E_SYMBOL && n.left == OfSymbol(x)
  }

  lemma {:induction false} ConstSpelled(s: Shape, e: Expr, x: Symbol)
    requires Spells(s, e)
    ensures IsConst(s.n, x) <==> e == Sym(x)
  {
  }

  /** expr_eliminate_yn: the root keeps its place and takes over the contents of the operand
      that is left. */
  method EliminateYnInPlace(n: Node, ghost s: Shape, ghost e: Expr) returns (ghost s': Shape)
    requires Holds(n, s, e)
    modifies Nodes(s)
    ensures Holds(n, s', EliminateYn(e)) && Nodes(s') <= Nodes(s)
    decreases e
  {
    NodesAllocated(s);
    s' := s;
    if n.typ.E_BIN? {
      var op, left, right := n.typ.op, n.left.expr, n.right.expr;
      ghost var sl := EliminateYnInPlace(left, s.l, e.l);
      ghost var sr := EliminateYnInPlace(right, s.r, e.r);
      s' := SimplifyInPlace(n, Tree(n, sl, sr), EliminateYn(e.l), EliminateYn(e.r));
    }
  }

  /** The rest of the case of an and/or node, whose operands are done. */
  method SimplifyInPlace(n: Node, ghost s: Shape, ghost l: Expr, ghost r: Expr) returns (ghost s': Shape)
    requires n.typ.E_BIN? && Holds(n, s, Bin(n.typ.op, l, r))
    modifies n
    ensures Holds(n, s', SimplifyBin(old(n.typ.op), l, r)) && Nodes(s') <= Nodes(s)
  {
    var op, left, right := n.typ.op, n.left.expr, n.right.expr;
    var zero := op.Dual().Unit();
    ConstSpelled(s.l, l, zero);
    ConstSpelled(s.l, l, op.Unit());
    ConstSpelled(s.r, r, zero);
    ConstSpelled(s.r, r, op.Unit());
    s' := s;
    if IsConst(left, zero) || (!IsConst(left, op.Unit()) && IsConst(right, zero)) {
      BecomeSymbol(n, zero);
      s' := Tree(n, Nil, Nil);
    } else if IsConst(left, op.Unit()) {
      TakeContents(n, right, s.r, r);
      s' := Tree(n, s.r.l, s.r.r);
    } else if IsConst(right, op.Unit()) {
      TakeContents(n, left, s.l, l);
      s' := Tree(n, s.l.l, s.l.r);
    }
  }

  // ----- expr_transform -----

  /** The comparison cases of expr_transform. */
  method TransformCmpInPlace(n: Node, ghost s: Shape, ghost rel: Rel, ghost a: Symbol, ghost b: Symbol)
    returns (ghost s': Shape, ghost added: set<Node>)
    requires Holds(n, s, Cmp(rel, a, b))
    modifies n
    ensures Holds(n, s', TransformCmp(rel, a, b))
    ensures fresh(added) && Nodes(s') <= Nodes(s) + added
  {
    s', added := s, {};
    var left, right, ordered := n.left.sym, n.right.sym, n.typ.rel.Ordered();
    if left.Type() != Boolean || ordered {
      return;
    }
    if right == (if n.typ.rel.Eq? then SYM_NO else SYM_YES) {
      var child := new Node(E_SYMBOL, OfSymbol(left), NULL);
      n.typ, n.left, n.right := E_NOT, SubExpr(child), NULL;
      s', added := Tree(n, Tree(child, Nil, Nil), Nil), {child};
    } else if right == SYM_MOD {
      BecomeSymbol(n, if n.typ.rel.Eq? then SYM_NO else SYM_YES);
    } else if right == (if n.typ.rel.Eq? then SYM_YES else SYM_NO) {
      BecomeSymbol(n, left);
    }
  }

  // The node turns into the negation of its left operand; a new node negates the right one.
  method NegateOperands(x: Node, ghost sl: Shape, ghost sr: Shape, ghost op: BinOp, ghost l: Expr, ghost r: Expr)
    returns (other: Node)
    requires Holds(x, Tree(x, sl, sr), Bin(op, l, r))
    modifies x
    ensures fresh(other)
    ensures Holds(x, Tree(x, sl, Nil), Not(l)) && Holds(other, Tree(other, sr, Nil), Not(r))
  {
    NodesAllocated(sl);
    NodesAllocated(sr);
    other := new Node(E_NOT, x.right, NULL);
    x.typ, x.right := E_NOT, NULL;
  }

  /** De Morgan's step: n and its child x are reused, one negation is new. */
  method PushNot(n: Node, x: Node, ghost s: Shape, ghost op: BinOp, ghost l: Expr, ghost r: Expr)
    returns (ghost s': Shape, ghost added: set<Node>)
    requires Holds(n, s, Not(Bin(op, l, r))) && x == s.l.n
    modifies n, x
    ensures Holds(n, s', Bin(op.Dual(), Not(l), Not(r)))
    ensures fresh(added) && Nodes(s') <= Nodes(s) + added
  {
    ghost var sl, sr := s.l.l, s.l.r;
    assert s.l == Tree(x, sl, sr) && Holds(x, s.l, Bin(op, l, r));
    NodesAllocated(sl);
    NodesAllocated(sr);
    n.typ := E_BIN(x.typ.op.Dual());
    var other := NegateOperands(x, sl, sr, op, l, r);
    n.right := SubExpr(other);
    assert Holds(x, Tree(x, sl, Nil), Not(l)) && Holds(other, Tree(other, sr, Nil), Not(r));
    HoldsBin(n, Tree(x, sl, Nil), Tree(other, sr, Nil), op.Dual(), Not(l), Not(r));
    s', added := Tree(n, Tree(x, sl, Nil), Tree(other, sr, Nil)), {other};
  }

  /** expr_transform. Nodes of the tree are reused, dropped or added; the result may have
      another root. */
  method TransformInPlace(n: Node, ghost s: Shape, ghost e: Expr)
    returns (r: Node, ghost s': Shape, ghost added: set<Node>)
    requires Holds(n, s, e)
    modifies Nodes(s)
    ensures Holds(r, s', Transform(e))
    ensures fresh(added) && Nodes(s') <= Nodes(s) + added
    decreases Weight(e)
  {
    NodesAllocated(s);
    r, s', added := n, s, {};
    match n.typ
    case E_SYMBOL =>
    case E_CMP(_) => s', added := TransformCmpInPlace(n, s, e.rel, e.a, e.b);
    case E_BIN(_) => s', added := TransformOperands(n, s, e);
    case E_NOT => r, s', added := TransformNegation(n, s, e.e);
  }

  method TransformOperands(n: Node, ghost s: Shape, ghost e: Expr) returns (ghost s': Shape, ghost added: set<Node>)
    requires Holds(n, s, e) && e.Bin?
    modifies Nodes(s)
    ensures Holds(n, s', Bin(e.op, Transform(e.l), Transform(e.r)))
    ensures fresh(added) && Nodes(s') <= Nodes(s) + added
    decreases Weight(e), 1
  {
    NodesAllocated(s);
    var left, sl, al := TransformInPlace(n.left.expr, s.l, e.l);
    NodesAllocated(sl);
    n.left := SubExpr(left);
    ghost var middle := Tree(n, sl, s.r);
    assert Holds(n, middle, Bin(e.op, Transform(e.l), e.r));
    ghost var ar;
    s', ar := TransformRight(n, middle, e.op, Transform(e.l), e.r);
    added := al + ar;
  }

  method TransformRight(n: Node, ghost s: Shape, ghost op: BinOp, ghost l: Expr, ghost r: Expr)
    returns (ghost s': Shape, ghost added: set<Node>)
    requires Holds(n, s, Bin(op, l, r))
    modifies n, Nodes(s.r)
    ensures Holds(n, s', Bin(op, l, Transform(r)))
    ensures fresh(added) && Nodes(s') <= Nodes(s) + added
    decreases Weight(Bin(op, l, r)), 0
  {
    NodesAllocated(s);
    NodesAllocated(s.l);
    assert Holds(s.l.n, s.l, l);
    var right, sr, a := TransformInPlace(n.right.expr, s.r, r);
    added := a;
    assert n !in Nodes(sr) && Nodes(s.l) !! Nodes(sr) && Holds(s.l.n, s.l, l);
    n.right := SubExpr(right);
    s' := Tree(n, s.l, sr);
  }

  method TransformNegation(n: Node, ghost s: Shape, ghost e: Expr)
    returns (r: Node, ghost s': Shape, ghost added: set<Node>)
    requires Holds(n, s, Not(e))
    modifies Nodes(s)
    ensures Holds(r, s', Transform(Not(e)))
    ensures fresh(added) && Nodes(s') <= Nodes(s) + added
    decreases Weight(Not(e)), 2
  {
    NodesAllocated(s);
    assert Holds(s.l.n, s.l, e);
    var x, sx, ax := TransformInPlace(n.left.expr, s.l, e);
    ghost var middle, a := Tree(n, sx, Nil), {};
    Hang(n, x, sx, Transform(e));
    TransformIdempotent(e);
    r, s', a := TransformNot(n, x, middle, Transform(e), Weight(Not(e)));
    added := ax + a;
  }

  // The negation gets a new operand.
  method Hang(n: Node, x: Node, ghost sx: Shape, ghost e: Expr)
    requires Holds(x, sx, e) && n !in Nodes(sx) && n.typ == E_NOT && n.right == NULL
    modifies n
    ensures Holds(n, Tree(n, sx, Nil), Not(e))
  {
    NodesAllocated(sx);
    n.left := SubExpr(x);
  }

  /** The negation cases of expr_transform; the operand x is done. */
  method TransformNot(n: Node, x: Node, ghost s: Shape, ghost e: Expr, ghost bound: nat)
    returns (r: Node, ghost s': Shape, ghost added: set<Node>)
    requires Holds(n, s, Not(e)) && x == s.l.n && Transform(e) == e && Weight(Not(e)) <= bound
    modifies Nodes(s)
    ensures Holds(r, s', Transform(Not(e)))
    ensures fresh(added) && Nodes(s') <= Nodes(s) + added
    decreases bound, 1
  {
    NodesAllocated(s);
    assert Holds(x, s.l, e);
    r, s', added := n, s, {};
    match x.typ
    case E_NOT =>
      r, s', added := TransformInPlace(x.left.expr, s.l.l, e.e);
    case E_CMP(rel) =>
      x.typ := E_CMP(rel.Negate());
      r, s' := x, s.l;
    case E_BIN(op) =>
      r, s', added := TransformPushed(n, x, s, e);
    case E_SYMBOL =>
      var sym := x.left.sym;
      if IsTriConst(sym) {
        x.left := OfSymbol(if sym == SYM_YES then SYM_NO else if sym == SYM_MOD then SYM_MOD else SYM_YES);
        r, s' := x, s.l;
      }
  }

  method TransformPushed(n: Node, x: Node, ghost s: Shape, ghost e: Expr)
    returns (r: Node, ghost s': Shape, ghost added: set<Node>)
    requires e.Bin? && Holds(n, s, Not(e)) && x == s.l.n
    modifies Nodes(s)
    ensures Holds(r, s', Transform(Bin(e.op.Dual(), Not(e.l), Not(e.r))))
    ensures fresh(added) && Nodes(s') <= Nodes(s) + added
    decreases Weight(Not(e)), 0
  {
    DeMorganWeight(e.op, e.l, e.r);
    ghost var pushed, a := PushNot(n, x, s, e.op, e.l, e.r);
    ghost var b;
    r, s', b := TransformInPlace(n, pushed, Bin(e.op.Dual(), Not(e.l), Not(e.r)));
    added := a + b;
  }

  // ----- expr_copy, expr_eq and expr_eliminate_eq -----

  /** expr_copy */
  method Copy(n: Node, ghost s: Shape, ghost e: Expr) returns (r: Node, ghost s': Shape)
    requires Holds(n, s, e)
    ensures Holds(r, s', e) && fresh(Nodes(s'))
    decreases e
  {
    NodesAllocated(s);
    match n.typ
    case E_SYMBOL =>
      r := new Node(E_SYMBOL, n.left, NULL);
      s' := Tree(r, Nil, Nil);
    case E_CMP(_) =>
      r := new Node(n.typ, n.left, n.right);
      s' := Tree(r, Nil, Nil);
    case E_NOT =>
      var x, sx := Copy(n.left.expr, s.l, e.e);
      NodesAllocated(sx);
      r := new Node(E_NOT, SubExpr(x), NULL);
      s' := Tree(r, sx, Nil);
    case E_BIN(_) => r, s' := CopyBin(n, s, e);
  }

  method CopyBin(n: Node, ghost s: Shape, ghost e: Expr) returns (r: Node, ghost s': Shape)
    requires Holds(n, s, e) && e.Bin?
    ensures Holds(r, s', e) && fresh(Nodes(s'))
    decreases e, 0
  {
    NodesAllocated(s.r);
    assert Holds(s.r.n, s.r, e.r);
    var x, sx := Copy(n.left.expr, s.l, e.l);
    NodesAllocated(sx);
    var y, sy := Copy(n.right.expr, s.r, e.r);
    NodesAllocated(sy);
    assert Nodes(sx) !! Nodes(sy) && Holds(x, sx, e.l);
    r := new Node(n.typ, SubExpr(x), SubExpr(y));
    s' := Tree(r, sx, sy);
    HoldsBin(r, sx, sy, e.op, e.l, e.r);
  }

  /** expr_eq; chains are compared by cancelling copies of them against each other. */
  method Equal(n1: Node, n2: Node, ghost s1: Shape, ghost s2: Shape, ghost x: Expr, ghost y: Expr) returns (eq: bool)
    requires Holds(n1, s1, x) && Holds(n2, s2, y)
    ensures eq == ExprEq(x, y)
    decreases Size(x) + Size(y), 2
  {
    NodesAllocated(s1);
    NodesAllocated(s2);
    if n1.typ != n2.typ {
      return false;
    }
    match n1.typ
    case E_SYMBOL => return n1.left.sym == n2.left.sym;
    case E_CMP(_) => return n1.left.sym == n2.left.sym && n1.right.sym == n2.right.sym;
    case E_NOT =>
      eq := Equal(n1.left.expr, n2.left.expr, s1.l, s2.l, x.e, y.e);
    case E_BIN(_) =>
      eq := EqualChains(n1, n2, s1, s2, x, y);
  }

  method EqualChains(n1: Node, n2: Node, ghost s1: Shape, ghost s2: Shape, ghost x: Expr, ghost y: Expr)
    returns (eq: bool)
    requires Holds(n1, s1, x) && Holds(n2, s2, y) && n1.typ.E_BIN? && n1.typ == n2.typ
    ensures eq == ExprEq(x, y)
    decreases Size(x) + Size(y), 2, 3
  {
    ghost var op := n1.typ.op;
    NodesAllocated(s2);
    var c1, t1 := Copy(n1, s1, x);
    NodesAllocated(t1);
    var c2, t2 := Copy(n2, s2, y);
    NodesAllocated(t2);
    assert Holds(c1, t1, x) && Nodes(t1) !! Nodes(t2);
    c1, c2, t1, t2 := EliminateEqInPlace(c1, c2, t1, t2, x, y);
    ghost var x', y' := EliminateYn(CancelChain(op, x, y).0), EliminateYn(CancelChain(op, x, y).1);
    eq := c1.typ == E_SYMBOL && c2.typ == E_SYMBOL && c1.left.sym == c2.left.sym;
    assert eq == (x'.Sym? && y'.Sym? && x'.s == y'.s);
  }

  /** expr_eliminate_eq: up to two cancelling passes, and the clean-up of both sides. */
  method EliminateEqInPlace(n1: Node, n2: Node, ghost s1: Shape, ghost s2: Shape, ghost x: Expr, ghost y: Expr)
    returns (r1: Node, r2: Node, ghost s1': Shape, ghost s2': Shape)
    requires Holds(n1, s1, x) && Holds(n2, s2, y) && Nodes(s1) !! Nodes(s2)
    modifies Nodes(s1), Nodes(s2)
    ensures Holds(r1, s1', EliminateEq(x, y).0) && Holds(r2, s2', EliminateEq(x, y).1)
    decreases Size(x) + Size(y), 2, 2
  {
    ghost var t1, t2, added := s1, s2, {};
    r1, r2 := n1, n2;
    if n1.typ.E_BIN? {
      r1, r2, t1, t2, added := Cancel(n1.typ.op, n1, n2, s1, s2, x, y);
    }
    ghost var (x1, y1) := if x.Bin? then CancelChain(x.op, x, y) else (x, y);
    r1, r2, s1', s2' := SecondPassInPlace(r1, r2, t1, t2, x1, y1);
  }

  method SecondPassInPlace(n1: Node, n2: Node, ghost s1: Shape, ghost s2: Shape, ghost x: Expr, ghost y: Expr)
    returns (r1: Node, r2: Node, ghost s1': Shape, ghost s2': Shape)
    requires Holds(n1, s1, x) && Holds(n2, s2, y) && Nodes(s1) !! Nodes(s2)
    modifies Nodes(s1), Nodes(s2)
    ensures Holds(r1, s1', SecondPass(x, y).0) && Holds(r2, s2', SecondPass(x, y).1)
    decreases Size(x) + Size(y), 2, 1
  {
    ghost var t1, t2, added := s1, s2, {};
    r1, r2 := n1, n2;
    if n1.typ != n2.typ && n2.typ.E_BIN? {
      r1, r2, t1, t2, added := Cancel(n2.typ.op, n1, n2, s1, s2, x, y);
    }
    ghost var (x', y') := if y.Bin? && !IsOp(x, y.op) then CancelChain(y.op, x, y) else (x, y);
    s1', s2' := CleanUp(r1, r2, t1, t2, x', y');
  }

  method CleanUp(n1: Node, n2: Node, ghost s1: Shape, ghost s2: Shape, ghost x: Expr, ghost y: Expr)
    returns (ghost s1': Shape, ghost s2': Shape)
    requires Holds(n1, s1, x) && Holds(n2, s2, y) && Nodes(s1) !! Nodes(s2)
    modifies Nodes(s1), Nodes(s2)
    ensures Holds(n1, s1', EliminateYn(x)) && Holds(n2, s2', EliminateYn(y))
  {
    NodesAllocated(s2);
    s1' := EliminateYnInPlace(n1, s1, x);
    NodesAllocated(s1');
    assert Holds(n2, s2, y);
    s2' := EliminateYnInPlace(n2, s2, y);
  }

  /** __expr_eliminate_eq. Its two double pointers are the in- and out-parameters here: what
      comes back is what the slots point to afterwards. */
  method Cancel(t: BinOp, n1: Node, n2: Node, ghost s1: Shape, ghost s2: Shape, ghost x: Expr, ghost y: Expr)
    returns (r1: Node, r2: Node, ghost s1': Shape, ghost s2': Shape, ghost added: set<Node>)
    requires Holds(n1, s1, x) && Holds(n2, s2, y) && Nodes(s1) !! Nodes(s2)
    modifies Nodes(s1), Nodes(s2)
    ensures Holds(r1, s1', CancelChain(t, x, y).0) && Holds(r2, s2', CancelChain(t, x, y).1)
    ensures Nodes(s1') !! Nodes(s2') && fresh(added)
    ensures Nodes(s1') <= Nodes(s1) + added && Nodes(s2') <= Nodes(s2) + added
    decreases Size(x) + Size(y), if IsOp(x, t) || IsOp(y, t) then 1 else 3
  {
    NodesAllocated(s1);
    NodesAllocated(s2);
    r1, r2, s1', s2', added := n1, n2, s1, s2, {};
    if n1.typ == E_BIN(t) {
      r2, s1', s2', added := CancelLeftTree(t, n1, n2, s1, s2, x.l, x.r, y);
    } else if n2.typ == E_BIN(t) {
      r1, s1', s2', added := CancelRightTree(t, n1, n2, s1, s2, x, y.l, y.r);
    } else {
      r1, r2, s1', s2', added := CancelOperands(t, n1, n2, s1, s2, x, y);
    }
  }

  /** Neither tree is a chain. */
  method CancelOperands(t: BinOp, n1: Node, n2: Node, ghost s1: Shape, ghost s2: Shape, ghost x: Expr, ghost y: Expr)
    returns (r1: Node, r2: Node, ghost s1': Shape, ghost s2': Shape, ghost added: set<Node>)
    requires Holds(n1, s1, x) && Holds(n2, s2, y) && Nodes(s1) !! Nodes(s2) && !IsOp(x, t) && !IsOp(y, t)
    ensures Holds(r1, s1', CancelChain(t, x, y).0) && Holds(r2, s2', CancelChain(t, x, y).1)
    ensures Nodes(s1') !! Nodes(s2') && fresh(added)
    ensures Nodes(s1') <= Nodes(s1) + added && Nodes(s2') <= Nodes(s2) + added
    decreases Size(x) + Size(y), 3, 0
  {
    NodesAllocated(s1);
    NodesAllocated(s2);
    r1, r2, s1', s2', added := n1, n2, s1, s2, {};
    var same := n1.typ == E_SYMBOL && n2.typ == E_SYMBOL && n1.left.sym == n2.left.sym;
    if same && (n1.left.sym == SYM_YES || n1.left.sym == SYM_NO) {
      return;
    }
    assert !(x == y && IsYn(x));
    var eq := Equal(n1, n2, s1, s2, x, y);
    if eq {
      r1 := new Node(E_SYMBOL, OfSymbol(t.Unit()), NULL);
      r2 := new Node(E_SYMBOL, OfSymbol(t.Unit()), NULL);
      s1', s2', added := Tree(r1, Nil, Nil), Tree(r2, Nil, Nil), {r1, r2};
    }
  }

  /** The first tree is a chain: its left and then its right child are held against the
      second tree. */
  method CancelLeftTree(t: BinOp, n1: Node, n2: Node, ghost s1: Shape, ghost s2: Shape, ghost l: Expr, ghost r: Expr,
                        ghost y: Expr)
    returns (r2: Node, ghost s1': Shape, ghost s2': Shape, ghost added: set<Node>)
    requires Holds(n1, s1, Bin(t, l, r)) && Holds(n2, s2, y) && Nodes(s1) !! Nodes(s2)
    modifies Nodes(s1), Nodes(s2)
    ensures Holds(n1, s1', CancelChain(t, Bin(t, l, r), y).0) && Holds(r2, s2', CancelChain(t, Bin(t, l, r), y).1)
    ensures Nodes(s1') !! Nodes(s2') && fresh(added)
    ensures Nodes(s1') <= Nodes(s1) + added && Nodes(s2') <= Nodes(s2) + added
    decreases Size(Bin(t, l, r)) + Size(y), 0
  {
    ghost var t1, t2, a, b;
    r2, t1, t2, a := CancelFirst(t, n1, n2, true, s1, s2, l, r, y);
    ghost var (l', y') := CancelChain(t, l, y);
    r2, s1', s2', b := CancelFirst(t, n1, r2, false, t1, t2, r, l', y');
    added := a + b;
  }

  method CancelRightTree(t: BinOp, n1: Node, n2: Node, ghost s1: Shape, ghost s2: Shape, ghost x: Expr,
                         ghost l: Expr, ghost r: Expr)
    returns (r1: Node, ghost s1': Shape, ghost s2': Shape, ghost added: set<Node>)
    requires Holds(n1, s1, x) && Holds(n2, s2, Bin(t, l, r)) && Nodes(s1) !! Nodes(s2) && !IsOp(x, t)
    modifies Nodes(s1), Nodes(s2)
    ensures Holds(r1, s1', CancelChain(t, x, Bin(t, l, r)).0) && Holds(n2, s2', CancelChain(t, x, Bin(t, l, r)).1)
    ensures Nodes(s1') !! Nodes(s2') && fresh(added)
    ensures Nodes(s1') <= Nodes(s1) + added && Nodes(s2') <= Nodes(s2) + added
    decreases Size(x) + Size(Bin(t, l, r)), 0
  {
    ghost var t1, t2, a, b;
    r1, t1, t2, a := CancelSecond(t, n1, n2, true, s1, s2, x, l, r);
    ghost var (x', l') := CancelChain(t, x, l);
    r1, s1', s2', b := CancelSecond(t, r1, n2, false, t1, t2, x', r, l');
    added := a + b;
  }

  /** A node with its left or right child and the other one. */
  function Around(n: Node, left: bool, child: Shape, kept: Shape): Shape {
    if left then Tree(n, child, kept) else Tree(n, kept, child)
  }

  function Pair(t: BinOp, left: bool, c: Expr, k: Expr): Expr {
    if left then Bin(t, c, k) else Bin(t, k, c)
  }

  /** *slot = child; a tree elsewhere is not affected. */
  method Attach(t: BinOp, n: Node, left: bool, child: Node, ghost sc: Shape, ghost kept: Shape, ghost c: Expr,
                ghost k: Expr, ghost other: Node, ghost so: Shape, ghost z: Expr)
    returns (ghost s': Shape)
    requires Holds(child, sc, c) && kept.Tree? && Holds(kept.n, kept, k)
    requires {n} + Nodes(kept) !! Nodes(sc) && n !in Nodes(kept)
    requires n.typ == E_BIN(t) && (if left then n.right else n.left) == SubExpr(kept.n)
    requires Holds(other, so, z) && {n} + Nodes(kept) !! Nodes(so) && Nodes(sc) !! Nodes(so)
    modifies n
    ensures Holds(n, s', Pair(t, left, c, k)) && Holds(other, so, z)
    ensures Nodes(s') == {n} + Nodes(kept) + Nodes(sc) && Nodes(s') !! Nodes(so)
  {
    s' := Around(n, left, sc, kept);
    NodesAllocated(so);
    NodesAllocated(sc);
    NodesAllocated(kept);
    if left {
      n.left := SubExpr(child);
    } else {
      n.right := SubExpr(child);
    }
  }

  // What Attach undoes.
  lemma Detach(t: BinOp, n: Node, left: bool, s: Shape, c: Expr, k: Expr) returns (sc: Shape, kept: Shape)
    requires Holds(n, s, Pair(t, left, c, k))
    ensures sc.Tree? && kept.Tree? && s == Around(n, left, sc, kept)
    ensures Holds(sc.n, sc, c) && Holds(kept.n, kept, k)
    ensures n !in Nodes(sc) && n !in Nodes(kept) && Nodes(sc) !! Nodes(kept)
    ensures Nodes(s) == {n} + Nodes(sc) + Nodes(kept)
    ensures n.typ == E_BIN(t) && (if left then n.right else n.left) == SubExpr(kept.n)
    ensures (if left then n.left else n.right) == SubExpr(sc.n)
  {
    sc, kept := if left then s.l else s.r, if left then s.r else s.l;
  }

  lemma Apart(rest: set<Node>, a: set<Node>, b: set<Node>, added: set<Node>, a': set<Node>, b': set<Node>)
    requires rest !! a && rest !! b && rest !! added && a' <= a + added && b' <= b + added
    ensures rest !! a' && rest !! b'
  {
  }

  /** One recursive call of __expr_eliminate_eq: a child of the chain node n in the first tree
      is held against the second tree. */
  method CancelFirst(t: BinOp, n: Node, n2: Node, left: bool,
                     ghost s: Shape, ghost s2: Shape, ghost c: Expr, ghost k: Expr, ghost y: Expr)
    returns (r2: Node, ghost s': Shape, ghost s2': Shape, ghost added: set<Node>)
    requires Holds(n, s, Pair(t, left, c, k)) && Holds(n2, s2, y) && Nodes(s) !! Nodes(s2)
    modifies Nodes(s), Nodes(s2)
    ensures Holds(n, s', Pair(t, left, CancelChain(t, c, y).0, k)) && Holds(r2, s2', CancelChain(t, c, y).1)
    ensures Nodes(s') !! Nodes(s2') && fresh(added)
    ensures Nodes(s') <= Nodes(s) + added && Nodes(s2') <= Nodes(s2) + added
    decreases Size(c) + Size(y), 4
  {
    ghost var sc, kept := Detach(t, n, left, s, c, k);
    ghost var before := Nodes(sc);
    NodesAllocated(kept);
    var child := if left then n.left.expr else n.right.expr;
    child, r2, sc, s2', added := Cancel(t, child, n2, sc, s2, c, y);
    assert added !! Nodes(kept) && n !in added;
    Apart({n} + Nodes(kept), before, Nodes(s2), added, Nodes(sc), Nodes(s2'));
    s' := Attach(t, n, left, child, sc, kept, CancelChain(t, c, y).0, k, r2, s2', CancelChain(t, c, y).1);
  }

  method CancelSecond(t: BinOp, n1: Node, n: Node, left: bool,
                      ghost s1: Shape, ghost s: Shape, ghost x: Expr, ghost c: Expr, ghost k: Expr)
    returns (r1: Node, ghost s1': Shape, ghost s': Shape, ghost added: set<Node>)
    requires Holds(n1, s1, x) && Holds(n, s, Pair(t, left, c, k)) && Nodes(s1) !! Nodes(s)
    modifies Nodes(s1), Nodes(s)
    ensures Holds(r1, s1', CancelChain(t, x, c).0) && Holds(n, s', Pair(t, left, CancelChain(t, x, c).1, k))
    ensures Nodes(s1') !! Nodes(s') && fresh(added)
    ensures Nodes(s1') <= Nodes(s1) + added && Nodes(s') <= Nodes(s) + added
    decreases Size(x) + Size(c), 4
  {
    ghost var sc, kept := Detach(t, n, left, s, c, k);
    ghost var before := Nodes(sc);
    NodesAllocated(kept);
    var child := if left then n.left.expr else n.right.expr;
    r1, child, s1', sc, added := Cancel(t, n1, child, s1, sc, x, c);
    assert added !! Nodes(kept) && n !in added;
    Apart({n} + Nodes(kept), before, Nodes(s1), added, Nodes(sc), Nodes(s1'));
    s' := Attach(t, n, left, child, sc, kept, CancelChain(t, x, c).1, k, r1, s1', CancelChain(t, x, c).0);
  }
}
