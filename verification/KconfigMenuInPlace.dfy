/** menu_finalize of tools/kconfig/menu.c on allocated expressions: how it propagates conditions,
    and which of the following entries it makes children of a symbol. Copies are what keeps the
    parent's condition intact while the passes rewrite trees in place. */
module KconfigMenuInPlace {
  import opened Basics
  import opened KconfigExpr
  import opened KconfigTransform
  import opened KconfigEq
  import opened KconfigDups
  import opened KconfigInPlace
  import opened KconfigDupsInPlace
  import opened KconfigMenu

  /** A condition, or NULL. */
  ghost predicate OptHolds(n: Node?, s: Shape, e: Option<Expr>)
    reads Nodes(s)
  {
    if n == null then s.Nil? && e.None? else e.Some? && Holds(n, s, e.value)
  }

  // ----- expr_trans_compare, expr_contains_symbol, expr_depends_symbol -----

  /** A node over two trees that were just allocated. */
  method AllocTwo(op: BinOp, l: Node, r: Node, ghost sl: Shape, ghost sr: Shape, ghost x: Expr, ghost y: Expr)
    returns (n: Node, ghost s: Shape)
    requires Holds(l, sl, x) && Holds(r, sr, y) && Nodes(sl) !! Nodes(sr)
    ensures Holds(n, s, Bin(op, x, y)) && fresh(n) && Nodes(s) == {n} + Nodes(sl) + Nodes(sr)
  {
    NodesAllocated(sl);
    NodesAllocated(sr);
    n := new Node(E_BIN(op), SubExpr(l), SubExpr(r));
    s := Tree(n, sl, sr);
    HoldsBin(n, sl, sr, op, x, y);
  }

  method AllocNot(x: Node, ghost sx: Shape, ghost e: Expr) returns (n: Node, ghost s: Shape)
    requires Holds(x, sx, e)
    ensures Holds(n, s, Not(e)) && fresh(n) && Nodes(s) == {n} + Nodes(sx)
  {
    NodesAllocated(sx);
    n := new Node(E_NOT, SubExpr(x), NULL);
    s := Tree(n, sx, Nil);
  }

  /** expr_trans_compare against y or n builds a new tree and leaves the old one alone. */
  method TransCompareNodes(n: Node, ghost s: Shape, ghost e: Expr, eq: bool, yes: bool)
    returns (r: Node, ghost s': Shape)
    requires Holds(n, s, e)
    ensures Holds(r, s', TransCompare(e, eq, yes)) && fresh(Nodes(s'))
    decreases e
  {
    NodesAllocated(s);
    match n.typ
    case E_SYMBOL =>
      r := new Node(E_CMP(if eq then Eq else Ne), n.left, OfSymbol(if yes then SYM_YES else SYM_NO));
      s' := Tree(r, Nil, Nil);
    case E_NOT =>
      r, s' := TransCompareNodes(n.left.expr, s.l, e.e, !eq, yes);
    case E_CMP(_) =>
      r, s' := Copy(n, s, e);
      if eq != yes {
        r, s' := AllocNot(r, s', e);
      }
    case E_BIN(_) => r, s' := TransCompareChain(n, s, e, eq, yes);
  }

  method TransCompareChain(n: Node, ghost s: Shape, ghost e: Expr, eq: bool, yes: bool)
    returns (r: Node, ghost s': Shape)
    requires Holds(n, s, e) && e.Bin?
    ensures Holds(r, s', TransCompare(e, eq, yes)) && fresh(Nodes(s'))
    decreases e, 1
  {
    var x, y, sx, sy := TransCompareBoth(n, s, e, yes);
    r, s' := AllocTwo(if yes then n.typ.op else n.typ.op.Dual(), x, y, sx, sy,
                      TransCompare(e.l, true, yes), TransCompare(e.r, true, yes));
    if !eq {
      r, s' := AllocNot(r, s', TransCompare(e, true, yes));
    }
  }

  method TransCompareBoth(n: Node, ghost s: Shape, ghost e: Expr, yes: bool)
    returns (x: Node, y: Node, ghost sx: Shape, ghost sy: Shape)
    requires Holds(n, s, e) && e.Bin?
    ensures n.typ == E_BIN(e.op)
    ensures Holds(x, sx, TransCompare(e.l, true, yes)) && Holds(y, sy, TransCompare(e.r, true, yes))
    ensures fresh(Nodes(sx)) && fresh(Nodes(sy)) && Nodes(sx) !! Nodes(sy)
    decreases e, 0
  {
    NodesAllocated(s.r);
    assert Holds(s.r.n, s.r, e.r);
    x, sx := TransCompareNodes(n.left.expr, s.l, e.l, true, yes);
    NodesAllocated(sx);
    y, sy := TransCompareNodes(n.right.expr, s.r, e.r, true, yes);
  }

  /** The same with NULL, which stands for y. */
  method TransCompareOptNodes(n: Node?, ghost s: Shape, ghost e: Option<Expr>, eq: bool, yes: bool)
    returns (r: Node, ghost s': Shape)
    requires OptHolds(n, s, e)
    ensures Holds(r, s', TransCompareOpt(e, eq, yes)) && fresh(Nodes(s'))
  {
    if n != null {
      r, s' := TransCompareNodes(n, s, e.value, eq, yes);
    } else {
      r := new Node(E_SYMBOL, OfSymbol(if yes then SYM_YES else SYM_NO), NULL);
      s' := Tree(r, Nil, Nil);
      if !eq {
        r, s' := AllocNot(r, s', Sym(if yes then SYM_YES else SYM_NO));
      }
    }
  }

  /** expr_contains_symbol */
  function ContainsNodes(n: Node, ghost s: Shape, ghost e: Expr, sym: Symbol): (r: bool)
    requires Holds(n, s, e)
    reads Nodes(s)
    ensures r == ContainsSymbol(e, sym)
    decreases e
  {
    match n.typ
    case E_SYMBOL => n.left.sym == sym
    case E_CMP(_) => n.left.sym == sym || n.right.sym == sym
    case E_NOT => ContainsNodes(n.left.expr, s.l, e.e, sym)
    case E_BIN(_) => ContainsNodes(n.left.expr, s.l, e.l, sym) || ContainsNodes(n.right.expr, s.r, e.r, sym)
  }

  /** expr_depends_symbol */
  function DependsNodes(n: Node, ghost s: Shape, ghost e: Expr, sym: Symbol): (r: bool)
    requires Holds(n, s, e)
    reads Nodes(s)
    ensures r == DependsSymbol(e, sym)
    decreases e
  {
    match n.typ
    case E_SYMBOL => n.left.sym == sym
    case E_CMP(rel) =>
      n.left.sym == sym && (if rel.Eq? then n.right.sym == SYM_YES || n.right.sym == SYM_MOD
                            else rel.Ne? && n.right.sym == SYM_NO)
    case E_NOT => false
    case E_BIN(op) =>
      op.And? && (DependsNodes(n.left.expr, s.l, e.l, sym) || DependsNodes(n.right.expr, s.r, e.r, sym))
  }

  // ----- the submenu test -----

  /** expr_eliminate_dups(expr_transform(e)) */
  method Simplify(n: Node, ghost s: Shape, ghost e: Expr) returns (r: Node, ghost s': Shape, ghost added: set<Node>)
    requires Holds(n, s, e)
    modifies Nodes(s)
    ensures Holds(r, s', WithoutDups(Transform(e)))
    ensures fresh(added) && Nodes(s') <= Nodes(s) + added
  {
    var t, st, more := TransformInPlace(n, s, e);
    ghost var more2;
    r, s', more2 := EliminateDupsInPlace(t, st, Transform(e));
    added := more + more2;
  }

  /** "is not n" as a tree of its own, transformed and without duplicates. */
  method NotNoNodes(n: Node?, ghost s: Shape, ghost e: Option<Expr>) returns (r: Node, ghost s': Shape)
    requires OptHolds(n, s, e)
    ensures Holds(r, s', NotNo(e)) && fresh(Nodes(s'))
  {
    var c, sc := TransCompareOptNodes(n, s, e, false, false);
    ghost var added;
    r, s', added := Simplify(c, sc, TransCompareOpt(e, false, false));
  }

  /** The test of one entry against the two-valued condition of the parent. That tree is copied
      before it is used up, and stays as it is. */
  method JoinsNodes(base: Node, ghost sb: Shape, ghost b: Option<Expr>, dep: Node?, ghost sd: Shape,
                    ghost d: Option<Expr>, sym: Symbol) returns (child: bool)
    requires Holds(base, sb, NotNo(b)) && OptHolds(dep, sd, d)
    ensures child <==> Accepted(b, d, sym)
  {
    NodesAllocated(sb);
    NodesAllocated(sd);
    if dep == null {
      return false;
    }
    if !ContainsNodes(dep, sd, d.value, sym) {
      return false;
    }
    if DependsNodes(dep, sd, d.value, sym) {
      return true;
    }
    var dep1, s1 := NotNoNodes(dep, sd, d);
    NodesAllocated(s1);
    var dep2, s2 := Copy(base, sb, NotNo(b));
    assert Holds(dep1, s1, NotNo(d));
    dep1, dep2, s1, s2 := EliminateEqInPlace(dep1, dep2, s1, s2, NotNo(d), NotNo(b));
    ConstSpelled(s2, EliminateEq(NotNo(d), NotNo(b)).1, SYM_YES);
    child := IsConst(dep2, SYM_YES);
  }

  function AllNodes(ss: seq<Shape>): set<Node> {
    set j, n | 0 <= j < |ss| && n in Nodes(ss[j]) :: n
  }

  ghost predicate AllHold(deps: seq<Node?>, ss: seq<Shape>, ds: seq<Option<Expr>>)
    reads AllNodes(ss)
  {
    |deps| == |ss| == |ds| && forall j :: 0 <= j < |deps| ==> OptHolds(deps[j], ss[j], ds[j])
  }

  lemma AllAllocated(ss: seq<Shape>)
    ensures forall n :: n in AllNodes(ss) ==> allocated(n)
  {
    forall j | 0 <= j < |ss| ensures forall n :: n in Nodes(ss[j]) ==> allocated(n) {
      NodesAllocated(ss[j]);
    }
  }

  // One round of the loop.
  method JoinsEntry(base: Node, ghost sb: Shape, ghost b: Option<Expr>, deps: seq<Node?>, ghost ss: seq<Shape>,
                    ghost ds: seq<Option<Expr>>, k: nat, sym: Symbol) returns (child: bool)
    requires Holds(base, sb, NotNo(b)) && AllHold(deps, ss, ds) && k < |deps|
    ensures child <==> Accepted(b, ds[k], sym)
    ensures Holds(base, sb, NotNo(b)) && AllHold(deps, ss, ds)
  {
    NodesAllocated(sb);
    AllAllocated(ss);
    child := JoinsNodes(base, sb, b, deps[k], ss[k], ds[k], sym);
  }

  /** The loop over the entries that follow a symbol: how many of them become its children. The
      conditions of the entries are left as they are. */
  method TakeEntries(base: Node?, ghost sb: Shape, ghost b: Option<Expr>, deps: seq<Node?>, ghost ss: seq<Shape>,
                     ghost ds: seq<Option<Expr>>, sym: Symbol) returns (k: nat)
    requires OptHolds(base, sb, b) && AllHold(deps, ss, ds)
    ensures k <= |ds| && (forall j :: 0 <= j < k ==> Accepted(b, ds[j], sym))
    ensures k < |ds| ==> !Accepted(b, ds[k], sym)
  {
    AllAllocated(ss);
    var basedep, s := NotNoNodes(base, sb, b);
    NodesAllocated(s);
    k := 0;
    while k < |deps|
      invariant k <= |ds| && (forall j :: 0 <= j < k ==> Accepted(b, ds[j], sym))
      invariant Holds(basedep, s, NotNo(b))
      invariant AllHold(deps, ss, ds)
    {
      var child := JoinsEntry(basedep, s, b, deps, ss, ds, k, sym);
      if !child {
        break;
      }
      k := k + 1;
    }
  }

  // ----- propagating a condition -----

  /** The condition of a child or of one of its properties is used up, that of the parent is
      copied and stays. */
  method PropagateNodes(base: Node?, ghost sb: Shape, ghost b: Option<Expr>, dep: Node?, ghost sd: Shape,
                        ghost d: Option<Expr>, transBool: bool)
    returns (r: Node?, ghost s: Shape, ghost added: set<Node>)
    requires OptHolds(base, sb, b) && OptHolds(dep, sd, d) && Nodes(sb) !! Nodes(sd)
    modifies Nodes(sd)
    ensures OptHolds(r, s, Propagated(b, d, transBool)) && OptHolds(base, sb, b)
    ensures fresh(added) && Nodes(s) <= Nodes(sd) + added
  {
    NodesAllocated(sb);
    ghost var t, more;
    r, t, added := TransformOptNodes(dep, sd, d);
    ghost var e := if d.Some? then Some(Transform(d.value)) else None;
    r, t, more := AndCopy(base, sb, b, r, t, e);
    added := added + more;
    r, s, more := CleanUpNodes(r, t, AllocAnd(b, e), transBool);
    added := added + more;
  }

  method TransformOptNodes(n: Node?, ghost s: Shape, ghost e: Option<Expr>)
    returns (r: Node?, ghost s': Shape, ghost added: set<Node>)
    requires OptHolds(n, s, e)
    modifies Nodes(s)
    ensures OptHolds(r, s', if e.Some? then Some(Transform(e.value)) else None)
    ensures fresh(added) && Nodes(s') <= Nodes(s) + added
  {
    r, s', added := n, s, {};
    if n != null {
      r, s', added := TransformInPlace(n, s, e.value);
    }
  }

  // Without duplicates, and boolean where that is asked for.
  method CleanUpNodes(n: Node?, ghost s: Shape, ghost e: Option<Expr>, transBool: bool)
    returns (r: Node?, ghost s': Shape, ghost added: set<Node>)
    requires OptHolds(n, s, e)
    modifies Nodes(s)
    ensures e.None? ==> r == null && s'.Nil?
    ensures e.Some? ==>
              r != null && Holds(r, s', if transBool then TransBool(WithoutDups(e.value)) else WithoutDups(e.value))
    ensures fresh(added) && Nodes(s') <= Nodes(s) + added
  {
    r, s', added := n, s, {};
    if n != null {
      r, s', added := EliminateDupsInPlace(n, s, e.value);
      if transBool {
        TransBoolInPlace(r, s', WithoutDups(e.value));
      }
    }
  }

  /** expr_alloc_and(expr_copy(base), dep) */
  method AndCopy(base: Node?, ghost sb: Shape, ghost b: Option<Expr>, dep: Node?, ghost sd: Shape,
                 ghost d: Option<Expr>)
    returns (r: Node?, ghost s: Shape, ghost added: set<Node>)
    requires OptHolds(base, sb, b) && OptHolds(dep, sd, d)
    ensures OptHolds(r, s, AllocAnd(b, d))
    ensures fresh(added) && Nodes(s) <= Nodes(sd) + added
  {
    NodesAllocated(sd);
    r, s, added := dep, sd, {};
    if base != null {
      var copy, sc := Copy(base, sb, b.value);
      NodesAllocated(sc);
      added := Nodes(sc);
      if dep == null {
        r, s := copy, sc;
      } else {
        r, s := AllocTwo(And, copy, dep, sc, sd, b.value, d.value);
        added := added + {r};
      }
    }
  }
}
