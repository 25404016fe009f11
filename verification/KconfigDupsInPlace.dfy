/** expr_eliminate_dups of tools/kconfig/expr.c as it works on allocated nodes. The two double
    pointers of expr_eliminate_dups1 are places that hold a node: a variable, or a field of
    another node. They may be the same place, and both lie in the tree that is rewritten. */
module KconfigDupsInPlace {
  import opened Basics
  import opened KconfigExpr
  import opened KconfigTransform
  import opened KconfigEq
  import opened KconfigJoin
  import opened KconfigDups
  import opened KconfigInPlace

  /** A local variable whose address is taken. */
  class Variable {
    var expr: Node

    constructor (n: Node)
      ensures expr == n
    {
      expr := n;
    }
  }

  /** struct expr ** */
  datatype Place = Var(v: Variable) | Field(owner: Node, side: Step)

  /** *place == n */
  ghost predicate Points(place: Place, n: Node)
    reads if place.Var? then {place.v} else {}, if place.Field? then {place.owner} else {}
  {
    match place
    case Var(v) => v.expr == n
    case Field(owner, side) => (if side.Left? then owner.left else owner.right) == SubExpr(n)
  }

  method Load(place: Place, ghost n: Node) returns (r: Node)
    requires Points(place, n)
    ensures r == n
  {
    match place
    case Var(v) => r := v.expr;
    case Field(owner, side) => r := if side.Left? then owner.left.expr else owner.right.expr;
  }

  // ----- places in a tree -----

  function Sub(s: Shape, side: Step): Shape {
    if s.Nil? then Nil else if side.Left? then s.l else s.r
  }

  function ShapeAt(s: Shape, p: Path): Shape {
    if p == [] then s else ShapeAt(Sub(s, p[0]), p[1..])
  }

  function ShapePut(s: Shape, p: Path, x: Shape): Shape {
    if p == [] then x
    else if s.Nil? then Nil
    else if p[0].Left? then Tree(s.n, ShapePut(s.l, p[1..], x), s.r)
    else Tree(s.n, s.l, ShapePut(s.r, p[1..], x))
  }

  /** The place that slot p of the tree s is, if the root of s is held by base. */
  function PlaceAt(base: Place, s: Shape, p: Path): Place
    decreases |p|
  {
    if p == [] || s.Nil? then base else PlaceAt(Field(s.n, p[0]), Sub(s, p[0]), p[1..])
  }

  /** The tree s held by base spells e. */
  ghost predicate Rooted(base: Place, s: Shape, e: Expr)
    reads Nodes(s), if base.Var? then {base.v} else {}, if base.Field? then {base.owner} else {}
  {
    && s.Tree? && Points(base, s.n) && Holds(s.n, s, e)
    && (base.Field? ==> base.owner !in Nodes(s))
  }

  lemma {:induction false} RootedAt(base: Place, s: Shape, e: Expr, p: Path)
    requires Rooted(base, s, e) && Slot(e, p)
    ensures Rooted(PlaceAt(base, s, p), ShapeAt(s, p), At(e, p))
    ensures Nodes(ShapeAt(s, p)) <= Nodes(s)
    ensures p != [] ==> PlaceAt(base, s, p).Field? && PlaceAt(base, s, p).owner in Nodes(s)
    decreases |p|
  {
    if p != [] {
      var side := p[0];
      var below := if side.Left? then e.l else e.r;
      assert Rooted(Field(s.n, side), Sub(s, side), below);
      RootedAt(Field(s.n, side), Sub(s, side), below, p[1..]);
    }
  }

  lemma {:induction false} PlaceExtend(base: Place, s: Shape, e: Expr, p: Path, side: Step)
    requires Rooted(base, s, e) && Slot(e, p) && At(e, p).Bin?
    ensures ShapeAt(s, p).Tree? && PlaceAt(base, s, p + [side]) == Field(ShapeAt(s, p).n, side)
    decreases |p|
  {
    if p == [] {
      assert [side][1..] == [];
    } else {
      var below := if p[0].Left? then e.l else e.r;
      assert (p + [side])[1..] == p[1..] + [side];
      assert Rooted(Field(s.n, p[0]), Sub(s, p[0]), below);
      PlaceExtend(Field(s.n, p[0]), Sub(s, p[0]), below, p[1..], side);
    }
  }

  /** Different operands are different trees. */
  lemma {:induction false} OperandsApart(t: BinOp, s: Shape, e: Expr, p: Path, q: Path)
    requires s.Tree? && Separate(s) && Spells(s, e) && Operand(t, e, p) && Operand(t, e, q) && p != q
    ensures Nodes(ShapeAt(s, p)) !! Nodes(ShapeAt(s, q))
    decreases |p|
  {
    assert p != [] && q != [];
    assert p == [p[0]] + p[1..] && q == [q[0]] + q[1..];
    var below := if p[0].Left? then e.l else e.r;
    if p[0] == q[0] {
      OperandsApart(t, Sub(s, p[0]), below, p[1..], q[1..]);
    } else {
      ShapeWithin(Sub(s, p[0]), p[1..]);
      ShapeWithin(Sub(s, q[0]), q[1..]);
    }
  }

  lemma {:induction false} ShapeWithin(s: Shape, p: Path)
    ensures Nodes(ShapeAt(s, p)) <= Nodes(s)
    decreases |p|
  {
    if p != [] { ShapeWithin(Sub(s, p[0]), p[1..]); }
  }

  // ----- a tree with a new subtree -----

  /** What the nodes held at some earlier time. */
  type Image = map<Node, (NodeType, Data, Data)>

  ghost function Snapshot(nodes: set<Node>): (image: Image)
    reads nodes
  {
    map n | n in nodes :: (n.typ, n.left, n.right)
  }

  ghost predicate Same(image: Image, n: Node)
    reads n
  {
    n in image && image[n] == (n.typ, n.left, n.right)
  }

  /** Spells, at the time of the image. */
  ghost predicate Spelled(image: Image, s: Shape, e: Expr) {
    && s.Tree? && s.n in image
    && match e
       case Sym(x) => s.l.Nil? && s.r.Nil? && image[s.n].0 == E_SYMBOL && image[s.n].1 == OfSymbol(x)
       case Cmp(rel, a, b) =>
         s.l.Nil? && s.r.Nil? && image[s.n] == (E_CMP(rel), OfSymbol(a), OfSymbol(b))
       case Not(x) =>
         s.l.Tree? && s.r.Nil? && image[s.n] == (E_NOT, SubExpr(s.l.n), NULL) && Spelled(image, s.l, x)
       case Bin(op, x, y) =>
         && s.l.Tree? && s.r.Tree? && image[s.n] == (E_BIN(op), SubExpr(s.l.n), SubExpr(s.r.n))
         && Spelled(image, s.l, x) && Spelled(image, s.r, y)
  }

  lemma {:induction false} SpelledNow(image: Image, s: Shape, e: Expr)
    requires forall n :: n in Nodes(s) ==> Same(image, n)
    ensures Spelled(image, s, e) <==> Spells(s, e)
    decreases e
  {
    if s.Tree? {
      assert s.n in Nodes(s) && Same(image, s.n);
      match e
      case Not(x) => SpelledNow(image, s.l, x);
      case Bin(_, x, y) =>
        SpelledNow(image, s.l, x);
        SpelledNow(image, s.r, y);
      case _ =>
    }
  }

  /** Of the nodes of s above and beside slot p, none has changed, but that the slot itself
      may now hold another node. */
  ghost predicate KeptAround(image: Image, s: Shape, p: Path, owner: Node, side: Step)
    reads Nodes(s)
  {
    && (forall n :: n in Nodes(s) && n !in Nodes(ShapeAt(s, p)) && n != owner ==> Same(image, n))
    && owner in Nodes(s) && owner in image && owner.typ == image[owner].0
    && (if side.Left? then owner.right == image[owner].2 else owner.left == image[owner].1)
  }

  /** Then s with the new subtree t spells e with the new operand. */
  lemma {:induction false} Regrown(image: Image, base: Place, s: Shape, e: Expr, p: Path, t: Shape, x: Expr)
    requires Separate(s) && Spelled(image, s, e) && Slot(e, p) && p != []
    requires PlaceAt(base, s, p).Field?
    requires KeptAround(image, s, p, PlaceAt(base, s, p).owner, PlaceAt(base, s, p).side)
    requires t.Tree? && Holds(t.n, t, x) && Points(PlaceAt(base, s, p), t.n)
    requires forall n :: n in Nodes(t) && n in Nodes(s) ==> n in Nodes(ShapeAt(s, p))
    ensures ShapePut(s, p, t).Tree? && Holds(s.n, ShapePut(s, p, t), Put(e, p, x))
    ensures Nodes(ShapePut(s, p, t)) <= Nodes(s) + Nodes(t)
    decreases |p|
  {
    var side := p[0];
    var u, v := Sub(s, side), Sub(s, if side.Left? then Right else Left);
    var y, z := if side.Left? then e.l else e.r, if side.Left? then e.r else e.l;
    ShapeWithin(u, p[1..]);
    if p[1..] != [] { OwnerBelow(Field(s.n, side), image, u, y, p[1..]); }
    assert PlaceAt(base, s, p).owner !in Nodes(v) && ShapeAt(s, p) == ShapeAt(u, p[1..]);
    SpelledNow(image, v, z);
    if p[1..] == [] {
      assert ShapeAt(s, p) == u;
    } else {
      Regrown(image, Field(s.n, side), u, y, p[1..], t, x);
    }
  }

  lemma {:induction false} OwnerBelow(base: Place, image: Image, s: Shape, e: Expr, p: Path)
    requires Spelled(image, s, e) && Slot(e, p) && p != []
    ensures PlaceAt(base, s, p).Field? && PlaceAt(base, s, p).owner in Nodes(s)
    decreases |p|
  {
    if p[1..] != [] {
      OwnerBelow(Field(s.n, p[0]), image, Sub(s, p[0]), if p[0].Left? then e.l else e.r, p[1..]);
    }
  }

  // ----- the places of a chain -----

  /** The slots of the t-chain are the same places in both trees. */
  ghost predicate SameSlots(t: BinOp, base: Place, e: Expr, s: Shape, s': Shape) {
    forall r :: InChain(t, e, r) ==> PlaceAt(base, s', r) == PlaceAt(base, s, r)
  }

  lemma {:induction false} SlotsTwice(t: BinOp, base: Place, e: Expr, e': Expr, s: Shape, s': Shape, s'': Shape)
    requires SameChain(t, e, e') && SameSlots(t, base, e, s, s') && SameSlots(t, base, e', s', s'')
    ensures SameSlots(t, base, e, s, s'')
  {
    forall r | InChain(t, e, r) ensures PlaceAt(base, s'', r) == PlaceAt(base, s, r) {
      SameChainSlot(t, e, e', r);
    }
  }

  lemma {:induction false} PutPlace(t: BinOp, base: Place, s: Shape, e: Expr, p: Path, x: Shape, r: Path)
    requires Operand(t, e, p) && InChain(t, e, r)
    ensures PlaceAt(base, ShapePut(s, p, x), r) == PlaceAt(base, s, r)
    decreases |p|
  {
    if p != [] && r != [] && s.Tree? && p[0] == r[0] {
      PutPlace(t, Field(s.n, p[0]), Sub(s, p[0]), if p[0].Left? then e.l else e.r, p[1..], x, r[1..]);
    }
  }

  lemma {:induction false} PutSlots(t: BinOp, base: Place, s: Shape, e: Expr, p: Path, x: Shape)
    requires Operand(t, e, p)
    ensures SameSlots(t, base, e, s, ShapePut(s, p, x))
  {
    forall r | InChain(t, e, r) ensures PlaceAt(base, ShapePut(s, p, x), r) == PlaceAt(base, s, r) {
      PutPlace(t, base, s, e, p, x, r);
    }
  }

  // ----- expr_join_or and expr_join_and -----

  predicate Viewable(e: Expr) {
    !e.Bin? && (e.Not? ==> e.e.Sym? || e.e.Cmp?)
  }

  /** What the join functions look at: a node, and the operand of a negation. */
  function View(n: Node, ghost s: Shape, ghost e: Expr): (r: Option<Expr>)
    requires Holds(n, s, e)
    reads Nodes(s)
    ensures r == if Viewable(e) then Some(e) else None
  {
    match n.typ
    case E_SYMBOL => Some(Sym(n.left.sym))
    case E_CMP(rel) => Some(Cmp(rel, n.left.sym, n.right.sym))
    case E_BIN(_) => None
    case E_NOT =>
      var x := n.left.expr;
      assert Holds(x, s.l, e.e);
      match x.typ
      case E_SYMBOL => Some(Not(Sym(x.left.sym)))
      case E_CMP(rel) => Some(Not(Cmp(rel, x.left.sym, x.right.sym)))
      case _ => None
  }

  lemma {:induction false} JoinLeaf(t: BinOp, x: Expr, y: Expr)
    requires !ExprEq(x, y) && Join(t, x, y).Some?
    ensures Viewable(x) && Viewable(y)
    ensures Join(t, x, y).value.Sym? || Join(t, x, y).value.Cmp?
  {
  }

  /** expr_join_or and expr_join_and leave their operands alone and allocate the result. */
  method JoinNodes(t: BinOp, n1: Node, n2: Node, ghost s1: Shape, ghost s2: Shape, ghost x: Expr, ghost y: Expr)
    returns (r: Option<Node>, ghost s: Shape)
    requires Holds(n1, s1, x) && Holds(n2, s2, y)
    ensures r.Some? <==> Join(t, x, y).Some?
    ensures r.Some? ==> Holds(r.value, s, Join(t, x, y).value) && fresh(Nodes(s))
  {
    NodesAllocated(s1);
    NodesAllocated(s2);
    r, s := None, Nil;
    var eq := Equal(n1, n2, s1, s2, x, y);
    if eq {
      var copy;
      copy, s := Copy(n1, s1, x);
      return Some(copy), s;
    }
    var v, w := View(n1, s1, x), View(n2, s2, y);
    if v.None? || w.None? {
      if Join(t, x, y).Some? { JoinLeaf(t, x, y); }
      return;
    }
    var joined := Join(t, v.value, w.value);
    if joined.Some? {
      JoinLeaf(t, x, y);
      var z := joined.value;
      var n := new Node(
        if z.Sym? then E_SYMBOL else E_CMP(z.rel), OfSymbol(if z.Sym? then z.s else z.a),
        if z.Sym? then NULL else OfSymbol(z.b));
      return Some(n), Tree(n, Nil, Nil);
    }
  }

  // ----- expr_eliminate_dups1 -----

  /** *place = n, where the place is a field. */
  method Store(place: Place, n: Node)
    requires place.Field?
    modifies place.owner
    ensures Points(place, n) && place.owner.typ == old(place.owner.typ)
    ensures if place.side.Left? then place.owner.right == old(place.owner.right)
            else place.owner.left == old(place.owner.left)
  {
    if place.side.Left? {
      place.owner.left := SubExpr(n);
    } else {
      place.owner.right := SubExpr(n);
    }
  }

  /** An operand is replaced by a tree of other nodes. */
  method Replace(t: BinOp, place: Place, n: Node, ghost base: Place, ghost s: Shape, ghost e: Expr, ghost p: Path,
                 ghost u: Shape, ghost x: Expr) returns (ghost s': Shape)
    requires Rooted(base, s, e) && Operand(t, e, p) && p != [] && place == PlaceAt(base, s, p)
    requires Holds(n, u, x) && Nodes(u) !! Nodes(s) && (base.Field? ==> base.owner !in Nodes(u))
    modifies Nodes(s)
    ensures Rooted(base, s', Put(e, p, x)) && s'.n == s.n && SameSlots(t, base, e, s, s')
    ensures Nodes(s') <= Nodes(s) + Nodes(u)
  {
    NodesAllocated(s);
    NodesAllocated(u);
    RootedAt(base, s, e, p);
    ghost var image := Snapshot(Nodes(s));
    SpelledNow(image, s, e);
    Store(place, n);
    s' := ShapePut(s, p, u);
    PutSlots(t, base, s, e, p, u);
    Regrown(image, base, s, e, p, u, x);
  }

  method JoinPlaces(t: BinOp, ep1: Place, ep2: Place, ghost base: Place, ghost s: Shape, ghost e: Expr,
                    ghost p: Path, ghost q: Path)
    returns (r: Option<Node>, ghost u: Shape)
    requires Rooted(base, s, e) && Slot(e, p) && Slot(e, q)
    requires ep1 == PlaceAt(base, s, p) && ep2 == PlaceAt(base, s, q)
    ensures r.Some? <==> Join(t, At(e, p), At(e, q)).Some?
    ensures r.Some? ==> Holds(r.value, u, Join(t, At(e, p), At(e, q)).value) && fresh(Nodes(u))
  {
    NodesAllocated(s);
    RootedAt(base, s, e, p);
    RootedAt(base, s, e, q);
    var n1 := Load(ep1, ShapeAt(s, p).n);
    var n2 := Load(ep2, ShapeAt(s, q).n);
    r, u := JoinNodes(t, n1, n2, ShapeAt(s, p), ShapeAt(s, q), At(e, p), At(e, q));
  }

  /** The end of expr_eliminate_dups1, on two operands. */
  method MergeNodes(t: BinOp, ep1: Place, ep2: Place, ghost base: Place, ghost s: Shape, ghost e: Expr,
                    ghost p: Path, ghost q: Path)
    returns (count: nat, ghost s': Shape, ghost added: set<Node>)
    requires Rooted(base, s, e) && Operand(t, e, p) && Operand(t, e, q) && p != q
    requires ep1 == PlaceAt(base, s, p) && ep2 == PlaceAt(base, s, q)
    modifies Nodes(s)
    ensures var joined := Join(t, At(e, p), At(e, q));
            && count == (if joined.Some? then 1 else 0)
            && Rooted(base, s', if joined.Some? then Merge(t, e, p, q, joined.value) else e)
    ensures s'.n == s.n && SameSlots(t, base, e, s, s')
    ensures fresh(added) && Nodes(s') <= Nodes(s) + added
  {
    NodesAllocated(s);
    var tmp, u := JoinPlaces(t, ep1, ep2, base, s, e, p, q);
    count, s', added := 0, s, {};
    if tmp.Some? {
      ghost var more;
      count, s', more := ReplaceBoth(t, ep1, ep2, tmp.value, base, s, e, p, q, u, Join(t, At(e, p), At(e, q)).value);
      added := Nodes(u) + more;
    }
  }

  method ReplaceBoth(t: BinOp, ep1: Place, ep2: Place, tmp: Node, ghost base: Place, ghost s: Shape, ghost e: Expr,
                     ghost p: Path, ghost q: Path, ghost u: Shape, ghost x: Expr)
    returns (count: nat, ghost s': Shape, ghost added: set<Node>)
    requires Rooted(base, s, e) && Operand(t, e, p) && Operand(t, e, q) && p != q
    requires ep1 == PlaceAt(base, s, p) && ep2 == PlaceAt(base, s, q)
    requires Holds(tmp, u, x) && Nodes(u) !! Nodes(s) && (base.Field? ==> base.owner !in Nodes(u))
    modifies Nodes(s)
    ensures count == 1 && Rooted(base, s', Merge(t, e, p, q, x))
    ensures s'.n == s.n && SameSlots(t, base, e, s, s')
    ensures fresh(added) && Nodes(s') <= Nodes(s) + Nodes(u) + added
  {
    NodesAllocated(s);
    NodesAllocated(u);
    var unit := new Node(E_SYMBOL, OfSymbol(t.Unit()), NULL);
    ghost var e1 := Put(e, p, Sym(t.Unit()));
    PutOperand(t, e, p, Sym(t.Unit()));
    assert p != [] && q != [];
    ghost var s1 := Replace(t, ep1, unit, base, s, e, p, Tree(unit, Nil, Nil), Sym(t.Unit()));
    assert Holds(tmp, u, x);
    s' := Replace(t, ep2, tmp, base, s1, e1, q, u, x);
    SlotsTwice(t, base, e, e1, s, s1, s');
    count, added := 1, {unit};
  }

  /** expr_eliminate_dups1 with the two double pointers ep1 and ep2: the tree becomes the one
      that the function on values computes, and the returned number is what it adds to
      trans_count. The nodes of the chain stay, and so do its places. */
  method Dups1InPlace(t: BinOp, ep1: Place, ep2: Place, ghost base: Place, ghost s: Shape, ghost e: Expr,
                      ghost p: Path, ghost q: Path)
    returns (count: nat, ghost s': Shape, ghost added: set<Node>)
    requires Rooted(base, s, e) && InChain(t, e, p) && InChain(t, e, q)
    requires ep1 == PlaceAt(base, s, p) && ep2 == PlaceAt(base, s, q)
    modifies Nodes(s)
    ensures count == EliminateDups1(t, e, p, q).1 && Rooted(base, s', EliminateDups1(t, e, p, q).0)
    ensures s'.n == s.n && SameSlots(t, base, e, s, s')
    ensures fresh(added) && Nodes(s') <= Nodes(s) + added
    decreases Size(e), Below(t, e, p) + Below(t, e, q), 3
  {
    NodesAllocated(s);
    InChainSlot(t, e, p);
    InChainSlot(t, e, q);
    RootedAt(base, s, e, p);
    RootedAt(base, s, e, q);
    var e1 := Load(ep1, ShapeAt(s, p).n);
    var e2 := Load(ep2, ShapeAt(s, q).n);
    if e1.typ == E_BIN(t) {
      count, s', added := FirstOperands(t, e1, ep2, base, s, e, p, q);
    } else if e2.typ == E_BIN(t) {
      count, s', added := SecondOperands(t, ep1, e2, base, s, e, p, q);
    } else if e1 == e2 {
      SameNode(t, s, e, p, q);
      count, s', added := 0, s, {};
    } else {
      count, s', added := DupsPair(t, ep1, ep2, base, s, e, p, q);
    }
  }

  lemma {:induction false} SameNode(t: BinOp, s: Shape, e: Expr, p: Path, q: Path)
    requires s.Tree? && Separate(s) && Spells(s, e) && Operand(t, e, p) && Operand(t, e, q)
    requires ShapeAt(s, p).Tree? && ShapeAt(s, q).Tree? && ShapeAt(s, p).n == ShapeAt(s, q).n
    ensures p == q
  {
    if p != q { OperandsApart(t, s, e, p, q); }
  }

  // Both children of the node in the first place, one after the other.
  method FirstOperands(t: BinOp, e1: Node, ep2: Place, ghost base: Place, ghost s: Shape, ghost e: Expr,
                       ghost p: Path, ghost q: Path)
    returns (count: nat, ghost s': Shape, ghost added: set<Node>)
    requires Rooted(base, s, e) && InChain(t, e, p) && InChain(t, e, q) && Slot(e, p) && IsOp(At(e, p), t)
    requires ShapeAt(s, p).Tree? && e1 == ShapeAt(s, p).n && ep2 == PlaceAt(base, s, q)
    modifies Nodes(s)
    ensures count == EliminateDups1(t, e, p, q).1 && Rooted(base, s', EliminateDups1(t, e, p, q).0)
    ensures s'.n == s.n && SameSlots(t, base, e, s, s')
    ensures fresh(added) && Nodes(s') <= Nodes(s) + added
    decreases Size(e), Below(t, e, p) + Below(t, e, q), 2
  {
    InChainExtend(t, e, p, Left);
    InChainExtend(t, e, p, Right);
    PlaceExtend(base, s, e, p, Left);
    PlaceExtend(base, s, e, p, Right);
    var a, s1, more := Dups1InPlace(t, Field(e1, Left), ep2, base, s, e, p + [Left], q);
    ghost var r1 := EliminateDups1(t, e, p + [Left], q).0;
    SlotsAfterPass(t, e, r1, p + [Right], q);
    var b, s2, more2 := Dups1InPlace(t, Field(e1, Right), ep2, base, s1, r1, p + [Right], q);
    SlotsTwice(t, base, e, r1, s, s1, s2);
    count, s', added := a + b, s2, more + more2;
  }

  // Both children of the node in the second place.
  method SecondOperands(t: BinOp, ep1: Place, e2: Node, ghost base: Place, ghost s: Shape, ghost e: Expr,
                        ghost p: Path, ghost q: Path)
    returns (count: nat, ghost s': Shape, ghost added: set<Node>)
    requires Rooted(base, s, e) && Operand(t, e, p) && InChain(t, e, q) && Slot(e, q) && IsOp(At(e, q), t)
    requires ShapeAt(s, q).Tree? && ep1 == PlaceAt(base, s, p) && e2 == ShapeAt(s, q).n
    modifies Nodes(s)
    ensures count == EliminateDups1(t, e, p, q).1 && Rooted(base, s', EliminateDups1(t, e, p, q).0)
    ensures s'.n == s.n && SameSlots(t, base, e, s, s')
    ensures fresh(added) && Nodes(s') <= Nodes(s) + added
    decreases Size(e), Below(t, e, p) + Below(t, e, q), 2
  {
    InChainExtend(t, e, q, Left);
    InChainExtend(t, e, q, Right);
    PlaceExtend(base, s, e, q, Left);
    PlaceExtend(base, s, e, q, Right);
    var a, s1, more := Dups1InPlace(t, ep1, Field(e2, Left), base, s, e, p, q + [Left]);
    ghost var r1 := EliminateDups1(t, e, p, q + [Left]).0;
    SlotsAfterPass(t, e, r1, p, q + [Right]);
    var b, s2, more2 := Dups1InPlace(t, ep1, Field(e2, Right), base, s1, r1, p, q + [Right]);
    SlotsTwice(t, base, e, r1, s, s1, s2);
    count, s', added := a + b, s2, more + more2;
  }

  // Two operands: the nested pass over the first, and the merge.
  method DupsPair(t: BinOp, ep1: Place, ep2: Place, ghost base: Place, ghost s: Shape, ghost e: Expr,
                  ghost p: Path, ghost q: Path)
    returns (count: nat, ghost s': Shape, ghost added: set<Node>)
    requires Rooted(base, s, e) && Operand(t, e, p) && Operand(t, e, q) && p != q
    requires ep1 == PlaceAt(base, s, p) && ep2 == PlaceAt(base, s, q)
    modifies Nodes(s)
    ensures count == EliminateDups1(t, e, p, q).1 && Rooted(base, s', EliminateDups1(t, e, p, q).0)
    ensures s'.n == s.n && SameSlots(t, base, e, s, s')
    ensures fresh(added) && Nodes(s') <= Nodes(s) + added
    decreases Size(e), 0, 1
  {
    var a, s1, more := DupsInsideInPlace(t, ep1, base, s, e, p, q);
    ghost var r1 := DupsInside(t, e, p, q).0;
    assert InChain(t, e, p) && InChain(t, e, q);
    var b, s2, more2 := MergeNodes(t, ep1, ep2, base, s1, r1, p, q);
    SlotsTwice(t, base, e, r1, s, s1, s2);
    count, s', added := a + b, s2, more + more2;
  }

  // The nested pass: both double pointers are the place of the operand.
  method DupsInsideInPlace(t: BinOp, ep1: Place, ghost base: Place, ghost s: Shape, ghost e: Expr, ghost p: Path,
                           ghost q: Path)
    returns (count: nat, ghost s': Shape, ghost added: set<Node>)
    requires Rooted(base, s, e) && Operand(t, e, p) && Operand(t, e, q) && p != q && ep1 == PlaceAt(base, s, p)
    modifies Nodes(s)
    ensures count == DupsInside(t, e, p, q).1 && Rooted(base, s', DupsInside(t, e, p, q).0)
    ensures s'.n == s.n && SameSlots(t, base, e, s, s')
    ensures fresh(added) && Nodes(s') <= Nodes(s) + added
    decreases Size(e), 0, 0
  {
    NodesAllocated(s);
    RootedAt(base, s, e, p);
    ghost var sub, x := ShapeAt(s, p), At(e, p);
    count, s', added := 0, s, {};
    var e1 := Load(ep1, sub.n);
    if e1.typ.E_BIN? {
      OperandSmaller(t, e, p, q);
      ghost var image := Snapshot(Nodes(s));
      SpelledNow(image, s, e);
      ghost var u;
      count, u, added := Dups1InPlace(e1.typ.op, ep1, ep1, ep1, sub, x, [], []);
      s' := ShapePut(s, p, u);
      PutSlots(t, base, s, e, p, u);
      Regrown(image, base, s, e, p, u, EliminateDups1(x.op, x, [], []).0);
    }
  }

  /** expr_eliminate_dups: the loop ends with the tree without duplicates, under the same root. */
  method EliminateDupsInPlace(n: Node, ghost s: Shape, ghost e: Expr)
    returns (r: Node, ghost s': Shape, ghost added: set<Node>)
    requires Holds(n, s, e)
    modifies Nodes(s)
    ensures r == n && Holds(r, s', WithoutDups(e))
    ensures fresh(added) && Nodes(s') <= Nodes(s) + added
  {
    NodesAllocated(s);
    var v := new Variable(n);
    ghost var x := e;
    s', added := s, {};
    while true
      invariant fresh(v) && Rooted(Var(v), s', x) && s'.n == n
      invariant WithoutDups(x) == WithoutDups(e)
      invariant fresh(added) && Nodes(s') <= Nodes(s) + added
      decreases Size(x)
    {
      var transCount;
      ghost var more;
      transCount, s', more := RoundInPlace(v, s', x);
      added := added + more;
      if transCount == 0 {
        break;
      }
      x := Round(x);
    }
    r := v.expr;
  }

  // One round of the loop.
  method RoundInPlace(v: Variable, ghost s: Shape, ghost e: Expr)
    returns (count: nat, ghost s': Shape, ghost added: set<Node>)
    requires Rooted(Var(v), s, e)
    modifies Nodes(s)
    ensures Rooted(Var(v), s', Round(e)) && s'.n == s.n
    ensures count == 0 <==> NoDups(e)
    ensures fresh(added) && Nodes(s') <= Nodes(s) + added
  {
    NodesAllocated(s);
    count, s', added := 0, s, {};
    if v.expr.typ.E_BIN? {
      count, s', added := Dups1InPlace(v.expr.typ.op, Var(v), Var(v), Var(v), s, e, [], []);
      if count != 0 {
        ghost var t := s';
        s' := EliminateYnInPlace(v.expr, t, EliminateDups1(e.op, e, [], []).0);
      }
    }
  }
}
