/** The test of tools/kconfig_new/kconfiglib.py that makes implicit submenus: when does a
    menu node count as depending on the item of a node before it? */
module KconfiglibAutoMenu {
  import opened Basics
  import opened KconfiglibModel
  import opened KconfiglibParser
  import MenuForest
  import MenuShape
  import MenuTree

  /** The constant symbols y, m and n. */
  datatype Constants = Constants(y: nat, m: nat, n: nat)

  /** The comparison part of _expr_depends_on, with the operator precedence of the source:
      a comparison with y counts whether it tests for equality or not. */
  predicate RelDependsOn(rel: Relation, a: nat, b: nat, s: nat, k: Constants) {
    var (left, right) := if b == s then (b, a) else (a, b);
    && (rel.EQUAL? || rel.UNEQUAL?) && left == s
    && ((rel.EQUAL? && right == k.m) || right == k.y || (rel.UNEQUAL? && right == k.n))
  }

  /** _expr_depends_on */
  predicate ExprDependsOn(e: Expr, i: Item, k: Constants) {
    match e
    case Leaf(x) => x == i
    case REL(rel, a, b) => i.S? && RelDependsOn(rel, a, b, i.id, k)
    case AND(l, r) => ExprDependsOn(l, i, k) || ExprDependsOn(r, i, k)
    case _ => false
  }

  /** _has_auto_menu_dep */
  function HasAutoMenuDep(k: Constants): MenuForest.Joins {
    (node1: MenuForest.MenuNode, node2: MenuForest.MenuNode) =>
      node1.content.Entry?
      && ExprDependsOn(if node2.prompt.Some? then node2.prompt.value.1 else node2.dep, node1.content.item, k)
  }

  /** What a node depends on: the condition of its prompt, or else its dependencies. */
  function Condition(n: MenuForest.MenuNode): Expr {
    match n.prompt
    case Some((_, cond)) => cond
    case None => n.dep
  }

  predicate AllDepend(row: MenuForest.Forest, i: Item, k: Constants) {
    row.Cons? ==> ExprDependsOn(Condition(row.node), i, k) && AllDepend(row.rest, i, k)
  }

  /** The submenus in d: below an entry that was parsed without children stand nodes that depend
      on its item, and the node behind them does not. Other nodes have the children they were
      parsed with. */
  ghost predicate Submenus(d: MenuForest.Forest, parsed: set<MenuForest.MenuNode>, end: MenuForest.MenuNode?,
                           k: Constants)
  {
    d.Cons? ==>
      var after := MenuTree.Root(d.rest, end);
      && Submenus(d.rest, parsed, end, k)
      && (if d.node in parsed then Submenus(d.kids, parsed, null, k)
          else match d.node.content
            case Entry(i) =>
              && AllDepend(d.kids, i, k) && (after != null ==> !ExprDependsOn(Condition(after), i, k))
              && Submenus(d.kids, parsed, after, k)
            case _ => d.kids.Nil?)
  }

  lemma {:induction false} JoinDepends(n: MenuForest.MenuNode, row: MenuForest.Forest, k: Constants)
    requires MenuForest.AllJoin(n, row, HasAutoMenuDep(k))
    ensures row.Cons? ==> n.content.Entry?
    ensures n.content.Entry? ==> AllDepend(row, n.content.item, k)
  {
    if row.Cons? { JoinDepends(n, row.rest, k); }
  }

  lemma {:induction false} RunsAreSubmenus(d: MenuForest.Forest, parsed: set<MenuForest.MenuNode>,
                                           end: MenuForest.MenuNode?, k: Constants)
    requires MenuShape.Runs(d, parsed, end, HasAutoMenuDep(k))
    ensures Submenus(d, parsed, end, k)
  {
    if d.Cons? {
      var after := MenuTree.Root(d.rest, end);
      RunsAreSubmenus(d.rest, parsed, end, k);
      if d.node in parsed {
        RunsAreSubmenus(d.kids, parsed, null, k);
      } else if !d.node.content.IfBlock? {
        RunsAreSubmenus(d.kids, parsed, after, k);
        JoinDepends(d.node, d.kids, k);
      }
    }
  }

  /** The nodes of a row, each with the node above it. */
  function Row(row: MenuForest.Forest, above: MenuForest.MenuNode): set<(MenuForest.MenuNode, MenuForest.MenuNode)> {
    if row.Nil? then {} else {(row.node, above)} + Row(row.rest, above)
  }

  /** The nodes that were drawn into a submenu, each with the entry whose submenu it is. */
  function DrawnBelow(d: MenuForest.Forest, parsed: set<MenuForest.MenuNode>)
    : set<(MenuForest.MenuNode, MenuForest.MenuNode)>
  {
    if d.Nil? then {}
    else
      (if d.node in parsed then {} else Row(d.kids, d.node))
      + DrawnBelow(d.kids, parsed) + DrawnBelow(d.rest, parsed)
  }

  lemma {:induction false} RowDepends(row: MenuForest.Forest, above: MenuForest.MenuNode, i: Item, k: Constants)
    requires AllDepend(row, i, k)
    ensures forall x :: x in Row(row, above) ==> x.1 == above && ExprDependsOn(Condition(x.0), i, k)
  {
    if row.Cons? { RowDepends(row.rest, above, i, k); }
  }

  lemma {:induction false} DrawnDepends(d: MenuForest.Forest, parsed: set<MenuForest.MenuNode>,
                                        end: MenuForest.MenuNode?, k: Constants)
    requires Submenus(d, parsed, end, k)
    ensures forall x :: x in DrawnBelow(d, parsed) ==>
              x.1.content.Entry? && ExprDependsOn(Condition(x.0), x.1.content.item, k)
  {
    if d.Cons? {
      DrawnDepends(d.rest, parsed, end, k);
      if d.node in parsed {
        DrawnDepends(d.kids, parsed, null, k);
      } else if d.node.content.Entry? {
        DrawnDepends(d.kids, parsed, MenuTree.Root(d.rest, end), k);
        RowDepends(d.kids, d.node, d.node.content.item, k);
      }
    }
  }

  lemma {:induction false} RowShown(row: MenuForest.Forest, above: MenuForest.MenuNode)
    ensures forall x :: x in Row(row, above) ==>
              x.1 == above && (!x.0.content.IfBlock? ==> x in MenuShape.Shown(row, above, false))
  {
    if row.Cons? { RowShown(row.rest, above); }
  }

  lemma {:induction false} DrawnShown(d: MenuForest.Forest, parsed: set<MenuForest.MenuNode>, top: MenuForest.MenuNode)
    ensures forall x :: x in DrawnBelow(d, parsed) && !x.0.content.IfBlock? && !x.1.Hidden() ==>
              x in MenuShape.Shown(d, top, false)
  {
    if d.Cons? {
      DrawnShown(d.rest, parsed, top);
      DrawnShown(d.kids, parsed, if d.node.Hidden() then top else d.node);
      RowShown(d.kids, d.node);
    }
  }

  /** The finalization at the end of parsing, and a walk over the result. drawn is the tree with
      its submenus: dissolving them gives back the tree as it was parsed. A node that depends on
      an entry and was drawn into its submenu has that entry for its parent in the end, or the
      closest node above that is not hidden. */
  method FinalizeMenu(top: MenuForest.MenuNode, k: Constants, ghost kids: MenuForest.Forest)
    returns (visited: seq<MenuForest.MenuNode>, ghost drawn: MenuForest.Forest)
    requires MenuForest.Separate(MenuTree.One(top, kids)) && MenuTree.Linked(MenuTree.One(top, kids), null, null)
    requires top.content.Menu? && MenuForest.IfsHidden(kids)
    modifies MenuForest.Nodes(MenuTree.One(top, kids))
    ensures MenuTree.WithoutIfs(visited) == MenuForest.PreOrder(kids, false) && MenuTree.Once(visited)
    ensures MenuShape.Released(drawn, MenuShape.WithKids(kids)) == kids
    ensures Submenus(drawn, MenuShape.WithKids(kids), null, k)
    ensures forall x :: x in MenuShape.Shown(drawn, top, false) ==> x.0.parent == x.1
    ensures forall x :: x in DrawnBelow(drawn, MenuShape.WithKids(kids)) ==>
              && x.1.content.Entry? && ExprDependsOn(Condition(x.0), x.1.content.item, k)
              && (!x.0.content.IfBlock? && !x.1.Hidden() ==> x.0.parent == x.1)
  {
    visited, drawn := MenuShape.FinalizeAndWalk(top, HasAutoMenuDep(k), kids);
    RunsAreSubmenus(drawn, MenuShape.WithKids(kids), null, k);
    DrawnDepends(drawn, MenuShape.WithKids(kids), null, k);
    DrawnShown(drawn, MenuShape.WithKids(kids), top);
  }

  function Three(a: MenuForest.MenuNode, b: MenuForest.MenuNode, c: MenuForest.MenuNode): MenuForest.Forest {
    MenuForest.Cons(a, MenuForest.Nil, MenuForest.Cons(b, MenuForest.Nil, MenuTree.One(c, MenuForest.Nil)))
  }

  // Of two empty if blocks behind an entry that takes neither, the second stays.
  lemma TwoIfs(top: MenuForest.MenuNode, a: MenuForest.MenuNode, b: MenuForest.MenuNode, c: MenuForest.MenuNode,
               joins: MenuForest.Joins)
    requires a.content.Entry? && b.content.IfBlock? && c.content.IfBlock? && !joins(a, b)
    ensures MenuForest.Finalized(MenuTree.One(top, Three(a, b, c)), joins, true)
            == MenuTree.One(top, MenuForest.Cons(a, MenuForest.Nil, MenuTree.One(c, MenuForest.Nil)))
  {
    var ends := MenuTree.One(c, MenuForest.Nil);
    var ifs := MenuForest.Cons(b, MenuForest.Nil, ends);
    assert MenuForest.Finalized(ends, joins, true) == ends;
    assert MenuForest.FinalizedAll(ends, joins, true) == ends;
    assert MenuForest.FinalizedAll(ifs, joins, true) == ifs;
    assert MenuForest.Finished(MenuForest.Nil, true) == MenuForest.Nil;
    assert MenuForest.Finalized(Three(a, b, c), joins, true) == Three(a, b, c);
    assert MenuForest.FinalizedAll(Three(a, b, c), joins, true) == Three(a, b, c);
    assert MenuForest.Flattened(ends) == ends && MenuForest.Flattened(ifs) == ifs;
    assert MenuForest.Flattened(Three(a, b, c)) == Three(a, b, c);
    assert MenuForest.Thinned(ends) == ends;
  }

  // The tree as it is parsed.
  method EntryAndIfs(s: nat, x: nat, k: Constants)
    returns (top: MenuForest.MenuNode, a: MenuForest.MenuNode, b: MenuForest.MenuNode, c: MenuForest.MenuNode)
    ensures a.content == MenuForest.Entry(S(s))
    ensures forall n :: n in {b, c} ==> n.content.IfBlock? && n.prompt.None? && n.dep == Leaf(S(x))
    ensures MenuForest.Separate(MenuTree.One(top, Three(a, b, c)))
    ensures MenuTree.Linked(MenuTree.One(top, Three(a, b, c)), null, null)
    ensures fresh(top) && fresh(a) && fresh(b) && fresh(c)
  {
    top := new MenuForest.MenuNode(MenuForest.Menu, Some(("Main menu", Leaf(S(k.y)))), Leaf(S(k.y)));
    a := new MenuForest.MenuNode(MenuForest.Entry(S(s)), Some(("Entry", Leaf(S(k.y)))), Leaf(S(k.y)));
    b := new MenuForest.MenuNode(MenuForest.IfBlock, None, Leaf(S(x)));
    c := new MenuForest.MenuNode(MenuForest.IfBlock, None, Leaf(S(x)));
    top.list, a.next, b.next := a, b, c;
    a.parent, b.parent, c.parent := top, top, top;
    ghost var ends := MenuTree.One(c, MenuForest.Nil);
    ghost var ifs := MenuForest.Cons(b, MenuForest.Nil, ends);
    assert MenuForest.Separate(MenuForest.Nil) && MenuForest.Nodes(MenuForest.Nil) == {};
    assert MenuForest.Separate(ends) && MenuForest.Separate(ifs);
    assert MenuForest.Nodes(ends) == {c} && MenuForest.Nodes(ifs) == {b, c};
    assert MenuForest.Separate(Three(a, b, c));
    assert MenuTree.Linked(MenuForest.Nil, null, c) && MenuTree.Linked(MenuForest.Nil, null, top);
    assert MenuTree.Linked(ends, null, top);
    assert MenuTree.Linked(ifs, null, top);
    assert MenuTree.Linked(Three(a, b, c), null, top);
  }

  /** A tree that keeps an if block: an entry for symbol s, and behind it two empty if blocks
      with symbol x for a condition. */
  method IfBlockStays(s: nat, x: nat, k: Constants) returns (top: MenuForest.MenuNode)
    requires s != x
    ensures top.list != null && top.list.content == MenuForest.Entry(S(s))
    ensures top.list.next != null && top.list.next.content.IfBlock? && top.list.next.next == null
  {
    var a, b, c;
    top, a, b, c := EntryAndIfs(s, x, k);
    ghost var f, ends := MenuTree.One(top, Three(a, b, c)), MenuTree.One(c, MenuForest.Nil);
    TwoIfs(top, a, b, c, HasAutoMenuDep(k));
    MenuTree.FinalizeTree(top, HasAutoMenuDep(k), true, f, null);
    assert MenuTree.Linked(MenuForest.Cons(a, MenuForest.Nil, ends), null, top);
    assert MenuTree.Linked(ends, null, top);
  }

  /** One operand tests that s is not y. */
  predicate UnequalYes(e: Expr, s: Item, k: Constants) {
    e.REL? && e.rel.UNEQUAL? && s.S? && ((e.a == s.id && e.b == k.y) || (e.b == s.id && e.a == k.y))
  }

  /** Some operand makes the submenu, and does so otherwise than by testing for "not y". */
  predicate Proper(e: Expr, i: Item, k: Constants) {
    match e
    case AND(l, r) => Proper(l, i, k) || Proper(r, i, k)
    case _ => ExprDependsOn(e, i, k) && !UnequalYes(e, i, k)
  }

  /** The comparisons of the bool or tristate symbol s with y, m and n go by its value. */
  ghost predicate ComparedByValue(s: nat, k: Constants, tri: Item -> Tri, holds: (Relation, nat, nat) -> bool) {
    && k.y != k.m && k.m != k.n && k.y != k.n && s != k.y && s != k.m && s != k.n
    && forall rel: Relation, c :: (rel.EQUAL? || rel.UNEQUAL?) && c in {k.y, k.m, k.n} ==>
         var same := tri(S(s)) == if c == k.y then 2 else if c == k.m then 1 else 0;
         && (holds(rel, s, c) <==> same == rel.EQUAL?)
         && (holds(rel, c, s) <==> same == rel.EQUAL?)
  }

  /** A node that is made part of an implicit submenu is invisible while the item before it is
      n, as soon as some operand of its dependency other than a test for "not y" makes it part. */
  lemma {:induction false} AutoMenuDepends(e: Expr, i: Item, k: Constants, tri: Item -> Tri,
                                           holds: (Relation, nat, nat) -> bool)
    requires Proper(e, i, k)
    requires i.S? ==> ComparedByValue(i.id, k, tri, holds)
    requires ExprValue(e, tri, holds) != 0
    ensures ExprDependsOn(e, i, k) && tri(i) != 0
  {
    match e
    case Leaf(_) =>
    case REL(rel, a, b) =>
      assert holds(rel, a, b);
    case AND(l, r) =>
      if Proper(l, i, k) {
        AutoMenuDepends(l, i, k, tri, holds);
      } else {
        AutoMenuDepends(r, i, k, tri, holds);
      }
  }

  /** So in the finished tree: a node in the submenu of an entry is invisible while the item of
      the entry is n. */
  lemma {:induction false} SubmenuInvisible(d: MenuForest.Forest, parsed: set<MenuForest.MenuNode>, k: Constants,
                                            n: MenuForest.MenuNode, entry: MenuForest.MenuNode,
                                            tri: Item -> Tri, holds: (Relation, nat, nat) -> bool)
    requires Submenus(d, parsed, null, k) && (n, entry) in DrawnBelow(d, parsed)
    ensures entry.content.Entry?
    ensures var i := entry.content.item;
            && Proper(Condition(n), i, k) && (i.S? ==> ComparedByValue(i.id, k, tri, holds)) && tri(i) == 0
            ==> ExprValue(Condition(n), tri, holds) == 0
  {
    DrawnDepends(d, parsed, null, k);
    var i := entry.content.item;
    if Proper(Condition(n), i, k) && (i.S? ==> ComparedByValue(i.id, k, tri, holds))
       && ExprValue(Condition(n), tri, holds) != 0 {
      AutoMenuDepends(Condition(n), i, k, tri, holds);
    }
  }

  /** Whatever the values are, e holds only while item i is not n. */
  ghost predicate Guaranteed(e: Expr, i: Item, k: Constants) {
    forall tri, holds ::
      (i.S? ==> ComparedByValue(i.id, k, tri, holds)) && ExprValue(e, tri, holds) != 0 ==> tri(i) != 0
  }

  /** A conjunction of items and comparisons. */
  predicate Conjunction(e: Expr) {
    match e
    case AND(l, r) => Conjunction(l) && Conjunction(r)
    case Leaf(_) => true
    case REL(_, _, _) => true
    case _ => false
  }

  function AtN(i: Item): Item -> Tri {
    (x: Item) => if x == i then 0 else 2
  }

  function ComparedAtN(i: Item, k: Constants): (Relation, nat, nat) -> bool {
    (rel: Relation, a: nat, b: nat) =>
      if i.S? && ((a == i.id && b in {k.y, k.m, k.n}) || (b == i.id && a in {k.y, k.m, k.n})) then
        match rel
        case EQUAL => a == k.n || b == k.n
        case UNEQUAL => a != k.n && b != k.n
        case _ => true
      else true
  }

  // With i at n and all else at y, only an operand that guarantees the rule can fail.
  lemma {:induction false} HoldsAtN(e: Expr, i: Item, k: Constants)
    requires Conjunction(e) && !Proper(e, i, k)
    requires i.S? ==> ComparedByValue(i.id, k, AtN(i), ComparedAtN(i, k))
    ensures ExprValue(e, AtN(i), ComparedAtN(i, k)) == 2
  {
    if e.AND? {
      HoldsAtN(e.l, i, k);
      HoldsAtN(e.r, i, k);
    }
  }

  /** The rule is guaranteed if and only if some operand makes the submenu otherwise than by
      testing for "not y". */
  lemma {:induction false} AutoMenuExact(e: Expr, i: Item, k: Constants)
    requires Conjunction(e)
    requires k.y != k.m && k.m != k.n && k.y != k.n
    requires i.S? ==> i.id != k.y && i.id != k.m && i.id != k.n
    ensures Guaranteed(e, i, k) <==> Proper(e, i, k)
  {
    if Proper(e, i, k) {
      forall tri, holds | (i.S? ==> ComparedByValue(i.id, k, tri, holds)) && ExprValue(e, tri, holds) != 0
        ensures tri(i) != 0
      {
        AutoMenuDepends(e, i, k, tri, holds);
      }
    } else {
      HoldsAtN(e, i, k);
      assert ExprValue(e, AtN(i), ComparedAtN(i, k)) != 0 && AtN(i)(i) == 0;
    }
  }

  function Conjuncts(e: Expr): seq<Expr> {
    match e
    case AND(l, r) => Conjuncts(l) + Conjuncts(r)
    case _ => [e]
  }

  /** What makes the submenu: a conjunct that is the item itself, or a comparison that cannot hold
      while the item is n, or, against the rule, the test for "not y". */
  lemma {:induction false} DependsExactly(e: Expr, i: Item, k: Constants)
    requires k.y != k.m && k.m != k.n && k.y != k.n
    requires i.S? ==> i.id != k.y && i.id != k.m && i.id != k.n
    ensures ExprDependsOn(e, i, k)
            <==> exists c :: c in Conjuncts(e)
                   && (c == Leaf(i) || (c.REL? && (Guaranteed(c, i, k) || UnequalYes(c, i, k))))
  {
    if e.AND? {
      DependsExactly(e.l, i, k);
      DependsExactly(e.r, i, k);
      assert forall c :: c in Conjuncts(e) <==> c in Conjuncts(e.l) || c in Conjuncts(e.r);
    } else {
      assert Conjuncts(e) == [e] && e in Conjuncts(e);
      DependsAlone(e, i, k);
    }
  }

  lemma {:induction false} DependsAlone(e: Expr, i: Item, k: Constants)
    requires !e.AND? && k.y != k.m && k.m != k.n && k.y != k.n
    requires i.S? ==> i.id != k.y && i.id != k.m && i.id != k.n
    ensures ExprDependsOn(e, i, k) <==> e == Leaf(i) || (e.REL? && (Guaranteed(e, i, k) || UnequalYes(e, i, k)))
  {
    if e.REL? {
      AutoMenuExact(e, i, k);
      if UnequalYes(e, i, k) { assert ExprDependsOn(e, i, k); }
    }
  }

  /** The test for "not y" makes a submenu and breaks the rule: it holds for s at n. */
  lemma {:induction false} UnequalYesBreaks(a: nat, b: nat, s: nat, k: Constants)
    requires UnequalYes(REL(UNEQUAL, a, b), S(s), k)
    requires k.y != k.m && k.m != k.n && k.y != k.n && s != k.y && s != k.m && s != k.n
    ensures ExprDependsOn(REL(UNEQUAL, a, b), S(s), k) && !Guaranteed(REL(UNEQUAL, a, b), S(s), k)
  {
    AutoMenuExact(REL(UNEQUAL, a, b), S(s), k);
  }
}
