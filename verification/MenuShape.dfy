/** Which nodes stand below which in a finalized menu tree. Finalization draws runs of nodes into
    submenus and then hides the nodes without a prompt; here the two are told apart. */
module MenuShape {
  import opened MenuForest
  import opened MenuTree

  // ----- the submenus, before anything is flattened -----

  /** The nodes that were parsed with children. */
  function WithKids(f: Forest): set<MenuNode> {
    if f.Nil? then {} else (if f.kids.Cons? then {f.node} else {}) + WithKids(f.kids) + WithKids(f.rest)
  }

  /** parsed says which nodes of f have children. */
  predicate Marks(f: Forest, parsed: set<MenuNode>) {
    f.Cons? ==> (f.node in parsed <==> f.kids.Cons?) && Marks(f.kids, parsed) && Marks(f.rest, parsed)
  }

  /** The submenus dissolved again: the children of the other nodes move up behind them. */
  function Released(d: Forest, parsed: set<MenuNode>): Forest {
    if d.Nil? then Nil
    else if d.node in parsed then Cons(d.node, Released(d.kids, parsed), Released(d.rest, parsed))
    else Cons(d.node, Nil, Append(Released(d.kids, parsed), Released(d.rest, parsed)))
  }

  /** Each node of d that was parsed without children has those nodes below it that joined it, and
      the next node in the row, or behind the row, did not join. If blocks are joined by none. */
  predicate Runs(d: Forest, parsed: set<MenuNode>, end: MenuNode?, joins: Joins) {
    d.Cons? ==>
      var after := Root(d.rest, end);
      && Runs(d.rest, parsed, end, joins)
      && (if d.node in parsed then Runs(d.kids, parsed, null, joins)
          else if d.node.content.IfBlock? then d.kids.Nil?
          else AllJoin(d.node, d.kids, joins) && (after != null ==> !joins(d.node, after))
               && Runs(d.kids, parsed, after, joins))
  }

  /** _finalize_tree and _check_auto_menu without _flatten and _remove_ifs. */
  function Drawn(f: Forest, joins: Joins): (r: Forest)
    requires f.Cons?
    ensures r.Cons? && r.node == f.node && Count(r) <= Count(f)
    decreases Count(f), 0
  {
    if f.kids.Cons? then Cons(f.node, DrawnAll(f.kids, joins), f.rest)
    else if f.node.content.IfBlock? then f
    else
      var (taken, rest) := DrawnRun(f.node, f.rest, joins);
      Cons(f.node, taken, rest)
  }

  function DrawnAll(f: Forest, joins: Joins): (r: Forest)
    ensures Count(r) <= Count(f)
    ensures f.Cons? <==> r.Cons?
    ensures f.Cons? ==> r.node == f.node
    decreases Count(f), 1
  {
    if f.Nil? then Nil
    else
      var g := Drawn(f, joins);
      Cons(g.node, g.kids, DrawnAll(g.rest, joins))
  }

  function DrawnRun(n: MenuNode, f: Forest, joins: Joins): (r: (Forest, Forest))
    ensures Count(r.0) + Count(r.1) <= Count(f)
    decreases Count(f), 1
  {
    if f.Cons? && joins(n, f.node) then
      var g := Drawn(f, joins);
      var (taken, rest) := DrawnRun(n, g.rest, joins);
      (Cons(g.node, g.kids, taken), rest)
    else (Nil, f)
  }

  lemma {:induction false} WithKidsMarks(f: Forest, others: set<MenuNode>)
    requires Separate(f) && others !! Nodes(f)
    ensures Marks(f, WithKids(f) + others) && WithKids(f) <= Nodes(f)
  {
    if f.Cons? {
      var own := if f.kids.Cons? then {f.node} else {};
      WithKidsMarks(f.kids, {});
      WithKidsMarks(f.rest, {});
      WithKidsMarks(f.kids, others + own + WithKids(f.rest));
      WithKidsMarks(f.rest, others + own + WithKids(f.kids));
      assert WithKids(f.kids) + (others + own + WithKids(f.rest)) == WithKids(f) + others;
      assert WithKids(f.rest) + (others + own + WithKids(f.kids)) == WithKids(f) + others;
    }
  }

  lemma {:induction false} DrawnShape(f: Forest, joins: Joins, parsed: set<MenuNode>)
    requires f.Cons? && Marks(f, parsed)
    ensures var g := Drawn(f, joins);
            && Marks(g.rest, parsed) && Runs(One(g.node, g.kids), parsed, Root(g.rest, null), joins)
            && (f.kids.Cons? ==> Released(g.kids, parsed) == f.kids && g.rest == f.rest)
            && (f.kids.Nil? ==> Append(Released(g.kids, parsed), g.rest) == f.rest)
    decreases Count(f), 0
  {
    if f.kids.Cons? {
      DrawnAllShape(f.kids, joins, parsed);
    } else if !f.node.content.IfBlock? {
      DrawnRunShape(f.node, f.rest, joins, parsed);
    }
  }

  lemma {:induction false} DrawnAllShape(f: Forest, joins: Joins, parsed: set<MenuNode>)
    requires Marks(f, parsed)
    ensures Released(DrawnAll(f, joins), parsed) == f && Runs(DrawnAll(f, joins), parsed, null, joins)
    decreases Count(f), 1
  {
    if f.Cons? {
      var g := Drawn(f, joins);
      DrawnShape(f, joins, parsed);
      DrawnAllShape(g.rest, joins, parsed);
    }
  }

  lemma {:induction false} DrawnRunShape(n: MenuNode, f: Forest, joins: Joins, parsed: set<MenuNode>)
    requires Marks(f, parsed)
    ensures var (taken, rest) := DrawnRun(n, f, joins);
            && Marks(rest, parsed) && Append(Released(taken, parsed), rest) == f
            && AllJoin(n, taken, joins) && (rest.Cons? ==> !joins(n, rest.node))
            && Runs(taken, parsed, Root(rest, null), joins) && Root(taken, Root(rest, null)) == Root(f, null)
    decreases Count(f), 1
  {
    if f.Cons? && joins(n, f.node) {
      var g := Drawn(f, joins);
      DrawnShape(f, joins, parsed);
      DrawnRunShape(n, g.rest, joins, parsed);
      var (taken, rest) := DrawnRun(n, g.rest, joins);
      AppendAssoc(Released(g.kids, parsed), Released(taken, parsed), rest);
    }
  }

  // ----- who is shown below whom -----

  /** Each node of f with the closest node above it, below p, that is not hidden. */
  function Shown(f: Forest, p: MenuNode, ifs: bool): set<(MenuNode, MenuNode)> {
    if f.Nil? then {}
    else (if ifs || !f.node.content.IfBlock? then {(f.node, p)} else {})
         + Shown(f.kids, if f.node.Hidden() then p else f.node, ifs) + Shown(f.rest, p, ifs)
  }

  lemma {:induction false} ShownAppend(f: Forest, g: Forest, p: MenuNode, ifs: bool)
    ensures Shown(Append(f, g), p, ifs) == Shown(f, p, ifs) + Shown(g, p, ifs)
  {
    if f.Cons? { ShownAppend(f.rest, g, p, ifs); }
  }

  lemma {:induction false} FlattenedShown(f: Forest, p: MenuNode, ifs: bool)
    ensures Shown(Flattened(f), p, ifs) == Shown(f, p, ifs)
    decreases Count(f)
  {
    if f.Cons? {
      if f.kids.Cons? && f.node.Hidden() {
        AppendFacts(f.kids, f.rest);
        ShownAppend(f.kids, f.rest, p, ifs);
        FlattenedShown(Append(f.kids, f.rest), p, ifs);
      } else {
        FlattenedShown(f.rest, p, ifs);
      }
    }
  }

  lemma {:induction false} FromFirstShown(f: Forest, p: MenuNode)
    requires Flat(f) && IfsHidden(f)
    ensures Shown(FromFirst(f), p, false) == Shown(f, p, false)
  {
    if f.Cons? && f.node.content.IfBlock? { FromFirstShown(f.rest, p); }
  }

  lemma {:induction false} ThinnedShown(f: Forest, p: MenuNode)
    requires Flat(f) && IfsHidden(f)
    ensures Shown(Thinned(f), p, false) == Shown(f, p, false)
  {
    if f.Cons? {
      if f.rest.Cons? && f.rest.node.content.IfBlock? {
        ThinnedShown(f.rest.rest, p);
        assert Shown(f.rest, p, false) == Shown(f.rest.rest, p, false);
      } else {
        ThinnedShown(f.rest, p);
      }
    }
  }

  lemma FinishedShown(f: Forest, removeIfs: bool, p: MenuNode)
    requires removeIfs ==> IfsHidden(f)
    ensures Shown(Finished(f, removeIfs), p, !removeIfs) == Shown(f, p, !removeIfs)
  {
    FlattenedShown(f, p, !removeIfs);
    FlattenedFlat(f);
    if removeIfs {
      FromFirstOrder(Flattened(f));
      FromFirstShown(Flattened(f), p);
      ThinnedShown(FromFirst(Flattened(f)), p);
    }
  }

  lemma {:induction false} FinalizedShown(f: Forest, joins: Joins, removeIfs: bool, p: MenuNode)
    requires f.Cons? && (removeIfs ==> IfsHidden(f))
    ensures Finalized(f, joins, removeIfs).rest == Drawn(f, joins).rest
    ensures Shown(Finalized(f, joins, removeIfs).kids, p, !removeIfs) == Shown(Drawn(f, joins).kids, p, !removeIfs)
    decreases Count(f), 0
  {
    if f.kids.Cons? {
      FinalizedAllShown(f.kids, joins, removeIfs, p);
      FinalizedAllOrder(f.kids, joins, removeIfs);
      FinishedShown(FinalizedAll(f.kids, joins, removeIfs), removeIfs, p);
    } else if !f.node.content.IfBlock? {
      TakenShown(f.node, f.rest, joins, removeIfs, p);
      TakenOrder(f.node, f.rest, joins, removeIfs);
      FinishedShown(Taken(f.node, f.rest, joins, removeIfs).0, removeIfs, p);
    }
  }

  lemma {:induction false} FinalizedAllShown(f: Forest, joins: Joins, removeIfs: bool, p: MenuNode)
    requires removeIfs ==> IfsHidden(f)
    ensures Shown(FinalizedAll(f, joins, removeIfs), p, !removeIfs) == Shown(DrawnAll(f, joins), p, !removeIfs)
    decreases Count(f), 1
  {
    if f.Cons? {
      FinalizedShown(f, joins, removeIfs, if f.node.Hidden() then p else f.node);
      FinalizedOrder(f, joins, removeIfs);
      FinalizedAllShown(Finalized(f, joins, removeIfs).rest, joins, removeIfs, p);
    }
  }

  lemma {:induction false} TakenShown(n: MenuNode, f: Forest, joins: Joins, removeIfs: bool, p: MenuNode)
    requires removeIfs ==> IfsHidden(f)
    ensures Taken(n, f, joins, removeIfs).1 == DrawnRun(n, f, joins).1
    ensures Shown(Taken(n, f, joins, removeIfs).0, p, !removeIfs) == Shown(DrawnRun(n, f, joins).0, p, !removeIfs)
    decreases Count(f), 1
  {
    if f.Cons? && joins(n, f.node) {
      FinalizedShown(f, joins, removeIfs, if f.node.Hidden() then p else f.node);
      FinalizedOrder(f, joins, removeIfs);
      TakenShown(n, Finalized(f, joins, removeIfs).rest, joins, removeIfs, p);
    }
  }

  lemma {:induction false} ShownAllocated(f: Forest, p: MenuNode, ifs: bool)
    ensures forall x :: x in Shown(f, p, ifs) ==> allocated(x.0)
  {
    if f.Cons? {
      ShownAllocated(f.kids, if f.node.Hidden() then p else f.node, ifs);
      ShownAllocated(f.rest, p, ifs);
    }
  }

  // ----- in the links of the finalized tree -----

  /** In a linked tree without hidden parents each node's parent is the one it is shown below. */
  lemma {:induction false} LinkedShown(f: Forest, end: MenuNode?, p: MenuNode, ifs: bool)
    requires Linked(f, end, p) && Flat(f) && Tidy(f)
    ensures forall x :: x in Shown(f, p, ifs) ==> x.0.parent == x.1
  {
    if f.Cons? {
      LinkedShown(f.kids, null, f.node, ifs);
      LinkedShown(f.rest, end, p, ifs);
    }
  }

  /** What drawing made of the tree below the top node, and who is below whom in the end. */
  lemma {:induction false} FinalizedShape(top: MenuNode, kids: Forest, joins: Joins, removeIfs: bool)
    requires Separate(One(top, kids)) && (removeIfs ==> IfsHidden(One(top, kids)))
    ensures Released(DrawnAll(kids, joins), WithKids(kids)) == kids
    ensures Runs(DrawnAll(kids, joins), WithKids(kids), null, joins)
    ensures var g := Finalized(One(top, kids), joins, removeIfs);
            && Flat(g.kids) && Tidy(g.kids)
            && Shown(g.kids, top, !removeIfs) == Shown(DrawnAll(kids, joins), top, !removeIfs)
  {
    WithKidsMarks(kids, {});
    assert WithKids(kids) + {} == WithKids(kids);
    DrawnAllShape(kids, joins, WithKids(kids));
    FinalizedTidy(One(top, kids), joins, removeIfs);
    if kids.Cons? {
      FinalizedShown(One(top, kids), joins, removeIfs, top);
    } else {
      assert Finished(Nil, removeIfs) == Nil;
    }
  }

  // ----- finalization as a whole -----

  // The tree is finalized; drawn is how its submenus came about.
  method FinalizeTop(top: MenuNode, joins: Joins, ghost kids: Forest) returns (ghost below: Forest, ghost drawn: Forest)
    requires Separate(One(top, kids)) && Linked(One(top, kids), null, null)
    requires !top.content.IfBlock? && IfsHidden(kids)
    modifies Nodes(One(top, kids))
    ensures top.list == Root(below, null) && top.next == null && top.parent == null && Linked(below, null, top)
    ensures WithoutIfs(PreOrder(below, true)) == PreOrder(kids, false) && Once(PreOrder(below, true))
    ensures Released(drawn, WithKids(kids)) == kids && Runs(drawn, WithKids(kids), null, joins)
    ensures forall x :: x in Shown(drawn, top, false) ==> x.0.parent == x.1
  {
    below, drawn := FinalizedBelow(top, joins, kids);
    FinalizeTree(top, joins, true, One(top, kids), null);
    LinkedBelow(top, below);
  }

  lemma {:induction false} LinkedBelow(top: MenuNode, below: Forest)
    requires Linked(One(top, below), null, null) && Flat(below) && Tidy(below)
    ensures top.list == Root(below, null) && top.next == null && top.parent == null && Linked(below, null, top)
    ensures forall x :: x in Shown(below, top, false) ==> x.0.parent == x.1
  {
    LinkedShown(below, null, top, false);
  }

  // All there is to know of the finalized tree.
  lemma FinalizedBelow(top: MenuNode, joins: Joins, kids: Forest) returns (below: Forest, drawn: Forest)
    requires Separate(One(top, kids)) && !top.content.IfBlock? && IfsHidden(kids)
    ensures Finalized(One(top, kids), joins, true) == One(top, below) && Flat(below) && Tidy(below)
    ensures WithoutIfs(PreOrder(below, true)) == PreOrder(kids, false) && Once(PreOrder(below, true))
    ensures Released(drawn, WithKids(kids)) == kids && Runs(drawn, WithKids(kids), null, joins)
    ensures Shown(below, top, false) == Shown(drawn, top, false)
  {
    below, drawn := Finalized(One(top, kids), joins, true).kids, DrawnAll(kids, joins);
    FinalizedTop(top, joins, kids);
    FinalizedShape(top, kids, joins, true);
    PreOrderOnce(below);
    PreOrderWithoutIfs(below);
  }

  lemma {:induction false} FinalizedTop(top: MenuNode, joins: Joins, kids: Forest)
    requires Separate(One(top, kids)) && IfsHidden(kids) && !top.content.IfBlock?
    ensures var g := Finalized(One(top, kids), joins, true);
            g == One(top, g.kids) && Separate(g.kids) && PreOrder(g.kids, false) == PreOrder(kids, false)
  {
    var f := One(top, kids);
    var g := Finalized(f, joins, true);
    FinalizedOrder(f, joins, true);
    assert PreOrder(f, false) == [top] + PreOrder(kids, false);
    assert PreOrder(g, false) == [top] + PreOrder(g.kids, false);
    assert PreOrder(kids, false) == PreOrder(f, false)[1..];
    assert PreOrder(g.kids, false) == PreOrder(g, false)[1..];
  }

  /** Finalizing a parsed tree and walking it visits the nodes that are not if blocks in the
      order in which they stand in the Kconfig files. The submenus are the longest runs of nodes
      that join the node before them, and in the end each node has the closest one above it that
      is not hidden for its parent. */
  method FinalizeAndWalk(top: MenuNode, joins: Joins, ghost kids: Forest)
    returns (visited: seq<MenuNode>, ghost drawn: Forest)
    requires Separate(One(top, kids)) && Linked(One(top, kids), null, null)
    requires !top.content.IfBlock? && IfsHidden(kids)
    modifies Nodes(One(top, kids))
    ensures WithoutIfs(visited) == PreOrder(kids, false)
    ensures Once(visited)
    ensures Released(drawn, WithKids(kids)) == kids && Runs(drawn, WithKids(kids), null, joins)
    ensures forall x :: x in Shown(drawn, top, false) ==> x.0.parent == x.1
  {
    ghost var below;
    below, drawn := FinalizeTop(top, joins, kids);
    ShownAllocated(drawn, top, false);
    visited := WalkMenu(top, below);
  }
}
