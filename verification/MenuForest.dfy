/** The menu tree of the two Kconfig engines as a mathematical object, and what the
    finalization passes of tools/kconfig_new/kconfiglib.py and tools/kconfig/menu.c make of
    it. MenuTree.dfy has the passes themselves, which relink the nodes in place. */
module MenuForest {
  import opened Basics
  import opened KconfiglibModel

  datatype Content = IfBlock | Menu | Comment | Entry(item: Item)

  /** A menu node: what was parsed, and the links between the nodes. */
  class MenuNode {
    const content: Content
    const prompt: Option<(string, Expr)>
    const dep: Expr
    var list: MenuNode?
    var next: MenuNode?
    var parent: MenuNode?

    constructor (content: Content, prompt: Option<(string, Expr)>, dep: Expr)
      ensures this.content == content && this.prompt == prompt && this.dep == dep
      ensures list == next == parent == null
    {
      this.content, this.prompt, this.dep := content, prompt, dep;
      list, next, parent := null, null, null;
    }

    /** No prompt, or one without text. */
    predicate Hidden() {
      prompt.None? || prompt.value.0 == ""
    }
  }

  /** A node, the nodes in its list, and the nodes that follow it. */
  datatype Forest = Nil | Cons(node: MenuNode, kids: Forest, rest: Forest)

  type Joins = (MenuNode, MenuNode) -> bool

  function Nodes(f: Forest): set<MenuNode> {
    if f.Nil? then {} else {f.node} + Nodes(f.kids) + Nodes(f.rest)
  }

  /** No node stands at two places. */
  predicate Separate(f: Forest) {
    f.Cons? ==>
      && f.node !in Nodes(f.kids) && f.node !in Nodes(f.rest) && Nodes(f.kids) !! Nodes(f.rest)
      && Separate(f.kids) && Separate(f.rest)
  }

  function Count(f: Forest): nat {
    if f.Nil? then 0 else 1 + Count(f.kids) + Count(f.rest)
  }

  function Append(f: Forest, g: Forest): Forest {
    if f.Nil? then g else Cons(f.node, f.kids, Append(f.rest, g))
  }

  lemma {:induction false} AppendFacts(f: Forest, g: Forest)
    ensures Nodes(Append(f, g)) == Nodes(f) + Nodes(g)
    ensures Count(Append(f, g)) == Count(f) + Count(g)
    ensures Separate(Append(f, g)) <==> Separate(f) && Separate(g) && Nodes(f) !! Nodes(g)
    ensures Append(f, Nil) == f
  {
    if f.Cons? { AppendFacts(f.rest, g); }
  }

  lemma {:induction false} AppendAssoc(f: Forest, g: Forest, h: Forest)
    ensures Append(Append(f, g), h) == Append(f, Append(g, h))
  {
    if f.Cons? { AppendAssoc(f.rest, g, h); }
  }

  // ----- document order -----

  function Own(n: MenuNode, ifs: bool): seq<MenuNode> {
    if ifs || !n.content.IfBlock? then [n] else []
  }

  /** The nodes in the order of a walk: all of them, or all but the if blocks. */
  function PreOrder(f: Forest, ifs: bool): seq<MenuNode> {
    if f.Nil? then [] else Own(f.node, ifs) + PreOrder(f.kids, ifs) + PreOrder(f.rest, ifs)
  }

  lemma Regroup(a: seq<MenuNode>, b: seq<MenuNode>, c: seq<MenuNode>)
    ensures a + b + c == a + [] + (b + c)
  {
  }

  lemma {:induction false} PreOrderAppend(f: Forest, g: Forest, ifs: bool)
    ensures PreOrder(Append(f, g), ifs) == PreOrder(f, ifs) + PreOrder(g, ifs)
  {
    if f.Cons? { PreOrderAppend(f.rest, g, ifs); }
  }

  // ----- the passes -----

  /** _flatten: the children of nodes without a prompt move up behind them. */
  function Flattened(f: Forest): (r: Forest)
    ensures Nodes(r) == Nodes(f) && Count(r) == Count(f) && (Separate(f) ==> Separate(r))
    ensures f.Cons? ==> r.Cons? && r.node == f.node
    decreases Count(f)
  {
    if f.Nil? then Nil
    else if f.kids.Cons? && f.node.Hidden() then
      AppendFacts(f.kids, f.rest);
      Cons(f.node, Nil, Flattened(Append(f.kids, f.rest)))
    else Cons(f.node, f.kids, Flattened(f.rest))
  }

  function FromFirst(f: Forest): (r: Forest)
    ensures Nodes(r) <= Nodes(f) && Count(r) <= Count(f) && (Separate(f) ==> Separate(r))
  {
    if f.Cons? && f.node.content.IfBlock? then FromFirst(f.rest) else f
  }

  /** One if block behind every node that stays is dropped. */
  function Thinned(f: Forest): (r: Forest)
    ensures Nodes(r) <= Nodes(f) && Count(r) <= Count(f) && (Separate(f) ==> Separate(r))
  {
    if f.Nil? then Nil
    else if f.rest.Cons? && f.rest.node.content.IfBlock? then
      assert Nodes(f.rest.rest) <= Nodes(f.rest) && (Separate(f.rest) ==> Separate(f.rest.rest));
      Cons(f.node, f.kids, Thinned(f.rest.rest))
    else Cons(f.node, f.kids, Thinned(f.rest))
  }

  /** _remove_ifs */
  function IfsRemoved(f: Forest): Forest {
    Thinned(FromFirst(f))
  }

  function Finished(f: Forest, removeIfs: bool): (r: Forest)
    ensures Nodes(r) <= Nodes(f) && Count(r) <= Count(f) && (Separate(f) ==> Separate(r))
  {
    if removeIfs then IfsRemoved(Flattened(f)) else Flattened(f)
  }

  /** _finalize_tree on the first node of f, which may draw nodes that follow it into its
      list. With removeIfs off, what menu_finalize does to the tree. */
  function Finalized(f: Forest, joins: Joins, removeIfs: bool): (r: Forest)
    requires f.Cons?
    ensures r.Cons? && r.node == f.node
    ensures Nodes(r) <= Nodes(f) && Count(r) <= Count(f) && (Separate(f) ==> Separate(r))
    decreases Count(f), 0
  {
    if f.kids.Cons? then Cons(f.node, Finished(FinalizedAll(f.kids, joins, removeIfs), removeIfs), f.rest)
    else if f.node.content.IfBlock? then f
    else
      var (taken, rest) := Taken(f.node, f.rest, joins, removeIfs);
      Cons(f.node, Finished(taken, removeIfs), rest)
  }

  /** The loop over the children. */
  function FinalizedAll(f: Forest, joins: Joins, removeIfs: bool): (r: Forest)
    ensures Nodes(r) <= Nodes(f) && Count(r) <= Count(f) && (Separate(f) ==> Separate(r))
    ensures f.Cons? ==> r.Cons? && r.node == f.node
    decreases Count(f), 1
  {
    if f.Nil? then Nil
    else
      var g := Finalized(f, joins, removeIfs);
      Cons(g.node, g.kids, FinalizedAll(g.rest, joins, removeIfs))
  }

  /** _check_auto_menu: the nodes behind n that become its list, and those that stay. */
  function Taken(n: MenuNode, f: Forest, joins: Joins, removeIfs: bool): (r: (Forest, Forest))
    ensures Nodes(r.0) + Nodes(r.1) <= Nodes(f) && Count(r.0) + Count(r.1) <= Count(f)
    ensures Separate(f) ==> Separate(r.0) && Separate(r.1) && Nodes(r.0) !! Nodes(r.1)
    decreases Count(f), 1
  {
    if f.Cons? && joins(n, f.node) then
      var g := Finalized(f, joins, removeIfs);
      var (taken, rest) := Taken(n, g.rest, joins, removeIfs);
      (Cons(g.node, g.kids, taken), rest)
    else (Nil, f)
  }

  // ----- document order is kept -----

  /** If blocks have no prompt. */
  predicate IfsHidden(f: Forest) {
    f.Cons? ==> (f.node.content.IfBlock? ==> f.node.Hidden()) && IfsHidden(f.kids) && IfsHidden(f.rest)
  }

  lemma {:induction false} IfsHiddenAppend(f: Forest, g: Forest)
    ensures IfsHidden(Append(f, g)) <==> IfsHidden(f) && IfsHidden(g)
  {
    if f.Cons? { IfsHiddenAppend(f.rest, g); }
  }

  /** None of the nodes in the row has both children and no prompt. */
  predicate Flat(f: Forest) {
    f.Cons? ==> (f.kids.Nil? || !f.node.Hidden()) && Flat(f.rest)
  }

  lemma {:induction false} FlattenedOrder(f: Forest, ifs: bool)
    ensures PreOrder(Flattened(f), ifs) == PreOrder(f, ifs)
    decreases Count(f)
  {
    if f.Cons? {
      if f.kids.Cons? && f.node.Hidden() {
        AppendFacts(f.kids, f.rest);
        PreOrderAppend(f.kids, f.rest, ifs);
        var moved := Append(f.kids, f.rest);
        FlattenedOrder(moved, ifs);
        assert Flattened(f) == Cons(f.node, Nil, Flattened(moved));
        Regroup(Own(f.node, ifs), PreOrder(f.kids, ifs), PreOrder(f.rest, ifs));
      } else {
        FlattenedOrder(f.rest, ifs);
      }
    }
  }

  lemma {:induction false} FlattenedFlat(f: Forest)
    ensures Flat(Flattened(f))
    ensures IfsHidden(f) ==> IfsHidden(Flattened(f))
    decreases Count(f)
  {
    if f.Cons? {
      if f.kids.Cons? && f.node.Hidden() {
        AppendFacts(f.kids, f.rest);
        IfsHiddenAppend(f.kids, f.rest);
        FlattenedFlat(Append(f.kids, f.rest));
      } else {
        FlattenedFlat(f.rest);
      }
    }
  }

  lemma {:induction false} FromFirstOrder(f: Forest)
    requires Flat(f) && IfsHidden(f)
    ensures PreOrder(FromFirst(f), false) == PreOrder(f, false)
    ensures Flat(FromFirst(f)) && IfsHidden(FromFirst(f))
  {
    if f.Cons? && f.node.content.IfBlock? { FromFirstOrder(f.rest); }
  }

  lemma {:induction false} ThinnedOrder(f: Forest)
    requires Flat(f) && IfsHidden(f)
    ensures PreOrder(Thinned(f), false) == PreOrder(f, false)
    ensures Flat(Thinned(f)) && IfsHidden(Thinned(f))
  {
    if f.Cons? {
      if f.rest.Cons? && f.rest.node.content.IfBlock? {
        ThinnedOrder(f.rest.rest);
        assert PreOrder(f.rest, false) == PreOrder(f.rest.rest, false);
      } else {
        ThinnedOrder(f.rest);
      }
    }
  }

  lemma {:induction false} FinishedOrder(f: Forest, removeIfs: bool)
    requires removeIfs ==> IfsHidden(f)
    ensures PreOrder(Finished(f, removeIfs), !removeIfs) == PreOrder(f, !removeIfs)
    ensures IfsHidden(f) ==> IfsHidden(Finished(f, removeIfs))
  {
    FlattenedOrder(f, !removeIfs);
    FlattenedFlat(f);
    if removeIfs {
      FromFirstOrder(Flattened(f));
      ThinnedOrder(FromFirst(Flattened(f)));
    }
  }

  /** Implicit submenus, flattening and the removal of if blocks keep the document order of
      all nodes that are not if blocks; without the removal, that of all nodes. */
  lemma {:induction false} FinalizedOrder(f: Forest, joins: Joins, removeIfs: bool)
    requires f.Cons? && (removeIfs ==> IfsHidden(f))
    ensures PreOrder(Finalized(f, joins, removeIfs), !removeIfs) == PreOrder(f, !removeIfs)
    ensures removeIfs ==> IfsHidden(Finalized(f, joins, removeIfs))
    decreases Count(f), 0
  {
    if f.kids.Cons? {
      FinalizedAllOrder(f.kids, joins, removeIfs);
      FinishedOrder(FinalizedAll(f.kids, joins, removeIfs), removeIfs);
    } else if !f.node.content.IfBlock? {
      var (taken, rest) := Taken(f.node, f.rest, joins, removeIfs);
      TakenOrder(f.node, f.rest, joins, removeIfs);
      FinishedOrder(taken, removeIfs);
      Regroup(Own(f.node, !removeIfs), PreOrder(taken, !removeIfs), PreOrder(rest, !removeIfs));
    }
  }

  lemma {:induction false} FinalizedAllOrder(f: Forest, joins: Joins, removeIfs: bool)
    requires removeIfs ==> IfsHidden(f)
    ensures PreOrder(FinalizedAll(f, joins, removeIfs), !removeIfs) == PreOrder(f, !removeIfs)
    ensures removeIfs ==> IfsHidden(FinalizedAll(f, joins, removeIfs))
    decreases Count(f), 1
  {
    if f.Cons? {
      FinalizedOrder(f, joins, removeIfs);
      FinalizedAllOrder(Finalized(f, joins, removeIfs).rest, joins, removeIfs);
    }
  }

  lemma {:induction false} TakenOrder(n: MenuNode, f: Forest, joins: Joins, removeIfs: bool)
    requires removeIfs ==> IfsHidden(f)
    ensures var (taken, rest) := Taken(n, f, joins, removeIfs);
            && PreOrder(taken, !removeIfs) + PreOrder(rest, !removeIfs) == PreOrder(f, !removeIfs)
            && (removeIfs ==> IfsHidden(taken) && IfsHidden(rest))
    decreases Count(f), 1
  {
    if f.Cons? && joins(n, f.node) {
      FinalizedOrder(f, joins, removeIfs);
      TakenOrder(n, Finalized(f, joins, removeIfs).rest, joins, removeIfs);
    }
  }

  predicate AllJoin(n: MenuNode, f: Forest, joins: Joins) {
    f.Cons? ==> joins(n, f.node) && AllJoin(n, f.rest, joins)
  }

  /** An implicit submenu takes nodes as long as they depend on n: all that it takes do, and
      the one that stands behind it then does not. */
  lemma {:induction false} TakenRun(n: MenuNode, f: Forest, joins: Joins, removeIfs: bool)
    ensures var (taken, rest) := Taken(n, f, joins, removeIfs);
            AllJoin(n, taken, joins) && (rest.Cons? ==> !joins(n, rest.node))
    decreases Count(f)
  {
    if f.Cons? && joins(n, f.node) {
      TakenRun(n, Finalized(f, joins, removeIfs).rest, joins, removeIfs);
    }
  }

  // ----- what the finished tree looks like -----

  /** At every level below, a node with children has a prompt. */
  predicate Tidy(f: Forest) {
    f.Cons? ==> Flat(f.kids) && Tidy(f.kids) && Tidy(f.rest)
  }

  lemma {:induction false} TidyAppend(f: Forest, g: Forest)
    ensures Tidy(Append(f, g)) <==> Tidy(f) && Tidy(g)
  {
    if f.Cons? { TidyAppend(f.rest, g); }
  }

  lemma {:induction false} FlattenedTidy(f: Forest)
    requires Tidy(f)
    ensures Tidy(Flattened(f))
    decreases Count(f)
  {
    if f.Cons? {
      if f.kids.Cons? && f.node.Hidden() {
        AppendFacts(f.kids, f.rest);
        TidyAppend(f.kids, f.rest);
        FlattenedTidy(Append(f.kids, f.rest));
      } else {
        FlattenedTidy(f.rest);
      }
    }
  }

  lemma {:induction false} ThinnedTidy(f: Forest)
    requires Tidy(f) && Flat(f)
    ensures Tidy(Thinned(f)) && Flat(Thinned(f))
    ensures Tidy(FromFirst(f)) && Flat(FromFirst(f))
  {
    if f.Cons? {
      ThinnedTidy(f.rest);
      if f.rest.Cons? { ThinnedTidy(f.rest.rest); }
    }
  }

  lemma {:induction false} FinishedTidy(f: Forest, removeIfs: bool)
    requires Tidy(f)
    ensures Tidy(Finished(f, removeIfs)) && Flat(Finished(f, removeIfs))
  {
    FlattenedTidy(f);
    FlattenedFlat(f);
    ThinnedTidy(Flattened(f));
    ThinnedTidy(FromFirst(Flattened(f)));
  }

  /** Below a finalized node no node without a prompt has children, at whatever depth: the
      indentation of the menu never jumps. */
  lemma {:induction false} FinalizedTidy(f: Forest, joins: Joins, removeIfs: bool)
    requires f.Cons?
    ensures Flat(Finalized(f, joins, removeIfs).kids) && Tidy(Finalized(f, joins, removeIfs).kids)
    decreases Count(f), 0
  {
    if f.kids.Cons? {
      FinalizedAllTidy(f.kids, joins, removeIfs);
      FinishedTidy(FinalizedAll(f.kids, joins, removeIfs), removeIfs);
    } else if !f.node.content.IfBlock? {
      TakenTidy(f.node, f.rest, joins, removeIfs);
      FinishedTidy(Taken(f.node, f.rest, joins, removeIfs).0, removeIfs);
    }
  }

  lemma {:induction false} FinalizedAllTidy(f: Forest, joins: Joins, removeIfs: bool)
    ensures Tidy(FinalizedAll(f, joins, removeIfs))
    decreases Count(f), 1
  {
    if f.Cons? {
      FinalizedTidy(f, joins, removeIfs);
      FinalizedAllTidy(Finalized(f, joins, removeIfs).rest, joins, removeIfs);
    }
  }

  lemma {:induction false} TakenTidy(n: MenuNode, f: Forest, joins: Joins, removeIfs: bool)
    ensures Tidy(Taken(n, f, joins, removeIfs).0)
    decreases Count(f), 1
  {
    if f.Cons? && joins(n, f.node) {
      FinalizedTidy(f, joins, removeIfs);
      TakenTidy(n, Finalized(f, joins, removeIfs).rest, joins, removeIfs);
    }
  }

  predicate HasIf(f: Forest) {
    f.Cons? && (f.node.content.IfBlock? || HasIf(f.rest))
  }

  predicate AdjacentIfs(f: Forest) {
    && f.Cons? && f.rest.Cons?
    && ((f.node.content.IfBlock? && f.rest.node.content.IfBlock?) || AdjacentIfs(f.rest))
  }

  lemma {:induction false} ThinnedIfs(f: Forest)
    requires f.Cons? ==> !f.node.content.IfBlock?
    ensures HasIf(Thinned(f)) <==> AdjacentIfs(f)
  {
    if f.Cons? && f.rest.Cons? {
      if !f.rest.node.content.IfBlock? {
        ThinnedIfs(f.rest);
      } else if f.rest.rest.Cons? && !f.rest.rest.node.content.IfBlock? {
        ThinnedIfs(f.rest.rest);
      }
    }
  }

  lemma {:induction false} FirstIsNoIf(f: Forest)
    ensures FromFirst(f).Cons? ==> !FromFirst(f).node.content.IfBlock?
  {
    if f.Cons? { FirstIsNoIf(f.rest); }
  }

  /** _remove_ifs removes every if block of a row if and only if no two of them are adjacent
      behind the first node that is something else. */
  lemma {:induction false} IfsRemain(f: Forest)
    ensures HasIf(IfsRemoved(f)) <==> AdjacentIfs(FromFirst(f))
  {
    FirstIsNoIf(f);
    ThinnedIfs(FromFirst(f));
  }
}
