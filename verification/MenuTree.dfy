/** The finalization passes over the menu tree, which relink the nodes in place:
    _finalize_tree, _check_auto_menu, _flatten and _remove_ifs of
    tools/kconfig_new/kconfiglib.py, the relinking of menu_finalize in tools/kconfig/menu.c,
    and walk_menu. */
module MenuTree {
  import opened MenuForest

  function Root(f: Forest, end: MenuNode?): MenuNode? {
    if f.Nil? then end else f.node
  }

  /** The links of the nodes of f spell out f, in a row under the given parent that goes on
      with end. */
  ghost predicate Linked(f: Forest, end: MenuNode?, parent: MenuNode?)
    reads Nodes(f)
  {
    f.Cons? ==>
      && f.node.list == Root(f.kids, null) && f.node.next == Root(f.rest, end) && f.node.parent == parent
      && Linked(f.kids, null, f.node) && Linked(f.rest, end, parent)
  }

  lemma {:induction false} LinkedAppend(f: Forest, g: Forest, end: MenuNode?, parent: MenuNode?)
    ensures Root(Append(f, g), end) == Root(f, Root(g, end))
    ensures Linked(Append(f, g), end, parent) <==> Linked(f, Root(g, end), parent) && Linked(g, end, parent)
  {
    if f.Cons? { LinkedAppend(f.rest, g, end, parent); }
  }

  // Framing needs to know that nothing in a forest is still to be allocated.
  lemma {:induction false} NodesAllocated(f: Forest)
    ensures forall n :: n in Nodes(f) ==> allocated(n)
  {
    if f.Cons? {
      NodesAllocated(f.kids);
      NodesAllocated(f.rest);
    }
  }

  function One(n: MenuNode, kids: Forest): Forest {
    Cons(n, kids, Nil)
  }

  /** A row is linked up to its last node n. */
  ghost predicate Ending(row: Forest, n: MenuNode, kids: Forest, parent: MenuNode?)
    reads Nodes(row), n, Nodes(kids)
  {
    && n !in Nodes(row) && n !in Nodes(kids) && Linked(row, n, parent)
    && n.list == Root(kids, null) && n.parent == parent && Linked(kids, null, n)
  }

  /** A walk along a row: what is linked up behind node n grows by n. */
  lemma {:induction false} Advance(done: Forest, n: MenuNode, kids: Forest, rest: Forest, parent: MenuNode?)
    requires Ending(done, n, kids, parent)
    ensures var d := Append(done, One(n, kids));
            && Linked(d, n.next, parent)
            && Append(d, rest) == Append(done, Cons(n, kids, rest))
            && Nodes(d) == Nodes(done) + {n} + Nodes(kids)
  {
    AppendAssoc(done, One(n, kids), rest);
    AppendFacts(done, One(n, kids));
    LinkedAppend(done, One(n, kids), n.next, parent);
  }

  /** done stands in front of todo in a row of the nodes of f. */
  ghost predicate Split(done: Forest, todo: Forest, f: Forest) {
    Nodes(done) + Nodes(todo) <= Nodes(f) && Nodes(done) !! Nodes(todo) && Separate(todo)
  }

  // One node more has been passed.
  lemma {:induction false} SplitAdvance(done: Forest, todo: Forest, f: Forest)
    requires Split(done, todo, f) && Append(done, todo) == f && todo.Cons?
    ensures var d := Append(done, One(todo.node, todo.kids));
            Split(d, todo.rest, f) && Append(d, todo.rest) == f
  {
    AppendAssoc(done, One(todo.node, todo.kids), todo.rest);
    AppendFacts(done, One(todo.node, todo.kids));
  }

  // ----- _flatten -----

  /** One round of the inner loop of _flatten: on to the next child, which gets a new parent. */
  method MoveOneUp(last: MenuNode, parent: MenuNode?, ghost done: Forest, ghost kids: Forest, ghost rest: Forest,
                   ghost was: MenuNode?)
    returns (next: MenuNode)
    requires Ending(done, last, kids, parent) && Nodes(done) + {last} + Nodes(kids) !! Nodes(rest)
    requires rest.Cons? && Separate(rest) && last.next == rest.node && Linked(rest, null, was)
    modifies rest.node`parent
    ensures next == rest.node && Ending(Append(done, One(last, kids)), next, rest.kids, parent)
    ensures next.next == Root(rest.rest, null) && Linked(rest.rest, null, was)
  {
    NodesAllocated(rest);
    Advance(done, last, kids, rest, parent);
    next := last.next;
    next.parent := parent;
  }

  /** The inner loop of _flatten: a row of children comes under a new parent, and what
      followed their old parent now follows the last of them. */
  method MoveUp(first: MenuNode, parent: MenuNode?, next: MenuNode?, ghost kids: Forest, ghost was: MenuNode?)
    requires kids.Cons? && first == kids.node && Separate(kids) && Linked(kids, null, was)
    modifies Nodes(kids)
    ensures Linked(kids, next, parent)
  {
    var last := first;
    ghost var done, todo := Nil, kids;
    NodesAllocated(kids);
    last.parent := parent;
    while last.next != null
      invariant Split(done, todo, kids) && Append(done, todo) == kids && todo.Cons? && last == todo.node
      invariant Ending(done, last, todo.kids, parent)
      invariant last.next == Root(todo.rest, null) && Linked(todo.rest, null, was)
      decreases Count(todo)
    {
      ghost var before := todo;
      SplitAdvance(done, before, kids);
      last := MoveOneUp(last, parent, done, before.kids, before.rest, was);
      done, todo := Append(done, One(before.node, before.kids)), before.rest;
    }
    last.next := next;
    LinkedAppend(done, todo, next, parent);
  }

  /** The body of the if in _flatten. */
  method FlattenNode(node: MenuNode, ghost kids: Forest, ghost rest: Forest)
    requires kids.Cons? && Separate(Cons(node, kids, rest)) && Linked(Cons(node, kids, rest), null, node.parent)
    modifies {node} + Nodes(kids)
    ensures node.parent == old(node.parent)
    ensures Linked(Cons(node, Nil, Append(kids, rest)), null, node.parent)
  {
    ghost var parent := node.parent;
    NodesAllocated(rest);
    MoveUp(node.list, node.parent, node.next, kids, node);
    node.next := node.list;
    node.list := null;
    LinkedAppend(kids, rest, null, parent);
  }

  /** _flatten */
  method Flatten(first: MenuNode?, ghost f: Forest, ghost parent: MenuNode?)
    requires Separate(f) && Linked(f, null, parent) && first == Root(f, null)
    modifies Nodes(f)
    ensures Linked(Flattened(f), null, parent)
  {
    var node := first;
    ghost var done, todo := Nil, f;
    NodesAllocated(f);
    while node != null
      invariant node == Root(todo, null) && Append(done, Flattened(todo)) == Flattened(f)
      invariant Split(done, todo, f)
      invariant Linked(done, node, parent) && Linked(todo, null, parent)
      decreases Count(todo)
    {
      ghost var kids, rest := todo.kids, todo.rest;
      AppendFacts(kids, rest);
      if node.list != null && node.Hidden() {
        FlattenNode(node, kids, rest);
        kids, rest := Nil, Append(kids, rest);
      }
      assert Flattened(todo) == Cons(node, kids, Flattened(rest));
      Advance(done, node, kids, Flattened(rest), parent);
      done, todo := Append(done, One(node, kids)), rest;
      node := node.next;
    }
    AppendFacts(done, Nil);
  }

  // ----- _remove_ifs -----

  /** One if block is unlinked. */
  method SkipNext(cur: MenuNode, ghost kids: Forest, ghost rest: Forest)
    requires rest.Cons? && Separate(Cons(cur, kids, rest)) && Linked(Cons(cur, kids, rest), null, cur.parent)
    modifies cur`next
    ensures Linked(Cons(cur, kids, rest.rest), null, cur.parent) && Separate(Cons(cur, kids, rest.rest))
    ensures Nodes(rest.rest) <= Nodes(rest) && Count(rest.rest) < Count(rest)
  {
    cur.next := cur.next.next;
  }

  /** _remove_ifs */
  method RemoveIfs(node: MenuNode, ghost kids: Forest)
    requires node !in Nodes(kids) && Separate(kids) && Linked(kids, null, node) && node.list == Root(kids, null)
    modifies node`list, Nodes(kids)
    ensures Linked(IfsRemoved(kids), null, node) && node.list == Root(IfsRemoved(kids), null)
  {
    NodesAllocated(kids);
    var first := node.list;
    ghost var start := kids;
    while first != null && first.content.IfBlock?
      invariant first == Root(start, null) && FromFirst(start) == FromFirst(kids)
      invariant Separate(start) && Nodes(start) <= Nodes(kids) && Linked(start, null, node)
      decreases Count(start)
    {
      first, start := first.next, start.rest;
    }
    var cur := first;
    ghost var done, todo := Nil, start;
    while cur != null
      invariant cur == Root(todo, null) && Append(done, Thinned(todo)) == Thinned(start) && Split(done, todo, kids)
      invariant Linked(done, cur, node) && Linked(todo, null, node)
      decreases Count(todo)
    {
      ghost var rest := todo.rest;
      if cur.next != null && cur.next.content.IfBlock? {
        SkipNext(cur, todo.kids, rest);
        rest := rest.rest;
      }
      assert Thinned(todo) == Cons(cur, todo.kids, Thinned(rest));
      Advance(done, cur, todo.kids, Thinned(rest), node);
      done, todo := Append(done, One(cur, todo.kids)), rest;
      cur := cur.next;
    }
    AppendFacts(done, Nil);
    node.list := first;
  }

  // ----- _finalize_tree -----

  /** _finalize_tree, and with removeIfs off the relinking of menu_finalize. */
  method FinalizeTree(node: MenuNode, joins: Joins, removeIfs: bool, ghost f: Forest, ghost parent: MenuNode?)
    requires f.Cons? && f.node == node && Separate(f) && Linked(f, null, parent)
    modifies Nodes(f)
    ensures Linked(Finalized(f, joins, removeIfs), null, parent)
    decreases Count(f), 0
  {
    NodesAllocated(f);
    ghost var kids, rest := f.kids, f.rest;
    if node.list != null {
      FinalizeChildren(node.list, joins, removeIfs, kids, node);
      kids := FinalizedAll(kids, joins, removeIfs);
    } else if !node.content.IfBlock? {
      CheckAutoMenu(node, joins, removeIfs, rest, parent);
      kids, rest := Taken(node, rest, joins, removeIfs).0, Taken(node, rest, joins, removeIfs).1;
    }
    assert Linked(Cons(node, kids, rest), null, parent);
    if node.list != null {
      Flatten(node.list, kids, node);
      if removeIfs {
        RemoveIfs(node, Flattened(kids));
      }
    }
  }

  /** The loop over the children. */
  method FinalizeChildren(first: MenuNode, joins: Joins, removeIfs: bool, ghost f: Forest, ghost parent: MenuNode?)
    requires Separate(f) && Linked(f, null, parent) && f.Cons? && first == f.node
    modifies Nodes(f)
    ensures Linked(FinalizedAll(f, joins, removeIfs), null, parent)
    decreases Count(f), 1
  {
    NodesAllocated(f);
    var cur: MenuNode? := first;
    ghost var done, todo := Nil, f;
    while cur != null
      invariant cur == Root(todo, null) && Split(done, todo, f) && Count(todo) <= Count(f)
      invariant Append(done, FinalizedAll(todo, joins, removeIfs)) == FinalizedAll(f, joins, removeIfs)
      invariant Linked(done, cur, parent) && Linked(todo, null, parent)
      decreases Count(todo)
    {
      ghost var g := Finalized(todo, joins, removeIfs);
      FinalizeTree(cur, joins, removeIfs, todo, parent);
      assert FinalizedAll(todo, joins, removeIfs) == Cons(cur, g.kids, FinalizedAll(g.rest, joins, removeIfs));
      Advance(done, cur, g.kids, FinalizedAll(g.rest, joins, removeIfs), parent);
      done, todo := Append(done, One(cur, g.kids)), g.rest;
      cur := cur.next;
    }
    AppendFacts(done, Nil);
  }

  /** The recursive call in _check_auto_menu, and the new parent of the node it was for. */
  method TakeNext(cur: MenuNode, node: MenuNode, joins: Joins, removeIfs: bool, ghost todo: Forest,
                  ghost parent: MenuNode?)
    returns (next: MenuNode)
    requires todo.Cons? && cur.next == todo.node && cur !in Nodes(todo) && Separate(todo) && Linked(todo, null, parent)
    modifies Nodes(todo)
    ensures var g := Finalized(todo, joins, removeIfs);
            && next == g.node && Separate(g) && Ending(Nil, next, g.kids, node)
            && next.next == Root(g.rest, null) && Linked(g.rest, null, parent)
    decreases Count(todo), 1
  {
    NodesAllocated(todo);
    FinalizeTree(cur.next, joins, removeIfs, todo, parent);
    next := cur.next;
    next.parent := node;
  }

  /** One round of the loop in _check_auto_menu. */
  method TakeOne(cur: MenuNode, node: MenuNode, joins: Joins, removeIfs: bool,
                 ghost row: Forest, ghost kids: Forest, ghost todo: Forest, ghost rest: Forest, ghost parent: MenuNode?)
    returns (next: MenuNode, ghost row': Forest)
    requires todo.Cons? && cur.next == todo.node && Separate(todo) && Linked(todo, null, parent)
    requires node !in Nodes(todo) && Nodes(todo) <= Nodes(rest)
    requires if cur == node then row == Nil else TakenSoFar(node, row, cur, kids, todo, rest)
    modifies Nodes(todo)
    ensures var g := Finalized(todo, joins, removeIfs);
            && next == g.node && next.next == Root(g.rest, null) && Linked(g.rest, null, parent)
            && row' == (if cur == node then Nil else Append(row, One(cur, kids)))
            && TakenSoFar(node, row', next, g.kids, g.rest, rest)
    decreases Count(todo), 2
  {
    NodesAllocated(row);
    NodesAllocated(kids);
    next := TakeNext(cur, node, joins, removeIfs, todo, parent);
    row' := Nil;
    if cur != node {
      Advance(row, cur, kids, Nil, node);
      row' := Append(row, One(cur, kids));
    }
  }

  /** _check_auto_menu */
  method CheckAutoMenu(node: MenuNode, joins: Joins, removeIfs: bool, ghost rest: Forest, ghost parent: MenuNode?)
    requires Separate(Cons(node, Nil, rest)) && Linked(Cons(node, Nil, rest), null, parent)
    modifies node, Nodes(rest)
    ensures var (taken, left) := Taken(node, rest, joins, removeIfs);
            Linked(Cons(node, taken, left), null, parent)
    decreases Count(rest), 3
  {
    NodesAllocated(rest);
    var cur: MenuNode := node;
    // row and then cur with its kids have been taken.
    ghost var row, kids, todo := Nil, Nil, rest;
    while cur.next != null && joins(node, cur.next)
      invariant cur.next == Root(todo, null) && Linked(todo, null, parent)
      invariant Separate(todo) && Count(todo) <= Count(rest)
      invariant node.list == null && node.parent == parent && node !in Nodes(todo) && Nodes(todo) <= Nodes(rest)
      invariant if cur == node then row == Nil && todo == rest else TakenSoFar(node, row, cur, kids, todo, rest)
      invariant cur != node ==> Remains(node, rest, todo, row, cur, kids, joins, removeIfs)
      decreases Count(todo)
    {
      ghost var g := Finalized(todo, joins, removeIfs);
      if cur != node { RemainsStep(node, rest, todo, row, cur, kids, joins, removeIfs); }
      cur, row := TakeOne(cur, node, joins, removeIfs, row, kids, todo, rest, parent);
      kids, todo := g.kids, g.rest;
    }
    if cur != node {
      TakeOver(node, cur, row, kids, todo, rest);
    }
  }

  /** What is taken from rest is the row, then cur, then what is taken from todo. */
  ghost predicate Remains(node: MenuNode, rest: Forest, todo: Forest, row: Forest, cur: MenuNode, kids: Forest,
                          joins: Joins, removeIfs: bool)
  {
    var (taken, left) := Taken(node, todo, joins, removeIfs);
    Taken(node, rest, joins, removeIfs) == (Append(row, Cons(cur, kids, taken)), left)
  }

  lemma {:induction false} RemainsStep(node: MenuNode, rest: Forest, todo: Forest, row: Forest, cur: MenuNode,
                                       kids: Forest, joins: Joins, removeIfs: bool)
    requires Remains(node, rest, todo, row, cur, kids, joins, removeIfs) && todo.Cons? && joins(node, todo.node)
    ensures var g := Finalized(todo, joins, removeIfs);
            Remains(node, rest, g.rest, Append(row, One(cur, kids)), g.node, g.kids, joins, removeIfs)
  {
    var g := Finalized(todo, joins, removeIfs);
    AppendAssoc(row, One(cur, kids), Cons(g.node, g.kids, Taken(node, g.rest, joins, removeIfs).0));
  }

  /** What was taken becomes the list of the node. */
  method TakeOver(node: MenuNode, cur: MenuNode, ghost row: Forest, ghost kids: Forest, ghost left: Forest,
                  ghost rest: Forest)
    requires cur != node && node !in Nodes(left) && TakenSoFar(node, row, cur, kids, left, rest)
    requires cur.next == Root(left, null) && Linked(left, null, node.parent)
    modifies node`list, node`next, cur`next
    ensures Linked(Cons(node, Append(row, One(cur, kids)), left), null, node.parent)
  {
    NodesAllocated(left);
    node.list := node.next;
    node.next := cur.next;
    cur.next := null;
    Advance(row, cur, kids, Nil, node);
    LinkedAppend(row, One(cur, kids), null, node);
  }

  ghost predicate TakenSoFar(node: MenuNode, row: Forest, cur: MenuNode, kids: Forest, todo: Forest, rest: Forest)
    reads node, Nodes(row), cur, Nodes(kids)
  {
    && Ending(row, cur, kids, node) && node.next == Root(row, cur)
    && Nodes(row) + {cur} + Nodes(kids) <= Nodes(rest)
    && (Nodes(row) + {cur} + Nodes(kids)) !! Nodes(todo)
    && node !in Nodes(row) && node !in Nodes(kids)
  }

  // ----- walk_menu -----

  function PreOrders(fs: seq<Forest>): seq<MenuNode> {
    if fs == [] then [] else PreOrder(fs[0], true) + PreOrders(fs[1..])
  }

  function Counts(fs: seq<Forest>): nat {
    if fs == [] then 0 else Count(fs[0]) + Counts(fs[1..])
  }

  /** What follows node p and each of its ancestors, from the inside out. */
  ghost predicate Following(p: MenuNode?, fs: seq<Forest>)
    reads *
    decreases |fs|
  {
    if p == null then fs == []
    else
      && fs != [] && p.next == Root(fs[0], null) && Linked(fs[0], null, p.parent)
      && Following(p.parent, fs[1..])
  }

  /** The climb of walk_menu to the next node behind an ancestor. */
  method Climb(from: MenuNode, ghost pending: seq<Forest>)
    returns (node: MenuNode?, ghost todo: Forest, ghost rest: seq<Forest>)
    requires Following(from.parent, pending)
    ensures node == null ==> PreOrders(pending) == []
    ensures node != null ==>
              && todo.Cons? && node == todo.node && Linked(todo, null, node.parent) && Following(node.parent, rest)
              && PreOrders(pending) == PreOrder(todo, true) + PreOrders(rest)
              && Counts(pending) == Count(todo) + Counts(rest)
  {
    node, todo, rest := from, Nil, pending;
    while node.parent != null
      invariant node != null && Following(node.parent, rest)
      invariant PreOrders(rest) == PreOrders(pending) && Counts(rest) == Counts(pending)
      decreases |rest|
    {
      node, todo, rest := node.parent, rest[0], rest[1..];
      if node.next != null {
        node := node.next;
        return;
      }
    }
    node := null;
  }

  /** The walk stands at node: todo is its row from there on, pending what follows outside. */
  ghost predicate Standing(node: MenuNode?, todo: Forest, pending: seq<Forest>)
    reads *
  {
    && node == Root(todo, null)
    && if node == null then pending == [] else Linked(todo, null, node.parent) && Following(node.parent, pending)
  }

  function Ahead(todo: Forest, pending: seq<Forest>): seq<MenuNode> {
    PreOrder(todo, true) + PreOrders(pending)
  }

  // Down, along, or out.
  lemma {:induction false} AheadOf(f: Forest, pending: seq<Forest>)
    requires f.Cons?
    ensures Ahead(f, pending) == [f.node] + Ahead(f.kids, [f.rest] + pending)
    ensures f.kids.Nil? ==> Ahead(f, pending) == [f.node] + Ahead(f.rest, pending)
    ensures f.kids.Nil? && f.rest.Nil? ==> Ahead(f, pending) == [f.node] + PreOrders(pending)
    ensures Counts([f.rest] + pending) == Count(f.rest) + Counts(pending)
  {
    assert ([f.rest] + pending)[1..] == pending;
    Regrouped([f.node], PreOrder(f.kids, true), PreOrder(f.rest, true), PreOrders(pending));
  }

  /** The tail of the loop in walk_menu: to the node that follows in document order. */
  method Step(from: MenuNode, ghost f: Forest, ghost pending: seq<Forest>)
    returns (node: MenuNode?, ghost todo: Forest, ghost rest: seq<Forest>)
    requires Standing(from, f, pending)
    ensures Standing(node, todo, rest)
    ensures Ahead(f, pending) == [from] + Ahead(todo, rest)
    ensures Count(todo) + Counts(rest) < Count(f) + Counts(pending)
  {
    AheadOf(f, pending);
    if from.list != null {
      node, todo, rest := from.list, f.kids, [f.rest] + pending;
      assert rest[1..] == pending;
      assert Linked(f.kids, null, from) && Following(from, rest);
      assert Standing(node, todo, rest);
    } else if from.next != null {
      node, todo, rest := from.next, f.rest, pending;
      assert Linked(f.rest, null, from.parent) && node.parent == from.parent;
      assert Standing(node, todo, rest);
    } else {
      node, todo, rest := Climb(from, pending);
      if node == null {
        todo, rest := Nil, [];
      }
      assert Standing(node, todo, rest);
    }
  }

  lemma Regrouped(a: seq<MenuNode>, b: seq<MenuNode>, c: seq<MenuNode>, d: seq<MenuNode>)
    ensures (a + b + c) + d == a + (b + (c + d))
    ensures b == [] ==> b + (c + d) == c + d
  {
  }

  /** walk_menu with skip_duplicates off: every node below the top one is visited exactly
      once, in document order, and the walk ends. */
  method WalkMenu(top: MenuNode, ghost kids: Forest) returns (visited: seq<MenuNode>)
    requires top.list == Root(kids, null) && top.next == null && top.parent == null && Linked(kids, null, top)
    ensures visited == PreOrder(kids, true)
  {
    visited := [];
    var node := top.list;
    ghost var todo, pending := kids, StartOf(kids);
    ghost var all := Ahead(todo, pending);
    while node != null
      invariant Standing(node, todo, pending)
      invariant visited + Ahead(todo, pending) == all
      decreases Count(todo) + Counts(pending)
    {
      ghost var before, from, ahead := visited, node, Ahead(todo, pending);
      visited := visited + [node];
      node, todo, pending := Step(node, todo, pending);
      VisitOne(before, from, ahead, Ahead(todo, pending));
    }
  }

  // The top node has no successor.
  function StartOf(kids: Forest): (r: seq<Forest>)
    ensures Ahead(kids, r) == PreOrder(kids, true)
  {
    if kids.Nil? then [] else assert [Nil][1..] == []; [Nil]
  }

  lemma VisitOne(visited: seq<MenuNode>, n: MenuNode, ahead: seq<MenuNode>, rest: seq<MenuNode>)
    requires ahead == [n] + rest
    ensures visited + ahead == (visited + [n]) + rest
  {
  }

  /** No node occurs twice. */
  predicate Once(s: seq<MenuNode>) {
    forall i, j :: 0 <= i < j < |s| ==> s[i] != s[j]
  }

  function Elements(s: seq<MenuNode>): set<MenuNode> {
    set n | n in s
  }

  lemma OnceConcat(s: seq<MenuNode>, t: seq<MenuNode>)
    requires Once(s) && Once(t) && Elements(s) !! Elements(t)
    ensures Once(s + t) && Elements(s + t) == Elements(s) + Elements(t)
  {
    forall i, j | 0 <= i < j < |s + t| ensures (s + t)[i] != (s + t)[j] {
      if i < |s| <= j { assert s[i] in Elements(s) && t[j - |s|] in Elements(t); }
    }
  }

  lemma {:induction false} PreOrderOnce(f: Forest)
    requires Separate(f)
    ensures Elements(PreOrder(f, true)) == Nodes(f)
    ensures Once(PreOrder(f, true))
  {
    if f.Cons? {
      PreOrderOnce(f.kids);
      PreOrderOnce(f.rest);
      var a, b := PreOrder(f.kids, true), PreOrder(f.rest, true);
      assert Elements([f.node]) == {f.node};
      OnceConcat([f.node], a);
      OnceConcat([f.node] + a, b);
    }
  }

  function WithoutIfs(s: seq<MenuNode>): seq<MenuNode> {
    if s == [] then [] else Own(s[0], false) + WithoutIfs(s[1..])
  }

  lemma {:induction false} WithoutIfsConcat(s: seq<MenuNode>, t: seq<MenuNode>)
    ensures WithoutIfs(s + t) == WithoutIfs(s) + WithoutIfs(t)
  {
    if s == [] {
      assert s + t == t;
    } else {
      assert (s + t)[1..] == s[1..] + t;
      WithoutIfsConcat(s[1..], t);
    }
  }

  lemma {:induction false} PreOrderWithoutIfs(f: Forest)
    ensures WithoutIfs(PreOrder(f, true)) == PreOrder(f, false)
  {
    if f.Cons? {
      PreOrderWithoutIfs(f.kids);
      PreOrderWithoutIfs(f.rest);
      WithoutIfsConcat([f.node], PreOrder(f.kids, true));
      WithoutIfsConcat([f.node] + PreOrder(f.kids, true), PreOrder(f.rest, true));
      assert [f.node][1..] == [];
    }
  }
}
