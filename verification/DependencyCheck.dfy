/** sym_check_deps of tools/kconfig/symbol.c on symbols that are neither choices nor choice
    values: a depth-first search with two flags per symbol. */
module DependencyCheck {
  import opened Basics
  import opened KconfigExpr
  import opened KconfigTransform

  datatype PropType = PROMPT | DEFAULT | CHOICE | SELECT | OTHER

  datatype Property = Property(typ: PropType, visible: Option<Expr>, expr: Option<Expr>)

  datatype Dependencies = Dependencies(revDep: Option<Expr>, props: seq<Property>)

  /** The symbols that sym_check_expr_deps visits. */
  function SymbolsOf(e: Expr): set<Symbol> {
    match e
    case Sym(s) => {s}
    case Not(x) => SymbolsOf(x)
    case Bin(_, l, r) => SymbolsOf(l) + SymbolsOf(r)
    case Cmp(_, a, b) => {a, b}
  }

  function OptSymbols(e: Option<Expr>): set<Symbol> {
    if e.None? then {} else SymbolsOf(e.value)
  }

  function PropSymbols(p: Property): set<Symbol> {
    if p.typ.CHOICE? || p.typ.SELECT? then {}
    else OptSymbols(p.visible) + if p.typ.DEFAULT? then OptSymbols(p.expr) else {}
  }

  function PropsSymbols(ps: seq<Property>): set<Symbol> {
    if ps == [] then {} else PropsSymbols(ps[..|ps| - 1]) + PropSymbols(ps[|ps| - 1])
  }

  type Graph = Symbol -> Dependencies

  /** The dependency graph. */
  function Succ(g: Graph, s: Symbol): set<Symbol> {
    OptSymbols(g(s).revDep) + PropsSymbols(g(s).props)
  }

  predicate Occurs(e: Option<Expr>, t: Symbol) {
    e.Some? && ContainsSymbol(e.value, t)
  }

  /** Which edges there are: to each symbol that occurs in a select of s, in the condition of a
      property that is neither a select nor a choice, or in the value of a default. */
  lemma SuccExactly(g: Graph, s: Symbol, t: Symbol)
    ensures t in Succ(g, s)
            <==> Occurs(g(s).revDep, t)
                 || exists p :: p in g(s).props && p.typ != CHOICE && p.typ != SELECT
                                && (Occurs(p.visible, t) || (p.typ == DEFAULT && Occurs(p.expr, t)))
  {
    OptSymbolsExactly(g(s).revDep, t);
    PropsExactly(g(s).props, t);
  }

  lemma {:induction false} SymbolsExactly(e: Expr, t: Symbol)
    ensures t in SymbolsOf(e) <==> ContainsSymbol(e, t)
  {
    match e
    case Not(x) => SymbolsExactly(x, t);
    case Bin(_, l, r) => SymbolsExactly(l, t); SymbolsExactly(r, t);
    case Sym(_) =>
    case Cmp(_, _, _) =>
  }

  lemma OptSymbolsExactly(e: Option<Expr>, t: Symbol)
    ensures t in OptSymbols(e) <==> Occurs(e, t)
  {
    if e.Some? { SymbolsExactly(e.value, t); }
  }

  lemma {:induction false} PropsExactly(ps: seq<Property>, t: Symbol)
    ensures t in PropsSymbols(ps)
            <==> exists p :: p in ps && p.typ != CHOICE && p.typ != SELECT
                             && (Occurs(p.visible, t) || (p.typ == DEFAULT && Occurs(p.expr, t)))
    decreases |ps|
  {
    if ps != [] {
      var front, last := ps[..|ps| - 1], ps[|ps| - 1];
      PropsExactly(front, t);
      OptSymbolsExactly(last.visible, t);
      OptSymbolsExactly(last.expr, t);
      assert forall p :: p in ps <==> p in front || p == last;
    }
  }

  predicate IsPath(g: Graph, p: seq<Symbol>) {
    |p| < 2 || (p[|p| - 1] in Succ(g, p[|p| - 2]) && IsPath(g, p[..|p| - 1]))
  }

  /** A path of at least one edge back to its start. */
  ghost predicate IsCycle(g: Graph, p: seq<Symbol>) {
    |p| >= 2 && IsPath(g, p) && p[0] == p[|p| - 1]
  }

  ghost predicate HasCycle(g: Graph, universe: set<Symbol>) {
    exists p :: IsCycle(g, p) && p[0] in universe
  }

  function Elems(s: seq<Symbol>): set<Symbol> {
    set x | x in s
  }

  lemma ElemsAppend(s: seq<Symbol>, x: Symbol)
    ensures Elems(s + [x]) == Elems(s) + {x}
  {
    forall y | y in Elems(s) + {x} ensures y in s + [x] {
      if y == x { assert (s + [x])[|s|] == x; }
    }
  }

  lemma {:induction false} FirstEdge(g: Graph, p: seq<Symbol>)
    requires IsPath(g, p) && |p| >= 2
    ensures p[1] in Succ(g, p[0])
    decreases |p|
  {
    if |p| > 2 { FirstEdge(g, p[..|p| - 1]); }
  }

  /** The symbols in done depend on each other only, and always on one of lower rank. */
  ghost predicate Ranked(g: Graph, done: set<Symbol>, rank: map<Symbol, nat>, next: nat) {
    && done <= rank.Keys
    && (forall s :: s in done ==> rank[s] < next)
    && (forall s, t :: s in done && t in Succ(g, s) ==> t in done && rank[t] < rank[s])
  }

  /** No path leaves a ranked set, and ranks fall along it. */
  lemma {:induction false} RanksFall(g: Graph, done: set<Symbol>, rank: map<Symbol, nat>, next: nat, p: seq<Symbol>)
    requires Ranked(g, done, rank, next) && IsPath(g, p) && |p| >= 1 && p[0] in done
    ensures p[|p| - 1] in done
    ensures |p| >= 2 ==> rank[p[|p| - 1]] < rank[p[0]]
    decreases |p|
  {
    if |p| >= 2 {
      RanksFall(g, done, rank, next, p[..|p| - 1]);
    }
  }

  lemma NoCycleFrom(g: Graph, done: set<Symbol>, rank: map<Symbol, nat>, next: nat, p: seq<Symbol>)
    requires Ranked(g, done, rank, next) && |p| >= 1 && p[0] in done
    ensures !IsCycle(g, p)
  {
    if IsPath(g, p) {
      RanksFall(g, done, rank, next, p);
    }
  }

  lemma RankAppend(g: Graph, done: set<Symbol>, rank: map<Symbol, nat>, next: nat, s: Symbol)
    requires Ranked(g, done, rank, next) && Succ(g, s) <= done && s !in done
    ensures Ranked(g, done + {s}, rank[s := next], next + 1)
  {
  }

  lemma {:induction false} PathSuffix(g: Graph, p: seq<Symbol>, k: nat)
    requires IsPath(g, p) && k < |p|
    ensures IsPath(g, p[k..])
    decreases |p|
  {
    if |p| - k >= 2 {
      PathSuffix(g, p[..|p| - 1], k);
      assert p[k..][..|p| - k - 1] == p[..|p| - 1][k..];
    }
  }

  lemma {:induction false} PathAppend(g: Graph, p: seq<Symbol>, s: Symbol)
    requires IsPath(g, p) && (p != [] ==> s in Succ(g, p[|p| - 1]))
    ensures IsPath(g, p + [s])
  {
    assert (p + [s])[..|p|] == p;
  }

  /** An edge from the top of the stack to a symbol on it closes a cycle. */
  lemma {:induction false} BackEdge(g: Graph, stack: seq<Symbol>, s: Symbol, universe: set<Symbol>)
    requires IsPath(g, stack) && s in stack && s in Succ(g, stack[|stack| - 1]) && s in universe
    ensures HasCycle(g, universe)
  {
    var k :| 0 <= k < |stack| && stack[k] == s;
    PathSuffix(g, stack, k);
    PathAppend(g, stack[k..], s);
    assert IsCycle(g, stack[k..] + [s]);
  }

  ghost predicate Closed(g: Graph, universe: set<Symbol>) {
    forall s, t :: s in universe && t in Succ(g, s) ==> t in universe
  }

  /** The flags describe a path of symbols under examination; and as long as nothing has
      been reported, the finished symbols are ranked. */
  ghost predicate Sound(g: Graph, universe: set<Symbol>, stack: seq<Symbol>, check: set<Symbol>, checked: set<Symbol>,
                        reported: bool, rank: map<Symbol, nat>, next: nat)
  {
    && Closed(g, universe)
    && IsPath(g, stack)
    && check == Elems(stack)
    && check <= checked <= universe
    && (reported ==> HasCycle(g, universe))
    && (!reported ==> Ranked(g, checked - check, rank, next))
  }

  lemma Enter(g: Graph, universe: set<Symbol>, stack: seq<Symbol>, check: set<Symbol>, checked: set<Symbol>,
              reported: bool, rank: map<Symbol, nat>, next: nat, s: Symbol)
    requires Sound(g, universe, stack, check, checked, reported, rank, next)
    requires s in universe - checked && (stack != [] ==> s in Succ(g, stack[|stack| - 1]))
    ensures Sound(g, universe, stack + [s], check + {s}, checked + {s}, reported, rank, next)
  {
    ElemsAppend(stack, s);
    PathAppend(g, stack, s);
    assert checked + {s} - (check + {s}) == checked - check;
  }

  lemma {:induction false} Leave(g: Graph, universe: set<Symbol>, stack: seq<Symbol>, check: set<Symbol>,
                                 checked: set<Symbol>, reported: bool, rank: map<Symbol, nat>, next: nat, s: Symbol)
    requires Sound(g, universe, stack + [s], check + {s}, checked, reported, rank, next)
    requires IsPath(g, stack) && check == Elems(stack) && s !in check
    requires !reported ==> Succ(g, s) <= checked - (check + {s})
    ensures reported ==> Sound(g, universe, stack, check, checked, reported, rank, next)
    ensures !reported ==> Sound(g, universe, stack, check, checked, reported, rank[s := next], next + 1)
  {
    if !reported {
      var done := checked - (check + {s});
      RankAppend(g, done, rank, next, s);
      assert checked - check == done + {s};
    }
  }

  class Checker {
    const g: Graph
    ghost const universe: set<Symbol>
    var check: set<Symbol>  // SYMBOL_CHECK
    var checked: set<Symbol>  // SYMBOL_CHECKED
    var reported: bool  // sym_check_print_recursive has run
    ghost var stack: seq<Symbol>
    ghost var rank: map<Symbol, nat>
    ghost var next: nat

    ghost predicate Valid()
      reads this
    {
      Sound(g, universe, stack, check, checked, reported, rank, next)
    }

    constructor (g: Graph, ghost universe: set<Symbol>)
      requires Closed(g, universe)
      ensures Valid() && !reported && check == {} && checked == {} && stack == []
      ensures this.g == g && this.universe == universe
    {
      this.g, this.universe := g, universe;
      check, checked, reported, stack, rank, next := {}, {}, false, [], map[], 0;
    }

    /** Every symbol of the set has been gone through. */
    ghost predicate Finished(symbols: set<Symbol>)
      reads this
    {
      symbols <= checked - check
    }

    /** sym_check_deps. A symbol that is returned is still under examination further up, so
        an outermost call always returns NULL, whether or not it has reported a cycle. */
    method CheckDeps(sym: Symbol) returns (r: Option<Symbol>)
      requires Valid() && sym in universe
      requires stack != [] ==> sym in Succ(g, stack[|stack| - 1])
      modifies this
      ensures Valid() && stack == old(stack) && check == old(check)
      ensures old(checked) <= checked && (old(reported) ==> reported)
      ensures r.Some? ==> reported && r.value in check
      ensures !reported ==> Finished({sym})
      decreases universe - checked, 0
    {
      if sym in check {
        BackEdge(g, stack, sym, universe);
        reported := true;
        return Some(sym);
      }
      if sym in checked {
        return None;
      }
      ghost var entered, open := stack, check;
      Enter(g, universe, stack, check, checked, reported, rank, next, sym);
      assert sym in universe - checked;
      check, checked, stack := check + {sym}, checked + {sym}, stack + [sym];
      r := CheckSymDeps(sym);
      Leave(g, universe, entered, open, checked, reported, rank, next, sym);
      check, stack := check - {sym}, entered;
      assert check == open;
      if !reported {
        rank, next := rank[sym := next], next + 1;
      }
      if r == Some(sym) {
        r := None;
      }
    }

    /** sym_check_sym_deps */
    method CheckSymDeps(sym: Symbol) returns (r: Option<Symbol>)
      requires Valid() && stack != [] && stack[|stack| - 1] == sym
      modifies this
      ensures Valid() && stack == old(stack) && check == old(check)
      ensures old(checked) <= checked && (old(reported) ==> reported)
      ensures r.Some? ==> reported && r.value in check
      ensures !reported ==> Finished(Succ(g, sym))
      decreases universe - checked, 3
    {
      r := CheckExprDeps(g(sym).revDep);
      if r.Some? {
        return;
      }
      var props := g(sym).props;
      for n := 0 to |props|
        invariant Valid() && stack == old(stack) && check == old(check)
        invariant old(checked) <= checked && (old(reported) ==> reported) && r.None?
        invariant !reported ==> Finished(OptSymbols(g(sym).revDep))
        invariant !reported ==> Finished(PropsSymbols(props[..n]))
      {
        PropAmong(props, n);
        PropNext(props, n);
        r := CheckPropDeps(props[n]);
        if r.Some? {
          return;
        }
      }
      assert props[..|props|] == props;
    }

    // One round of the loop over the properties.
    method CheckPropDeps(prop: Property) returns (r: Option<Symbol>)
      requires Valid() && stack != [] && PropSymbols(prop) <= Succ(g, stack[|stack| - 1])
      modifies this
      ensures Valid() && stack == old(stack) && check == old(check)
      ensures old(checked) <= checked && (old(reported) ==> reported)
      ensures r.Some? ==> reported && r.value in check
      ensures !reported ==> Finished(PropSymbols(prop))
      decreases universe - checked, 2
    {
      r := None;
      if prop.typ.CHOICE? || prop.typ.SELECT? {
        return;
      }
      r := CheckExprDeps(prop.visible);
      if r.Some? || !prop.typ.DEFAULT? {
        return;
      }
      r := CheckExprDeps(prop.expr);
    }

    /** sym_check_expr_deps, NULL included */
    method CheckExprDeps(e: Option<Expr>) returns (r: Option<Symbol>)
      requires Valid() && stack != [] && OptSymbols(e) <= Succ(g, stack[|stack| - 1])
      modifies this
      ensures Valid() && stack == old(stack) && check == old(check)
      ensures old(checked) <= checked && (old(reported) ==> reported)
      ensures r.Some? ==> reported && r.value in check
      ensures !reported ==> Finished(OptSymbols(e))
      decreases universe - checked, 1, e
    {
      r := None;
      if e.Some? {
        r := CheckTreeDeps(e.value);
      }
    }

    method CheckTreeDeps(e: Expr) returns (r: Option<Symbol>)
      requires Valid() && stack != [] && SymbolsOf(e) <= Succ(g, stack[|stack| - 1])
      modifies this
      ensures Valid() && stack == old(stack) && check == old(check)
      ensures old(checked) <= checked && (old(reported) ==> reported)
      ensures r.Some? ==> reported && r.value in check
      ensures !reported ==> Finished(SymbolsOf(e))
      decreases universe - checked, 1, e
    {
      ghost var top := stack[|stack| - 1];
      assert top in Elems(stack);
      assert SymbolsOf(e) <= universe;
      match e
      case Sym(s) => r := CheckDeps(s);
      case Not(x) => r := CheckTreeDeps(x);
      case Bin(_, a, b) =>
        r := CheckTreeDeps(a);
        assert stack[|stack| - 1] == top && SymbolsOf(b) <= Succ(g, top);
        if r.None? {
          r := CheckTreeDeps(b);
        }
      case Cmp(_, a, b) =>
        assert b in SymbolsOf(e);
        r := CheckDeps(a);
        assert stack[|stack| - 1] == top && b in Succ(g, top);
        if r.None? {
          r := CheckDeps(b);
        }
    }

    /** The loop of conf_parse over all symbols but y, m and n, which have no dependencies: a
        recursive dependency is reported if and only if there is one, but no call returns an
        error to be counted. */
    method CheckAll(syms: seq<Symbol>) returns (errors: nat)
      requires Valid() && stack == [] && !reported && Elems(syms) <= universe
      requires forall s :: s in universe && s !in Elems(syms) ==> Succ(g, s) == {}
      modifies this
      ensures reported <==> HasCycle(g, universe)
      ensures errors == 0
    {
      errors := 0;
      for n := 0 to |syms|
        invariant Valid() && stack == [] && errors == 0
        invariant !reported ==> forall k :: 0 <= k < n ==> syms[k] in checked
      {
        assert syms[n] in Elems(syms);
        var r := CheckDeps(syms[n]);
        errors := errors + if r.Some? then 1 else 0;
      }
      if !reported {
        forall p | |p| >= 2 && p[0] in universe ensures !IsCycle(g, p) {
          if p[0] in Elems(syms) {
            NoCycleFrom(g, checked - check, rank, next, p);
          } else if IsPath(g, p) {
            FirstEdge(g, p);
          }
        }
      }
    }
  }

  lemma {:induction false} PropAmong(ps: seq<Property>, n: nat)
    requires n < |ps|
    ensures PropSymbols(ps[n]) <= PropsSymbols(ps)
    decreases |ps|
  {
    if n < |ps| - 1 {
      PropAmong(ps[..|ps| - 1], n);
    }
  }

  lemma PropNext(ps: seq<Property>, n: nat)
    requires n < |ps|
    ensures PropsSymbols(ps[..n + 1]) == PropsSymbols(ps[..n]) + PropSymbols(ps[n])
  {
    assert ps[..n + 1][..n] == ps[..n];
  }
}
