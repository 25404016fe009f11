/** Choices of tools/kconfig_new/kconfiglib.py: which of their symbols can be y or m. */
module KconfiglibChoice {
  import opened Basics
  import opened KconfiglibModel
  import opened KconfiglibValues

  predicate IsTri(v: Val) {
    v.VT? && 0 <= v.t <= 2
  }

  /** A term that yields a tristate value if the properties it reads do. */
  predicate TriTerm(t: Term) {
    match t
    case Lit(v) => IsTri(v)
    case Get(c) => c.TriV? || c.Vis?
    case User(_) => false
    case UserSel(_) => false
    case Bin(op, a, b) =>
      (match op
       case OMin => (a.User? || TriTerm(a)) && TriTerm(b)
       case OMax => TriTerm(a) && TriTerm(b)
       case OMode => TriTerm(a) && b.User?
       case OMinus => a == TWO && TriTerm(b)
       case OThen => TriTerm(b)
       case OEq => true
       case ONe => true
       case ORel(_, _, _) => true
       case _ => false)
    case Branch(k, a, b, c) =>
      (match k
       case KIf => TriTerm(b) && TriTerm(c)
       case KWhen => TriTerm(a)
       case KPromote => TriTerm(a)
       case _ => TriTerm(a) && TriTerm(b) && TriTerm(c))
  }

  lemma {:induction false} TriTermValue(cfg: Config, rank: Cell -> nat, u: Users, t: Term)
    requires GoodSettings(cfg, u) && TriTerm(t)
    requires forall d :: d in Cells(t) && (d.TriV? || d.Vis?) ==> IsTri(Eval(cfg, rank, u, d))
    ensures IsTri(Run(cfg, rank, u, t))
  {
    match t
    case Lit(_) =>
    case Get(c) => assert c in Cells(t);
    case Bin(op, a, b) =>
      if TriTerm(a) { TriTermValue(cfg, rank, u, a); }
      if TriTerm(b) { TriTermValue(cfg, rank, u, b); }
    case Branch(k, a, b, c) =>
      if TriTerm(a) { TriTermValue(cfg, rank, u, a); }
      if TriTerm(b) { TriTermValue(cfg, rank, u, b); }
      if TriTerm(c) { TriTermValue(cfg, rank, u, c); }
  }

  lemma TriSteps()
    ensures forall k, a, b, c :: TriTerm(Branch(k, a, b, c)) ==
              (match k
               case KIf => TriTerm(b) && TriTerm(c)
               case KWhen => TriTerm(a)
               case KPromote => TriTerm(a)
               case _ => TriTerm(a) && TriTerm(b) && TriTerm(c))
    ensures forall a, b :: TriTerm(Bin(OMax, a, b)) == (TriTerm(a) && TriTerm(b))
    ensures forall a, b :: TriTerm(Bin(OMin, a, b)) == ((a.User? || TriTerm(a)) && TriTerm(b))
    ensures forall a, b :: TriTerm(Bin(OThen, a, b)) == TriTerm(b)
  {
  }

  lemma ModeIsTri(cfg: Config, ch: nat)
    ensures TriTerm(Mode(cfg, ch))
  {
    var low := if cfg.choice(ch).optional then ZERO else ONE;
    assert TriTerm(Bin(OMode, low, User(C(ch))));
    TriSteps();
  }

  lemma {:induction false} ValueIsTri(cfg: Config, e: Expr)
    ensures TriTerm(Value(cfg, e))
  {
    match e
    case AND(l, r) => ValueIsTri(cfg, l); ValueIsTri(cfg, r);
    case OR(l, r) => ValueIsTri(cfg, l); ValueIsTri(cfg, r);
    case NOT(x) => ValueIsTri(cfg, x);
    case Leaf(C(ch)) => ModeIsTri(cfg, ch);
    case Leaf(S(_)) =>
    case REL(_, _, _) =>
  }

  lemma {:induction false} ListsAreTri(cfg: Config, es: seq<Expr>, ds: seq<(Expr, Expr)>)
    ensures TriTerm(PromptMax(cfg, es)) && TriTerm(TriDefault(cfg, ds))
    decreases |es| + |ds|
  {
    if es != [] {
      ValueIsTri(cfg, es[0]);
      ListsAreTri(cfg, es[1..], []);
    }
    if ds != [] {
      ValueIsTri(cfg, ds[0].0);
      ValueIsTri(cfg, ds[0].1);
      ListsAreTri(cfg, [], ds[1..]);
    }
  }

  lemma BodyIsTri(cfg: Config, c: Cell)
    requires c.TriV? || c.Vis?
    requires c.TriV? && cfg.sym(c.sym).constant.Some? ==> cfg.sym(c.sym).constant.value <= 2
    ensures TriTerm(Body(cfg, c))
  {
    match c
    case TriV(s) => SymTriIsTri(cfg, s);
    case Vis(i) => VisIsTri(cfg, i);
  }

  lemma SymTriIsTri(cfg: Config, s: nat)
    requires cfg.sym(s).constant.Some? ==> cfg.sym(s).constant.value <= 2
    ensures TriTerm(SymTri(cfg, s))
  {
    var d := cfg.sym(s);
    TriSteps();
    ListsAreTri(cfg, [], d.defaults);
    ValueIsTri(cfg, d.revDep);
    ValueIsTri(cfg, d.weakRevDep);
  }

  lemma VisIsTri(cfg: Config, i: Item)
    ensures TriTerm(Body(cfg, Vis(i)))
  {
    TriSteps();
    ListsAreTri(cfg, if i.S? then cfg.sym(i.id).prompts else cfg.choice(i.id).prompts, []);
  }

  /** Constants are n, m or y; choices and their symbols have a tristate or boolean type; and
      the prompts of choice symbols were conjoined with the choice during parsing, which folds
      a conjunction with n to n. */
  ghost predicate GoodChoices(cfg: Config) {
    && (forall s :: cfg.sym(s).constant.Some? ==> cfg.sym(s).constant.value <= 2)
    && (forall ch :: ch in cfg.choices ==> cfg.choice(ch).origType.BOOL? || cfg.choice(ch).origType.TRISTATE?)
    && (forall s :: cfg.sym(s).choice.Some? ==>
          && (cfg.sym(s).origType.BOOL? || cfg.sym(s).origType.TRISTATE?)
          && cfg.sym(s).constant.None?
          && forall e :: e in cfg.sym(s).prompts ==> Limited(cfg, e, cfg.sym(s).choice.value))
  }

  /** e is a conjunction that has choice ch as an operand. */
  predicate Conjoined(e: Expr, ch: nat) {
    e == Leaf(C(ch)) || (e.AND? && (Conjoined(e.l, ch) || Conjoined(e.r, ch)))
  }

  /** The constant n. */
  predicate ConstantNo(cfg: Config, e: Expr) {
    e.Leaf? && e.item.S? && cfg.sym(e.item.id).constant == Some(0)
  }

  predicate Limited(cfg: Config, e: Expr, ch: nat) {
    Conjoined(e, ch) || ConstantNo(cfg, e)
  }

  /** All visibilities and tristate values, as recomputed, are 0, 1 or 2. */
  lemma {:induction false} ValuesAreTri(cfg: Config, rank: Cell -> nat, u: Users, c: Cell)
    requires Acyclic(cfg, rank) && GoodSettings(cfg, u) && GoodChoices(cfg)
    requires c.TriV? || c.Vis?
    ensures IsTri(Eval(cfg, rank, u, c))
    decreases rank(c)
  {
    BodyIsTri(cfg, c);
    forall d | d in Cells(Body(cfg, c)) && (d.TriV? || d.Vis?) ensures IsTri(Eval(cfg, rank, u, d)) {
      ValuesAreTri(cfg, rank, u, d);
    }
    TriTermValue(cfg, rank, u, Body(cfg, c));
    EvalIsRun(cfg, rank, u, c);
  }

  lemma {:induction false} TermIsTri(cfg: Config, rank: Cell -> nat, u: Users, t: Term)
    requires Acyclic(cfg, rank) && GoodSettings(cfg, u) && GoodChoices(cfg) && TriTerm(t)
    ensures IsTri(Run(cfg, rank, u, t))
  {
    forall d | d in Cells(t) && (d.TriV? || d.Vis?) ensures IsTri(Eval(cfg, rank, u, d)) {
      ValuesAreTri(cfg, rank, u, d);
    }
    TriTermValue(cfg, rank, u, t);
  }

  // ----- visibility of choice symbols -----

  ghost function ModeOf(cfg: Config, rank: Cell -> nat, u: Users, ch: nat): int {
    T(Run(cfg, rank, u, Mode(cfg, ch)))
  }

  lemma {:induction false} ConjoinedBelow(cfg: Config, rank: Cell -> nat, u: Users, e: Expr, ch: nat)
    requires Acyclic(cfg, rank) && GoodSettings(cfg, u) && GoodChoices(cfg) && Conjoined(e, ch)
    ensures T(Run(cfg, rank, u, Value(cfg, e))) <= ModeOf(cfg, rank, u, ch)
  {
    if e.AND? {
      ValueIsTri(cfg, e.l);
      ValueIsTri(cfg, e.r);
      ModeIsTri(cfg, ch);
      TermIsTri(cfg, rank, u, Value(cfg, e.l));
      TermIsTri(cfg, rank, u, Value(cfg, e.r));
      TermIsTri(cfg, rank, u, Mode(cfg, ch));
      if Conjoined(e.l, ch) { ConjoinedBelow(cfg, rank, u, e.l, ch); } else { ConjoinedBelow(cfg, rank, u, e.r, ch); }
    }
  }

  lemma {:induction false} LimitedBelow(cfg: Config, rank: Cell -> nat, u: Users, e: Expr, ch: nat)
    requires Acyclic(cfg, rank) && GoodSettings(cfg, u) && GoodChoices(cfg) && Limited(cfg, e, ch)
    ensures T(Run(cfg, rank, u, Value(cfg, e))) <= ModeOf(cfg, rank, u, ch)
  {
    if Conjoined(e, ch) {
      ConjoinedBelow(cfg, rank, u, e, ch);
    } else {
      EvalIsRun(cfg, rank, u, TriV(e.item.id));
      ModeIsTri(cfg, ch);
      TermIsTri(cfg, rank, u, Mode(cfg, ch));
    }
  }

  lemma {:induction false} PromptsBelow(cfg: Config, rank: Cell -> nat, u: Users, es: seq<Expr>, ch: nat)
    requires Acyclic(cfg, rank) && GoodSettings(cfg, u) && GoodChoices(cfg)
    requires forall e :: e in es ==> Limited(cfg, e, ch)
    ensures IsTri(Run(cfg, rank, u, PromptMax(cfg, es)))
    ensures T(Run(cfg, rank, u, PromptMax(cfg, es))) <= ModeOf(cfg, rank, u, ch)
  {
    ModeIsTri(cfg, ch);
    TermIsTri(cfg, rank, u, Mode(cfg, ch));
    ListsAreTri(cfg, es, []);
    TermIsTri(cfg, rank, u, PromptMax(cfg, es));
    if es != [] {
      LimitedBelow(cfg, rank, u, es[0], ch);
      PromptsBelow(cfg, rank, u, es[1..], ch);
    }
  }

  /** _get_visibility of a choice symbol as a formula over the value of its prompts, the mode
      of the choice, and whether modules are on. */
  lemma {:induction false} ChoiceSymVisibility(cfg: Config, rank: Cell -> nat, u: Users, s: nat, ch: nat)
    requires Acyclic(cfg, rank) && GoodSettings(cfg, u) && GoodChoices(cfg)
    requires cfg.sym(s).choice == Some(ch)
    ensures var p := T(Run(cfg, rank, u, PromptMax(cfg, cfg.sym(s).prompts)));
            var mode := ModeOf(cfg, rank, u, ch);
            var modules := T(Eval(cfg, rank, u, TriV(cfg.modules)));
            Eval(cfg, rank, u, Vis(S(s))) == VT(
              if cfg.sym(s).origType.TRISTATE? then
                if p == 1 && mode == 2 then 0 else if p == 1 && modules == 0 then 2 else p
              else if cfg.choice(ch).origType.TRISTATE? && mode != 2 then 0
              else if p == 1 then 2 else p)
  {
    var d := cfg.sym(s);
    var vis, mode := PromptMax(cfg, d.prompts), Mode(cfg, ch);
    PromptsBelow(cfg, rank, u, d.prompts, ch);
    ModeIsTri(cfg, ch);
    TermIsTri(cfg, rank, u, mode);
    EvalIsRun(cfg, rank, u, Vis(S(s)));
    var promoted := Branch(KPromote, vis, if d.origType.TRISTATE? then IsBool(cfg, s) else ONE, ZERO);
    if d.origType.TRISTATE? {
      ChoiceSymIsBool(cfg, rank, u, s, ch);
      assert Run(cfg, rank, u, Is(vis, 1)) == Flag(T(Run(cfg, rank, u, vis)) == 1);
      assert Run(cfg, rank, u, Is(mode, 2)) == Flag(ModeOf(cfg, rank, u, ch) == 2);
      var clash := Both(Is(vis, 1), Is(mode, 2));
      RunIf(cfg, rank, u, Is(vis, 1), Is(mode, 2), ZERO);
      RunIf(cfg, rank, u, clash, ZERO, promoted);
      assert Body(cfg, Vis(S(s))) == If(clash, ZERO, promoted);
    } else {
      assert Run(cfg, rank, u, IsNot(mode, 2)) == Flag(ModeOf(cfg, rank, u, ch) != 2);
      assert Run(cfg, rank, u, promoted)
        == (if T(Run(cfg, rank, u, vis)) == 1 then VT(2) else Run(cfg, rank, u, vis));
      RunIf(cfg, rank, u, IsNot(mode, 2), ZERO, promoted);
    }
  }

  lemma {:induction false} ChoiceSymIsBool(cfg: Config, rank: Cell -> nat, u: Users, s: nat, ch: nat)
    requires Acyclic(cfg, rank) && GoodSettings(cfg, u) && GoodChoices(cfg)
    requires cfg.sym(s).choice == Some(ch) && cfg.sym(s).origType.TRISTATE?
    ensures Truthy(Run(cfg, rank, u, IsBool(cfg, s)))
            <==> ModeOf(cfg, rank, u, ch) == 2 || T(Eval(cfg, rank, u, TriV(cfg.modules))) == 0
  {
    var mode, noModules := Mode(cfg, ch), Is(Modules(cfg), 0);
    ModeIsTri(cfg, ch);
    TermIsTri(cfg, rank, u, mode);
    ValuesAreTri(cfg, rank, u, TriV(cfg.modules));
    assert Run(cfg, rank, u, noModules) == Flag(T(Eval(cfg, rank, u, TriV(cfg.modules))) == 0);
    assert Run(cfg, rank, u, Is(mode, 2)) == Flag(ModeOf(cfg, rank, u, ch) == 2);
    RunIf(cfg, rank, u, Is(mode, 2), ONE, noModules);
    assert IsBool(cfg, s) == Either(Is(mode, 2), noModules);
  }

  /** Choice.tri_value is m only for a tristate choice with modules on. */
  lemma ModeM(cfg: Config, rank: Cell -> nat, u: Users, ch: nat)
    requires Acyclic(cfg, rank) && GoodSettings(cfg, u) && GoodChoices(cfg) && ch in cfg.choices
    requires ModeOf(cfg, rank, u, ch) == 1
    ensures cfg.choice(ch).origType.TRISTATE? && T(Eval(cfg, rank, u, TriV(cfg.modules))) != 0
  {
    ValuesAreTri(cfg, rank, u, TriV(cfg.modules));
    var low := if cfg.choice(ch).optional then ZERO else ONE;
    var limited := Bin(OMin, Bin(OMode, low, User(C(ch))), Get(Vis(C(ch))));
    assert Mode(cfg, ch) == Branch(KPromote, limited, ChoiceIsBool(cfg, ch), ZERO);
    assert Run(cfg, rank, u, Is(Modules(cfg), 0)) == Flag(T(Eval(cfg, rank, u, TriV(cfg.modules))) == 0);
    assert T(Run(cfg, rank, u, limited)) == 1 && !Truthy(Run(cfg, rank, u, ChoiceIsBool(cfg, ch)));
  }

  /** The mode of a choice limits the visibility of its symbols, and in y mode a symbol is
      either fully visible or not at all. */
  lemma VisibilityByMode(cfg: Config, rank: Cell -> nat, u: Users, s: nat, ch: nat)
    requires Acyclic(cfg, rank) && GoodSettings(cfg, u) && GoodChoices(cfg)
    requires ch in cfg.choices && cfg.sym(s).choice == Some(ch)
    ensures IsTri(Eval(cfg, rank, u, Vis(S(s))))
    ensures T(Eval(cfg, rank, u, Vis(S(s)))) <= ModeOf(cfg, rank, u, ch)
    ensures ModeOf(cfg, rank, u, ch) == 2 ==> T(Eval(cfg, rank, u, Vis(S(s)))) != 1
  {
    ChoiceSymVisibility(cfg, rank, u, s, ch);
    PromptsBelow(cfg, rank, u, cfg.sym(s).prompts, ch);
    ModeIsTri(cfg, ch);
    TermIsTri(cfg, rank, u, Mode(cfg, ch));
    if ModeOf(cfg, rank, u, ch) == 1 { ModeM(cfg, rank, u, ch); }
  }

  /** tri_value of a choice symbol. */
  lemma ChoiceSymValue(cfg: Config, rank: Cell -> nat, u: Users, s: nat, ch: nat)
    requires Acyclic(cfg, rank) && GoodSettings(cfg, u) && GoodChoices(cfg) && cfg.sym(s).choice == Some(ch)
    ensures var vis := T(Eval(cfg, rank, u, Vis(S(s))));
            Eval(cfg, rank, u, TriV(s)) == VT(
              if vis == 2 then (if Eval(cfg, rank, u, Selection(ch)) == VSym(s) then 2 else 0)
              else if vis != 0 && Truthy(UserValue(u, S(s))) then 1 else 0)
  {
    var vis := Get(Vis(S(s)));
    ValuesAreTri(cfg, rank, u, Vis(S(s)));
    EvalIsRun(cfg, rank, u, TriV(s));
    assert Run(cfg, rank, u, Is(vis, 2)) == Flag(T(Eval(cfg, rank, u, Vis(S(s)))) == 2);
    var selected := Bin(OEq, Get(Selection(ch)), Lit(VSym(s)));
    assert Run(cfg, rank, u, selected) == Flag(Eval(cfg, rank, u, Selection(ch)) == VSym(s));
    assert Truthy(Run(cfg, rank, u, Both(vis, User(S(s)))))
      == (T(Eval(cfg, rank, u, Vis(S(s)))) != 0 && Truthy(UserValue(u, S(s))));
    assert Run(cfg, rank, u, If(selected, TWO, ZERO))
      == VT(if Eval(cfg, rank, u, Selection(ch)) == VSym(s) then 2 else 0);
    assert Run(cfg, rank, u, If(Both(vis, User(S(s))), ONE, ZERO))
      == VT(if Truthy(Run(cfg, rank, u, Both(vis, User(S(s))))) then 1 else 0);
  }

  // ----- the selection -----

  /** v is a visible symbol out of syms, or None if no symbol out of syms is visible. */
  ghost predicate Picks(cfg: Config, rank: Cell -> nat, u: Users, v: Val, all: seq<nat>, rest: seq<nat>) {
    if v.VSym? then v.sym in all && T(Eval(cfg, rank, u, Vis(S(v.sym)))) != 0
    else v == VNone && forall s :: s in rest ==> T(Eval(cfg, rank, u, Vis(S(s)))) == 0
  }

  lemma {:induction false} VisiblePick(cfg: Config, rank: Cell -> nat, u: Users, all: seq<nat>, rest: seq<nat>)
    requires Acyclic(cfg, rank) && GoodSettings(cfg, u) && GoodChoices(cfg)
    requires forall s :: s in rest ==> s in all
    ensures Picks(cfg, rank, u, Run(cfg, rank, u, SelectVisible(rest)), all, rest)
  {
    if rest != [] {
      var s := rest[0];
      ValuesAreTri(cfg, rank, u, Vis(S(s)));
      VisiblePick(cfg, rank, u, all, rest[1..]);
      assert Run(cfg, rank, u, Get(Vis(S(s)))) == Eval(cfg, rank, u, Vis(S(s)));
      assert rest == [rest[0]] + rest[1..];
    }
  }

  lemma {:induction false} DefaultPick(cfg: Config, rank: Cell -> nat, u: Users, all: seq<nat>, ds: seq<(nat, Expr)>)
    requires Acyclic(cfg, rank) && GoodSettings(cfg, u) && GoodChoices(cfg)
    requires forall d :: d in ds ==> d.0 in all
    ensures Picks(cfg, rank, u, Run(cfg, rank, u, SelectByDefault(cfg, ds, SelectVisible(all))), all, all)
  {
    if ds == [] {
      VisiblePick(cfg, rank, u, all, all);
    } else {
      var s := ds[0].0;
      ValuesAreTri(cfg, rank, u, Vis(S(s)));
      DefaultPick(cfg, rank, u, all, ds[1..]);
      var guard := Both(Value(cfg, ds[0].1), Get(Vis(S(s))));
      assert Run(cfg, rank, u, Get(Vis(S(s)))) == Eval(cfg, rank, u, Vis(S(s)));
      assert Run(cfg, rank, u, guard)
        == if Truthy(Run(cfg, rank, u, Value(cfg, ds[0].1))) then Eval(cfg, rank, u, Vis(S(s))) else VT(0);
    }
  }

  lemma {:induction false} UserPick(cfg: Config, rank: Cell -> nat, u: Users, ch: nat, all: seq<nat>, rest: seq<nat>,
                                    otherwise: Term)
    requires forall s :: s in rest ==> s in all
    requires Picks(cfg, rank, u, Run(cfg, rank, u, otherwise), all, all)
    ensures Picks(cfg, rank, u, Run(cfg, rank, u, SelectByUser(ch, rest, otherwise)), all, all)
  {
    if rest != [] {
      var s := rest[0];
      UserPick(cfg, rank, u, ch, all, rest[1..], otherwise);
      var full := Is(Get(Vis(S(s))), 2);
      assert Run(cfg, rank, u, full) == Flag(Eval(cfg, rank, u, Vis(S(s))) == VT(2));
      RunIf(cfg, rank, u, full, Lit(VSym(s)), otherwise);
      var chosen := If(full, Lit(VSym(s)), otherwise);
      assert Picks(cfg, rank, u, Run(cfg, rank, u, chosen), all, all);
      RunIf(cfg, rank, u, Bin(OEq, UserSel(ch), Lit(VSym(s))), chosen, SelectByUser(ch, rest[1..], otherwise));
    }
  }

  /** _get_selection in y mode yields a visible symbol of the choice if there is one. */
  lemma SelectionPicks(cfg: Config, rank: Cell -> nat, u: Users, ch: nat)
    requires Linked(cfg) && Acyclic(cfg, rank) && GoodSettings(cfg, u) && GoodChoices(cfg)
    requires ch in cfg.choices && ModeOf(cfg, rank, u, ch) == 2
    ensures Picks(cfg, rank, u, Eval(cfg, rank, u, Selection(ch)), cfg.choice(ch).syms, cfg.choice(ch).syms)
  {
    var d := cfg.choice(ch);
    var byDefault := SelectByDefault(cfg, d.defaults, SelectVisible(d.syms));
    DefaultPick(cfg, rank, u, d.syms, d.defaults);
    UserPick(cfg, rank, u, ch, d.syms, d.syms, byDefault);
    ModeIsTri(cfg, ch);
    TermIsTri(cfg, rank, u, Mode(cfg, ch));
    EvalIsRun(cfg, rank, u, Selection(ch));
    assert Run(cfg, rank, u, IsNot(Mode(cfg, ch), 2)) == VT(0);
  }

  ghost function TriOf(cfg: Config, rank: Cell -> nat, u: Users, s: nat): int {
    T(Eval(cfg, rank, u, TriV(s)))
  }

  /** In y mode one symbol is y and all others are n as soon as any is visible; in m mode
      every symbol is n or m; in n mode all are n. */
  lemma ChoiceExclusive(cfg: Config, rank: Cell -> nat, u: Users, ch: nat)
    requires Linked(cfg) && Acyclic(cfg, rank) && GoodSettings(cfg, u) && GoodChoices(cfg)
    requires ch in cfg.choices
    ensures var syms, mode := cfg.choice(ch).syms, ModeOf(cfg, rank, u, ch);
            && 0 <= mode <= 2
            && (mode == 2 && (exists s :: s in syms && T(Eval(cfg, rank, u, Vis(S(s)))) != 0) ==>
                  exists x :: x in syms && TriOf(cfg, rank, u, x) == 2
                              && forall s :: s in syms && s != x ==> TriOf(cfg, rank, u, s) == 0)
            && (mode == 2 && (forall s :: s in syms ==> T(Eval(cfg, rank, u, Vis(S(s)))) == 0) ==>
                  forall s :: s in syms ==> TriOf(cfg, rank, u, s) == 0)
            && (mode == 1 ==> forall s :: s in syms ==> 0 <= TriOf(cfg, rank, u, s) <= 1)
            && (mode == 0 ==> forall s :: s in syms ==> TriOf(cfg, rank, u, s) == 0)
  {
    var syms, mode := cfg.choice(ch).syms, ModeOf(cfg, rank, u, ch);
    ModeIsTri(cfg, ch);
    TermIsTri(cfg, rank, u, Mode(cfg, ch));
    forall s | s in syms
      ensures 0 <= T(Eval(cfg, rank, u, Vis(S(s)))) <= mode
      ensures mode == 2 ==> T(Eval(cfg, rank, u, Vis(S(s)))) != 1
      ensures TriOf(cfg, rank, u, s)
              == if T(Eval(cfg, rank, u, Vis(S(s)))) == 2 then
                   (if Eval(cfg, rank, u, Selection(ch)) == VSym(s) then 2 else 0)
                 else if T(Eval(cfg, rank, u, Vis(S(s)))) != 0 && Truthy(UserValue(u, S(s))) then 1 else 0
    {
      VisibilityByMode(cfg, rank, u, s, ch);
      ChoiceSymValue(cfg, rank, u, s, ch);
    }
    if mode == 2 {
      SelectionPicks(cfg, rank, u, ch);
      var sel := Eval(cfg, rank, u, Selection(ch));
      if sel.VSym? {
        assert TriOf(cfg, rank, u, sel.sym) == 2;
      }
    }
  }
}
