/** A small configuration in which two comments of tools/kconfig_new/kconfiglib.py do not hold:

      config MODULES            config A                  config S1
          bool                      bool                      tristate
          default y                 default n && B            default m
          option modules        config B                      select X
      config X                      bool                  config I1
          tristate "X" if m                                   tristate
                                                              default y
                                                              imply X */
module KconfiglibExamples {
  import opened Basics
  import opened KconfiglibModel
  import opened KconfiglibValues
  import opened KconfiglibCache
  import opened KconfiglibChoice
  import opened KconfiglibAssignable

  const MODULES := 0
  const X := 1
  const A := 2
  const B := 3
  const SELECTS := 4
  const IMPLIES := 5
  const YES := Leaf(S(6))
  const NO := Leaf(S(7))
  const MOD := Leaf(S(8))

  function Free(name: string, typ: Type, prompts: seq<Expr>, defaults: seq<(Expr, Expr)>, rev: Expr,
                weak: Expr): SymDef {
    SymDef(name, typ, None, prompts, defaults, [], rev, weak, YES, None, false)
  }

  function Fixed(name: string, typ: Type, value: Option<nat>): SymDef {
    SymDef(name, typ, value, [], [], [], NO, NO, NO, None, false)
  }

  function SmallSym(s: nat): SymDef {
    if s == MODULES then Free("MODULES", BOOL, [], [(YES, YES)], NO, NO)
    else if s == X then Free("X", TRISTATE, [AND(MOD, Leaf(S(MODULES)))], [], Leaf(S(SELECTS)), Leaf(S(IMPLIES)))
    else if s == A then Free("A", BOOL, [], [(AND(NO, Leaf(S(B))), YES)], NO, NO)
    else if s == B then Free("B", BOOL, [], [], NO, NO)
    else if s == SELECTS then Free("S1", TRISTATE, [], [(MOD, YES)], NO, NO)
    else if s == IMPLIES then Free("I1", TRISTATE, [], [(YES, YES)], NO, NO)
    else if s == 6 then Fixed("y", TRISTATE, Some(2))
    else if s == 7 then Fixed("n", TRISTATE, Some(0))
    else if s == 8 then Fixed("m", TRISTATE, Some(1))
    else Fixed("undefined", UNKNOWN, None)
  }

  function Small(): Config {
    Config(SmallSym, ch => ChoiceDef(UNKNOWN, false, [], [], []), [0, 1, 2, 3, 4, 5], [], MODULES,
           (s, b) => false, (s, b) => 0, n => "", n => "")
  }

  function SmallRank(c: Cell): nat {
    match c
    case Vis(i) => if i == S(MODULES) then 0 else 2
    case TriV(s) => if s >= 6 then 0 else if s == MODULES then 1 else if s == X || s == A then 4 else 3
    case Selection(_) => 3
    case StrV(_) => 5
    case Assignable(_) => 6
  }

  lemma SmallSymbols()
    ensures forall s: nat :: s in Small().definedSyms <==> s < 6
    ensures forall ch: nat :: ch !in Small().choices
  {
  }

  lemma SmallShapes()
    ensures forall s :: SmallSym(s).choice.None? && (SmallSym(s).constant.Some? ==> SmallSym(s).constant.value <= 2)
    ensures forall s :: s < 6 ==> SmallSym(s).constant.None?
    ensures forall s :: s >= 6 ==>
              SmallSym(s).prompts == [] && (SmallSym(s).constant.Some? || SmallSym(s).origType.UNKNOWN?)
  {
  }

  lemma SmallFinalized()
    ensures Finalized(Small()) && GoodChoices(Small())
  {
    SmallSymbols();
    SmallShapes();
  }

  // ----- the rank orders the properties -----

  lemma {:induction false} SmallParts(s: nat, n: nat)
    requires n >= 2
    ensures Below(SmallRank, IsBool(Small(), s), n) && Below(SmallRank, PromptMax(Small(), SmallSym(s).prompts), n)
    ensures Below(SmallRank, Value(Small(), YES), n) && Below(SmallRank, Value(Small(), NO), n)
  {
    BelowSteps(SmallRank, n);
    assert [AND(MOD, Leaf(S(MODULES)))][1..] == [];
  }

  lemma SmallVis(i: Item)
    ensures Below(SmallRank, Body(Small(), Vis(i)), SmallRank(Vis(i)))
  {
    BelowSteps(SmallRank, SmallRank(Vis(i)));
    if i.S? && i != S(MODULES) { SmallParts(i.id, 2); }
  }

  lemma {:induction false} SmallDefaults(s: nat, n: nat)
    requires n >= SmallRank(TriV(s)) && n >= 1
    ensures Below(SmallRank, TriDefault(Small(), SmallSym(s).defaults), n)
  {
    BelowSteps(SmallRank, n);
    if |SmallSym(s).defaults| == 1 {
      assert SmallSym(s).defaults[1..] == [];
      assert TriDefault(Small(), []) == ZERO;
    }
  }

  lemma {:induction false} TriBelow(cfg: Config, rank: Cell -> nat, s: nat, n: nat)
    requires cfg.sym(s).choice.None? && rank(Vis(S(s))) < n
    requires Below(rank, TriDefault(cfg, cfg.sym(s).defaults), n) && Below(rank, IsBool(cfg, s), n)
    requires Below(rank, Value(cfg, cfg.sym(s).revDep), n) && Below(rank, Value(cfg, cfg.sym(s).weakRevDep), n)
    requires Below(rank, Value(cfg, cfg.sym(s).directDep), n)
    ensures Below(rank, Body(cfg, TriV(s)), n)
  {
    BelowSteps(rank, n);
    assert Below(rank, Unset(cfg, s), n);
    assert Below(rank, NoM(cfg, s), n);
  }

  lemma SmallTri(s: nat)
    ensures Below(SmallRank, Body(Small(), TriV(s)), SmallRank(TriV(s)))
  {
    if s < 6 {
      var n := SmallRank(TriV(s));
      SmallDefaults(s, n);
      if s != MODULES { SmallParts(s, n); }
      TriBelow(Small(), SmallRank, s, n);
    }
  }

  lemma {:induction false} AssignableBelow(cfg: Config, rank: Cell -> nat, s: nat, n: nat)
    requires cfg.sym(s).choice.None? && rank(Vis(S(s))) < n && Below(rank, IsBool(cfg, s), n)
    requires Below(rank, Value(cfg, cfg.sym(s).revDep), n) && Below(rank, Value(cfg, cfg.sym(s).weakRevDep), n)
    ensures Below(rank, Body(cfg, Assignable(S(s))), n)
  {
    BelowSteps(rank, n);
    assert Below(rank, NoM(cfg, s), n);
    assert Below(rank, AssignableAtY(cfg, s), n) && Below(rank, AssignableAtM(cfg, s), n);
  }

  lemma SmallAssignable(s: nat)
    ensures Below(SmallRank, Body(Small(), Assignable(S(s))), 6)
  {
    SmallParts(s, 6);
    AssignableBelow(Small(), SmallRank, s, 6);
  }

  lemma SmallChoice(ch: nat)
    ensures Below(SmallRank, Body(Small(), Selection(ch)), 3)
    ensures Below(SmallRank, Body(Small(), Assignable(C(ch))), 6)
  {
    BelowSteps(SmallRank, 3);
    BelowSteps(SmallRank, 6);
    assert SelectVisible([]) == Lit(VNone);
  }

  lemma SmallStr(s: nat)
    ensures Below(SmallRank, Body(Small(), StrV(s)), 5)
  {
    BelowSteps(SmallRank, 5);
  }

  lemma SmallAcyclic()
    ensures Acyclic(Small(), SmallRank)
  {
    forall c, d | d in Cells(Body(Small(), c)) ensures SmallRank(d) < SmallRank(c) {
      match c {
        case Vis(i) => SmallVis(i);
        case TriV(s) => SmallTri(s);
        case StrV(s) => SmallStr(s);
        case Selection(ch) => SmallChoice(ch);
        case Assignable(i) => if i.S? { SmallAssignable(i.id); } else { SmallChoice(i.id); }
      }
      BelowCells(SmallRank, Body(Small(), c), SmallRank(c));
    }
  }

  // ----- a value beside an item whose visibility is not cached -----

  lemma NeedsSteps(cfg: Config, rank: Cell -> nat, u: Users)
    requires Acyclic(cfg, rank)
    ensures forall op, a, b ::
              Needs(cfg, rank, u, Bin(op, a, b)) == Needs(cfg, rank, u, a) + Needs(cfg, rank, u, b)
    ensures forall k, a, b, c ::
              Needs(cfg, rank, u, Branch(k, a, b, c))
              == Needs(cfg, rank, u, a)
                 + (if Takes(k, Run(cfg, rank, u, a)) then Needs(cfg, rank, u, b) else Needs(cfg, rank, u, c))
  {
  }

  lemma {:induction false} ConstantValue(cfg: Config, rank: Cell -> nat, u: Users, s: nat)
    requires Acyclic(cfg, rank) && cfg.sym(s).constant.Some?
    ensures Eval(cfg, rank, u, TriV(s)) == VT(cfg.sym(s).constant.value)
    ensures Closure(cfg, rank, u, TriV(s)) == {TriV(s)}
  {
    EvalIsRun(cfg, rank, u, TriV(s));
    ClosureNeeds(cfg, rank, u, TriV(s));
  }

  // Without a prompt nothing of the user's is looked at.
  lemma {:induction false} PromptlessOwnValue(cfg: Config, rank: Cell -> nat, u: Users, s: nat, own: Term)
    requires Acyclic(cfg, rank) && cfg.sym(s).prompts == []
    requires own == If(Both(Get(Vis(S(s))), Bin(ONe, User(S(s)), Lit(VNone))),
                       Bin(OMin, User(S(s)), Get(Vis(S(s)))), Unset(cfg, s))
    ensures Run(cfg, rank, u, own) == Run(cfg, rank, u, Unset(cfg, s))
    ensures Needs(cfg, rank, u, own) == Closure(cfg, rank, u, Vis(S(s))) + Needs(cfg, rank, u, Unset(cfg, s))
  {
    PromptlessInvisible(cfg, rank, u, s);
    var vis := Get(Vis(S(s)));
    var guard := Both(vis, Bin(ONe, User(S(s)), Lit(VNone)));
    assert Run(cfg, rank, u, vis) == VT(0);
    assert Needs(cfg, rank, u, vis) == Closure(cfg, rank, u, Vis(S(s)));
    assert Run(cfg, rank, u, guard) == VT(0);
    assert Needs(cfg, rank, u, guard) == Closure(cfg, rank, u, Vis(S(s)));
  }

  // A promptless symbol: its value comes from defaults and implies, and from selects.
  lemma {:induction false} PromptlessValue(cfg: Config, rank: Cell -> nat, u: Users, s: nat)
    requires Acyclic(cfg, rank) && cfg.sym(s).prompts == [] && Ordinary(cfg, s)
    ensures var own := Max(T(Run(cfg, rank, u, Unset(cfg, s))), T(Run(cfg, rank, u, Value(cfg, cfg.sym(s).revDep))));
            own != 1 || !Truthy(Run(cfg, rank, u, NoM(cfg, s))) ==> Eval(cfg, rank, u, TriV(s)) == VT(own)
  {
    var vis, user, rev := Get(Vis(S(s))), User(S(s)), Value(cfg, cfg.sym(s).revDep);
    EvalIsRun(cfg, rank, u, TriV(s));
    var own := If(Both(vis, Bin(ONe, user, Lit(VNone))), Bin(OMin, user, vis), Unset(cfg, s));
    PromptlessOwnValue(cfg, rank, u, s, own);
    assert Body(cfg, TriV(s)) == Branch(KPromote, Bin(OMax, own, rev), NoM(cfg, s), ZERO);
  }

  lemma {:induction false} PromptlessClosure(cfg: Config, rank: Cell -> nat, u: Users, s: nat)
    requires Acyclic(cfg, rank) && cfg.sym(s).prompts == [] && Ordinary(cfg, s) && cfg.sym(s).origType.BOOL?
    requires Max(T(Run(cfg, rank, u, Unset(cfg, s))), T(Run(cfg, rank, u, Value(cfg, cfg.sym(s).revDep)))) != 1
    ensures Closure(cfg, rank, u, TriV(s))
            == {TriV(s), Vis(S(s))} + Needs(cfg, rank, u, Unset(cfg, s))
               + Needs(cfg, rank, u, Value(cfg, cfg.sym(s).revDep))
  {
    var vis, user, rev := Get(Vis(S(s))), User(S(s)), Value(cfg, cfg.sym(s).revDep);
    var own := If(Both(vis, Bin(ONe, user, Lit(VNone))), Bin(OMin, user, vis), Unset(cfg, s));
    PromptlessOwnValue(cfg, rank, u, s, own);
    PromoteNeeds(cfg, rank, u, own, rev, NoM(cfg, s));
    PromptlessVis(cfg, rank, u, s);
    ClosureNeeds(cfg, rank, u, TriV(s));
    assert Body(cfg, TriV(s)) == Branch(KPromote, Bin(OMax, own, rev), NoM(cfg, s), ZERO);
  }

  lemma {:induction false} PromoteNeeds(cfg: Config, rank: Cell -> nat, u: Users, a: Term, b: Term, c: Term)
    requires Acyclic(cfg, rank)
    requires Max(T(Run(cfg, rank, u, a)), T(Run(cfg, rank, u, b))) != 1
    ensures Needs(cfg, rank, u, Branch(KPromote, Bin(OMax, a, b), c, ZERO))
            == Needs(cfg, rank, u, a) + Needs(cfg, rank, u, b)
  {
    assert Needs(cfg, rank, u, Bin(OMax, a, b)) == Needs(cfg, rank, u, a) + Needs(cfg, rank, u, b);
  }

  lemma {:induction false} PromptlessVis(cfg: Config, rank: Cell -> nat, u: Users, s: nat)
    requires Acyclic(cfg, rank) && cfg.sym(s).prompts == [] && Ordinary(cfg, s)
    ensures Closure(cfg, rank, u, Vis(S(s))) == {Vis(S(s))}
  {
    var promote := if cfg.sym(s).origType.TRISTATE? then IsBool(cfg, s) else ONE;
    ClosureNeeds(cfg, rank, u, Vis(S(s)));
    assert Body(cfg, Vis(S(s))) == Branch(KPromote, ZERO, promote, ZERO);
    UnpromotedNeeds(cfg, rank, u, promote);
  }

  lemma {:induction false} UnpromotedNeeds(cfg: Config, rank: Cell -> nat, u: Users, t: Term)
    requires Acyclic(cfg, rank)
    ensures Needs(cfg, rank, u, Branch(KPromote, ZERO, t, ZERO)) == {}
  {
    assert Needs(cfg, rank, u, ZERO) == {} && Run(cfg, rank, u, ZERO) == VT(0);
  }

  // The default of A stops at n, before B.
  lemma {:induction false} DefaultOfA(u: Users)
    ensures Acyclic(Small(), SmallRank)
    ensures Run(Small(), SmallRank, u, Unset(Small(), A)) == VT(0)
    ensures Needs(Small(), SmallRank, u, Unset(Small(), A)) == {TriV(6), TriV(7)}
  {
    var cfg, value := Small(), AND(NO, Leaf(S(B)));
    SmallAcyclic();
    ConstantValue(cfg, SmallRank, u, 6);
    ConstantValue(cfg, SmallRank, u, 7);
    NeedsSteps(cfg, SmallRank, u);
    assert [(value, YES)][1..] == [];
    assert TriDefault(cfg, []) == ZERO;
    var byDefault := Branch(KFirst, Get(TriV(6)), Value(cfg, value), ZERO);
    assert TriDefault(cfg, [(value, YES)]) == byDefault;
    assert Value(cfg, value) == Branch(KAnd, Get(TriV(7)), Get(TriV(B)), ZERO);
    assert Run(cfg, SmallRank, u, Value(cfg, value)) == VT(0);
    assert Needs(cfg, SmallRank, u, Value(cfg, value)) == {TriV(7)};
    assert Run(cfg, SmallRank, u, byDefault) == VT(0);
    assert Needs(cfg, SmallRank, u, byDefault) == {TriV(6), TriV(7)};
    var byImply := Branch(KWhen, Get(TriV(7)), Get(TriV(6)), ZERO);
    assert Run(cfg, SmallRank, u, byImply) == VT(0);
    assert Needs(cfg, SmallRank, u, byImply) == {TriV(7)};
    assert Unset(cfg, A) == Bin(OMax, byDefault, byImply);
  }

  /** A is registered as a dependent of B. */
  lemma AOnB()
    ensures S(A) in Dependents(Small(), S(B)) && S(B) in Defined(Small())
  {
    SmallSymbols();
    assert S(B) in ExprItems(AND(NO, Leaf(S(B))));
  }

  /** Nothing of B is read for the value of A. */
  lemma {:induction false} ClosureOfA(u: Users)
    ensures Acyclic(Small(), SmallRank)
    ensures Closure(Small(), SmallRank, u, TriV(A)) == {TriV(A), Vis(S(A)), TriV(6), TriV(7)}
  {
    var cfg := Small();
    DefaultOfA(u);
    ConstantValue(cfg, SmallRank, u, 7);
    assert Value(cfg, NO) == Get(TriV(7));
    PromptlessClosure(cfg, SmallRank, u, A);
  }

  // A read of a freshly parsed configuration caches the closure of the property.
  method ReadFirst(cfg: Config, ghost rank: Cell -> nat, c: Cell) returns (k: Kconfig)
    requires Finalized(cfg) && Acyclic(cfg, rank)
    ensures k.cfg == cfg && k.rank == rank && k.Valid()
    ensures k.cache.Keys == Closure(cfg, rank, Users(map[], map[]), c)
  {
    k := new Kconfig(cfg, rank);
    var v := k.Read(c);
  }

  lemma SmallReady()
    ensures Finalized(Small()) && Acyclic(Small(), SmallRank)
    ensures Closure(Small(), SmallRank, Users(map[], map[]), TriV(A)) == {TriV(A), Vis(S(A)), TriV(6), TriV(7)}
  {
    SmallFinalized();
    ClosureOfA(Users(map[], map[]));
  }

  /** The value of A is cached while nothing is cached of B, on which A depends. */
  method BesideUncached() returns (k: Kconfig)
    ensures k.cfg == Small() && k.rank == SmallRank && k.Valid()
    ensures k.cache.Keys == {TriV(A), Vis(S(A)), TriV(6), TriV(7)}
  {
    SmallReady();
    k := ReadFirst(Small(), SmallRank, TriV(A));
  }

  // ----- an assignable value that is not respected -----

  lemma {:induction false} DefaultValue(cfg: Config, rank: Cell -> nat, u: Users, s: nat, e: Expr, c: Expr)
    requires cfg.sym(s).defaults == [(e, c)]
    requires Run(cfg, rank, u, Value(cfg, c)) == VT(2) && IsTri(Run(cfg, rank, u, Value(cfg, e)))
    requires Run(cfg, rank, u, Value(cfg, cfg.sym(s).weakRevDep)) == VT(0)
    ensures Run(cfg, rank, u, Unset(cfg, s)) == Run(cfg, rank, u, Value(cfg, e))
  {
    assert cfg.sym(s).defaults[1..] == [];
    var byDefault := Branch(KFirst, Value(cfg, c), Value(cfg, e), ZERO);
    assert TriDefault(cfg, []) == ZERO;
    assert TriDefault(cfg, cfg.sym(s).defaults) == byDefault;
    assert Run(cfg, rank, u, byDefault) == Run(cfg, rank, u, Value(cfg, e));
    var byImply := Branch(KWhen, Value(cfg, cfg.sym(s).weakRevDep), Value(cfg, cfg.sym(s).directDep), ZERO);
    assert Run(cfg, rank, u, byImply) == VT(0);
  }

  lemma {:induction false} SmallFixed(u: Users)
    ensures Run(Small(), SmallRank, u, Value(Small(), YES)) == VT(2)
    ensures Run(Small(), SmallRank, u, Value(Small(), NO)) == VT(0)
    ensures Run(Small(), SmallRank, u, Value(Small(), MOD)) == VT(1)
  {
    SmallAcyclic();
    ConstantValue(Small(), SmallRank, u, 6);
    ConstantValue(Small(), SmallRank, u, 7);
    ConstantValue(Small(), SmallRank, u, 8);
  }

  lemma {:induction false} SmallPromptless(u: Users, s: nat)
    requires s < 6 && s != X
    requires var own := T(Run(Small(), SmallRank, u, Unset(Small(), s)));
             own == 2 || (own == 1 && !Truthy(Run(Small(), SmallRank, u, NoM(Small(), s))))
    ensures Eval(Small(), SmallRank, u, TriV(s)) == VT(T(Run(Small(), SmallRank, u, Unset(Small(), s))))
  {
    SmallFixed(u);
    SmallAcyclic();
    PromptlessValue(Small(), SmallRank, u, s);
  }

  // MODULES and I1 are y.
  lemma SmallYes(u: Users, s: nat)
    requires s == MODULES || s == IMPLIES
    ensures Eval(Small(), SmallRank, u, TriV(s)) == VT(2)
  {
    SmallFixed(u);
    DefaultValue(Small(), SmallRank, u, s, YES, YES);
    SmallPromptless(u, s);
  }

  lemma {:induction false} ModulesOn(u: Users, s: nat)
    requires s == X || s == SELECTS
    ensures !Truthy(Run(Small(), SmallRank, u, IsBool(Small(), s)))
  {
    SmallYes(u, MODULES);
    assert Run(Small(), SmallRank, u, Get(TriV(MODULES))) == VT(2);
  }

  // S1 is m.
  lemma SmallMod(u: Users)
    ensures Eval(Small(), SmallRank, u, TriV(SELECTS)) == VT(1)
  {
    var cfg := Small();
    SmallFixed(u);
    ModulesOn(u, SELECTS);
    DefaultValue(cfg, SmallRank, u, SELECTS, MOD, YES);
    NoMMeans(cfg, SmallRank, u, SELECTS);
    SmallPromptless(u, SELECTS);
  }

  lemma {:induction false} OrdinaryVis(cfg: Config, rank: Cell -> nat, u: Users, s: nat)
    requires Acyclic(cfg, rank) && Ordinary(cfg, s) && cfg.sym(s).origType.TRISTATE?
    requires Run(cfg, rank, u, PromptMax(cfg, cfg.sym(s).prompts)) == VT(1) && !CountsAsBool(cfg, rank, u, s)
    ensures Eval(cfg, rank, u, Vis(S(s))) == VT(1)
  {
    EvalIsRun(cfg, rank, u, Vis(S(s)));
    assert Body(cfg, Vis(S(s))) == Branch(KPromote, PromptMax(cfg, cfg.sym(s).prompts), IsBool(cfg, s), ZERO);
  }

  lemma {:induction false} SinglePrompt(cfg: Config, rank: Cell -> nat, u: Users, es: seq<Expr>)
    requires |es| == 1 && IsTri(Run(cfg, rank, u, Value(cfg, es[0])))
    ensures Run(cfg, rank, u, PromptMax(cfg, es)) == Run(cfg, rank, u, Value(cfg, es[0]))
  {
    assert es[1..] == [];
    assert PromptMax(cfg, []) == ZERO;
  }

  lemma {:induction false} XPrompt(u: Users)
    ensures Run(Small(), SmallRank, u, PromptMax(Small(), SmallSym(X).prompts)) == VT(1)
  {
    var cfg, cond := Small(), AND(MOD, Leaf(S(MODULES)));
    SmallFixed(u);
    SmallYes(u, MODULES);
    assert Run(cfg, SmallRank, u, Value(cfg, Leaf(S(MODULES)))) == VT(2);
    assert Run(cfg, SmallRank, u, Value(cfg, cond)) == VT(1);
    SinglePrompt(cfg, SmallRank, u, [cond]);
  }

  // X is visible at m, S1 selects it to m, and I1 implies it to y.
  lemma XLevels(u: Users)
    ensures Eval(Small(), SmallRank, u, Vis(S(X))) == VT(1)
    ensures SelectedTo(Small(), SmallRank, u, X) == 1 && ImpliedTo(Small(), SmallRank, u, X) == 2
  {
    XPrompt(u);
    ModulesOn(u, X);
    SmallYes(u, IMPLIES);
    SmallMod(u);
    SmallAcyclic();
    OrdinaryVis(Small(), SmallRank, u, X);
  }

  /** X can be seen at m, is selected to m and implied to y: assignable offers m, and X stays
      y when m is assigned. */
  lemma OfferedInVain()
    ensures Finalized(Small()) && Acyclic(Small(), SmallRank) && GoodChoices(Small())
    ensures var u := Users(map[], map[]);
            && GoodSettings(Small(), u)
            && Eval(Small(), SmallRank, u, Assignable(S(X))) == VTuple([1])
            && T(Eval(Small(), SmallRank, Assigning(u, X, 1), TriV(X))) == 2
  {
    var cfg, u := Small(), Users(map[], map[]);
    SmallFinalized();
    SmallAcyclic();
    XLevels(u);
    AssignableTuple(cfg, SmallRank, u, X);
    AssignableRespected(cfg, SmallRank, u, X, 1);
    XLevels(Assigning(u, X, 1));
    AssignedValue(cfg, SmallRank, Assigning(u, X, 1), X, 1);
  }
}
