/** Choosing a choice symbol that has no prompt: the one setter of
    tools/kconfig_new/kconfiglib.py that skips an invalidation it would need. */
module KconfiglibPromptless {
  import opened Basics
  import opened KconfiglibModel
  import opened KconfiglibValues
  import opened KconfiglibCache

  function Unselected(u: Users, ch: nat): Users {
    Users(u.value, u.selection - {ch})
  }

  function Selecting(u: Users, ch: nat, s: nat): Users {
    Users(u.value, u.selection[ch := s])
  }

  // Properties below the selection of ch do not depend on what the user selected.
  lemma {:induction false} BelowSelection(cfg: Config, rank: Cell -> nat, u: Users, u': Users, ch: nat, c: Cell)
    requires Finalized(cfg) && Acyclic(cfg, rank) && rank(c) < rank(Selection(ch))
    requires u'.value == u.value && forall x :: x != ch ==> UserSelection(u', x) == UserSelection(u, x)
    ensures Eval(cfg, rank, u', c) == Eval(cfg, rank, u, c)
    decreases rank(c)
  {
    ReadsAreCells(cfg, rank, u, Body(cfg, c));
    ChosenUnread(cfg, rank, u, ch, c);
    forall x | x in Reads(cfg, rank, u, Body(cfg, c)) ensures Agrees(cfg, rank, u, u', x) {
      if x.Property? { BelowSelection(cfg, rank, u, u', ch, x.c); }
    }
    RunFrame(cfg, rank, u, u', Body(cfg, c));
    EvalIsRun(cfg, rank, u, c);
    EvalIsRun(cfg, rank, u', c);
  }

  // A user selection that is absent or invisible is passed over.
  lemma {:induction false} SelectionPassedOver(cfg: Config, rank: Cell -> nat, u: Users, ch: nat, syms: seq<nat>,
                                               otherwise: Term)
    requires ch in u.selection ==> Eval(cfg, rank, u, Vis(S(u.selection[ch]))) == VT(0)
    ensures Run(cfg, rank, u, SelectByUser(ch, syms, otherwise)) == Run(cfg, rank, u, otherwise)
  {
    RunSteps(cfg, rank, u);
    if syms != [] {
      SelectionPassedOver(cfg, rank, u, ch, syms[1..], otherwise);
      assert Run(cfg, rank, u, Get(Vis(S(syms[0])))) == Eval(cfg, rank, u, Vis(S(syms[0])));
      assert Run(cfg, rank, u, UserSel(ch)) == UserSelection(u, ch);
    }
  }

  // The same for the parts of the selection that do not look at the user's selection.
  lemma {:induction false} PartUnchanged(cfg: Config, rank: Cell -> nat, u: Users, u': Users, ch: nat, t: Term)
    requires Finalized(cfg) && Acyclic(cfg, rank)
    requires Cells(t) <= Cells(Body(cfg, Selection(ch))) && Chosen(ch) !in Reads(cfg, rank, u, t)
    requires u'.value == u.value && forall x :: x != ch ==> UserSelection(u', x) == UserSelection(u, x)
    ensures Run(cfg, rank, u', t) == Run(cfg, rank, u, t)
  {
    ReadsAreCells(cfg, rank, u, t);
    forall x | x in Reads(cfg, rank, u, t) ensures Agrees(cfg, rank, u, u', x) {
      if x.Property? { BelowSelection(cfg, rank, u, u', ch, x.c); }
    }
    RunFrame(cfg, rank, u, u', t);
  }

  /** With a promptless symbol selected, the choice falls back on what it would show if the
      user had selected nothing. */
  lemma PromptlessSelection(cfg: Config, rank: Cell -> nat, u: Users, ch: nat, s: nat)
    requires Finalized(cfg) && Acyclic(cfg, rank) && cfg.sym(s).prompts == []
    ensures Eval(cfg, rank, Selecting(u, ch, s), Selection(ch)) == Eval(cfg, rank, Unselected(u, ch), Selection(ch))
  {
    var u1, u0, d := Selecting(u, ch, s), Unselected(u, ch), cfg.choice(ch);
    var otherwise := SelectByDefault(cfg, d.defaults, SelectVisible(d.syms));
    PromptlessInvisible(cfg, rank, u1, s);
    SelectionPassedOver(cfg, rank, u1, ch, d.syms, otherwise);
    SelectionPassedOver(cfg, rank, u0, ch, d.syms, otherwise);
    SelectionParts(cfg, ch);
    OtherwiseUnchosen(cfg, rank, u0, ch);
    PartUnchanged(cfg, rank, u0, u1, ch, otherwise);
    PartUnchanged(cfg, rank, u0, u1, ch, IsNot(Mode(cfg, ch), 2));
    EvalSelection(cfg, rank, u0, ch);
    EvalSelection(cfg, rank, u1, ch);
  }

  lemma {:induction false} EvalSelection(cfg: Config, rank: Cell -> nat, u: Users, ch: nat)
    requires Acyclic(cfg, rank)
    ensures var d := cfg.choice(ch);
            Eval(cfg, rank, u, Selection(ch))
            == if Truthy(Run(cfg, rank, u, IsNot(Mode(cfg, ch), 2))) then VNone
               else Run(cfg, rank, u,
                        SelectByUser(ch, d.syms, SelectByDefault(cfg, d.defaults, SelectVisible(d.syms))))
  {
    EvalIsRun(cfg, rank, u, Selection(ch));
  }

  lemma CellsSteps()
    ensures forall op, a, b :: Cells(Bin(op, a, b)) == Cells(a) + Cells(b)
    ensures forall k, a, b, c :: Cells(Branch(k, a, b, c)) == Cells(a) + Cells(b) + Cells(c)
  {
  }

  lemma {:induction false} SelectByUserCells(ch: nat, syms: seq<nat>, otherwise: Term)
    ensures Cells(otherwise) <= Cells(SelectByUser(ch, syms, otherwise))
  {
    CellsSteps();
    if syms != [] { SelectByUserCells(ch, syms[1..], otherwise); }
  }

  lemma {:induction false} SelectionParts(cfg: Config, ch: nat)
    ensures var d := cfg.choice(ch);
            && Cells(SelectByDefault(cfg, d.defaults, SelectVisible(d.syms))) <= Cells(Body(cfg, Selection(ch)))
            && Cells(IsNot(Mode(cfg, ch), 2)) <= Cells(Body(cfg, Selection(ch)))
  {
    var d := cfg.choice(ch);
    CellsSteps();
    SelectByUserCells(ch, d.syms, SelectByDefault(cfg, d.defaults, SelectVisible(d.syms)));
  }

  lemma {:induction false} OtherwiseUnchosen(cfg: Config, rank: Cell -> nat, u: Users, ch: nat)
    requires Finalized(cfg)
    ensures var d := cfg.choice(ch);
            && Chosen(ch) !in Reads(cfg, rank, u, SelectByDefault(cfg, d.defaults, SelectVisible(d.syms)))
            && Chosen(ch) !in Reads(cfg, rank, u, IsNot(Mode(cfg, ch), 2))
  {
    var d, items := cfg.choice(ch), Scope(cfg, C(ch));
    WithinSteps(items, Chosen(ch));
    ModeWithin(cfg, ch, items, Chosen(ch));
    forall x | x in d.defaults ensures S(x.0) in SymItems(d.syms) { InSymItems(d.syms, x.0); }
    SelectWithin(ch + 1, d.syms, SelectVisible(d.syms), items + {C(ch + 1)}, Chosen(ch));
    ModeWithin(cfg, ch, items + {C(ch + 1)}, Chosen(ch));
    SelectDefaultWithin(cfg, d.defaults, SelectVisible(d.syms), items + {C(ch + 1)}, Chosen(ch));
    ReadsWithin(cfg, rank, u, SelectByDefault(cfg, d.defaults, SelectVisible(d.syms)), items + {C(ch + 1)}, Chosen(ch));
    ReadsWithin(cfg, rank, u, IsNot(Mode(cfg, ch), 2), items, Chosen(ch));
  }

  // If the cached selection is still right, so is everything else.
  lemma {:induction false} OthersRight(cfg: Config, rank: Cell -> nat, u: Users, u': Users, cache: Cache, ch: nat,
                                       c: Cell)
    requires Finalized(cfg) && Acyclic(cfg, rank) && c in cache
    requires forall c, d :: c in cache && Property(d) in Reads(cfg, rank, u, Body(cfg, c)) ==> d in cache
    requires u'.value == u.value && forall x :: x != ch ==> UserSelection(u', x) == UserSelection(u, x)
    requires Selection(ch) in cache ==>
               Eval(cfg, rank, u', Selection(ch)) == Eval(cfg, rank, u, Selection(ch))
    ensures Eval(cfg, rank, u', c) == Eval(cfg, rank, u, c)
    decreases rank(c)
  {
    if c != Selection(ch) {
      ReadsAreCells(cfg, rank, u, Body(cfg, c));
      ChosenUnread(cfg, rank, u, ch, c);
      forall x | x in Reads(cfg, rank, u, Body(cfg, c)) ensures Agrees(cfg, rank, u, u', x) {
        if x.Property? { OthersRight(cfg, rank, u, u', cache, ch, x.c); }
      }
      RunFrame(cfg, rank, u, u', Body(cfg, c));
      EvalIsRun(cfg, rank, u, c);
      EvalIsRun(cfg, rank, u', c);
    }
  }

  /** Setting a promptless choice symbol to y leaves every cached value right if and only if
      no selection is cached for its choice, or the cached one is what the choice shows when
      the user has selected nothing. */
  lemma PromptlessChoiceSymbol(cfg: Config, rank: Cell -> nat, u: Users, cache: Cache, ch: nat, s: nat)
    requires Finalized(cfg) && Acyclic(cfg, rank) && Coherent(cfg, rank, u, cache)
    requires cfg.sym(s).prompts == []
    ensures (forall c :: c in cache ==> cache[c] == Eval(cfg, rank, Selecting(u, ch, s), c))
            <==> (Selection(ch) in cache ==>
                    cache[Selection(ch)] == Eval(cfg, rank, Unselected(u, ch), Selection(ch)))
  {
    var u1 := Selecting(u, ch, s);
    PromptlessSelection(cfg, rank, u, ch, s);
    if Selection(ch) in cache ==> cache[Selection(ch)] == Eval(cfg, rank, Unselected(u, ch), Selection(ch)) {
      forall c | c in cache ensures cache[c] == Eval(cfg, rank, u1, c) {
        OthersRight(cfg, rank, u, u1, cache, ch, c);
      }
    }
  }

  // ----- a configuration in which it happens -----

  // Symbols 0 and 1 have prompts, 2 has none; 3 is y, 5 is n, 4 is the undefined MODULES.
  function Member(name: string, prompts: seq<Expr>): SymDef {
    SymDef(name, BOOL, None, prompts, [], [], Leaf(S(5)), Leaf(S(5)), Leaf(C(0)), Some(0), false)
  }

  function Plain(name: string, typ: Type, value: Option<nat>): SymDef {
    SymDef(name, typ, value, [], [], [], Leaf(S(5)), Leaf(S(5)), Leaf(S(5)), None, false)
  }

  function ExampleSym(s: nat): SymDef {
    if s == 0 then Member("A", [Leaf(C(0))])
    else if s == 1 then Member("B", [Leaf(C(0))])
    else if s == 2 then Member("P", [])
    else if s == 3 then Plain("y", TRISTATE, Some(2))
    else if s == 5 then Plain("n", TRISTATE, Some(0))
    else Plain("undefined", UNKNOWN, None)
  }

  function ExampleChoice(ch: nat): ChoiceDef {
    if ch == 0 then ChoiceDef(BOOL, false, [Leaf(S(3))], [], [0, 1, 2])
    else ChoiceDef(UNKNOWN, false, [], [], [])
  }

  function Example(): Config {
    Config(ExampleSym, ExampleChoice, [0, 1, 2], [0], 4,
           (s, b) => false, (s, b) => 0, n => "", n => "")
  }

  function ExampleRank(c: Cell): nat {
    match c
    case Vis(C(_)) => 1
    case Vis(S(_)) => 2
    case Selection(_) => 3
    case TriV(s) => if s < 3 then 4 else 0
    case StrV(_) => 5
    case Assignable(_) => 6
  }

  lemma ExampleSymbols()
    ensures forall s: nat :: s in Example().definedSyms <==> s < 3
    ensures forall s: nat :: s in Example().choice(0).syms <==> s < 3
    ensures forall ch: nat :: ch in Example().choices <==> ch == 0
  {
  }

  lemma ExampleMembers()
    ensures forall s :: Example().sym(s).choice == (if s < 3 then Some(0) else None)
    ensures forall s :: Example().sym(s).constant.Some? ==> s >= 3
    ensures forall s :: s < 3 ==> C(0) in DependsOn(Example(), S(s))
    ensures forall s :: s >= 3 ==>
              Example().sym(s).prompts == [] && (Example().sym(s).constant.Some? || Example().sym(s).origType.UNKNOWN?)
  {
    forall s | s < 3 ensures C(0) in DependsOn(Example(), S(s)) {
      assert C(0) in ExprItems(Example().sym(s).directDep);
    }
  }

  lemma ExampleFinalized()
    ensures Finalized(Example())
  {
    ExampleSymbols();
    ExampleMembers();
  }

  lemma {:induction false} ExampleParts(n: nat)
    requires n >= 2
    ensures forall ch :: Below(ExampleRank, Mode(Example(), ch), n)
    ensures forall s :: Below(ExampleRank, IsBool(Example(), s), n)
    ensures Below(ExampleRank, Value(Example(), Leaf(S(5))), n) && Below(ExampleRank, Value(Example(), Leaf(C(0))), n)
    ensures forall s :: Below(ExampleRank, PromptMax(Example(), ExampleSym(s).prompts), n)
  {
    BelowSteps(ExampleRank, n);
    assert [Leaf(C(0))][1..] == [];
  }

  lemma {:induction false} SelectBelow(rank: Cell -> nat, ch: nat, syms: seq<nat>, otherwise: Term, n: nat)
    requires forall s :: s in syms ==> rank(Vis(S(s))) < n
    ensures Below(rank, SelectVisible(syms), n)
    ensures Below(rank, otherwise, n) ==> Below(rank, SelectByUser(ch, syms, otherwise), n)
  {
    BelowSteps(rank, n);
    if syms != [] { SelectBelow(rank, ch, syms[1..], otherwise, n); }
  }

  lemma ExampleSelection(ch: nat)
    ensures Below(ExampleRank, Body(Example(), Selection(ch)), 3)
  {
    var syms := ExampleChoice(ch).syms;
    BelowSteps(ExampleRank, 3);
    ExampleParts(3);
    SelectBelow(ExampleRank, ch, syms, SelectVisible(syms), 3);
  }

  lemma ExampleVis(i: Item)
    ensures Below(ExampleRank, Body(Example(), Vis(i)), ExampleRank(Vis(i)))
  {
    BelowSteps(ExampleRank, ExampleRank(Vis(i)));
    if i.S? {
      ExampleParts(2);
    } else {
      assert [Leaf(S(3))][1..] == [];
    }
  }

  lemma ExampleTri(s: nat)
    ensures Below(ExampleRank, Body(Example(), TriV(s)), ExampleRank(TriV(s)))
  {
    BelowSteps(ExampleRank, ExampleRank(TriV(s)));
  }

  lemma ExampleStr(s: nat)
    ensures Below(ExampleRank, Body(Example(), StrV(s)), 5)
  {
    BelowSteps(ExampleRank, 5);
  }

  lemma ExampleAssignable(i: Item)
    ensures Below(ExampleRank, Body(Example(), Assignable(i)), 6)
  {
    if i.S? {
      if i.id < 3 { ExampleMemberAssignable(i.id); }
    } else {
      BelowSteps(ExampleRank, 6);
    }
  }

  lemma ExampleMemberAssignable(s: nat)
    requires s < 3
    ensures Below(ExampleRank, SymAssignable(Example(), s), 6)
  {
    var n := Get(TriV(5));
    assert Value(Example(), Leaf(S(5))) == n;
    assert IsBool(Example(), s) == ONE;
    var noMod := Either(ONE, Is(n, 2));
    assert Below(ExampleRank, noMod, 6);
    BelowSteps(ExampleRank, 6);
  }

  lemma ExampleAcyclic()
    ensures Acyclic(Example(), ExampleRank)
  {
    forall c, d | d in Cells(Body(Example(), c)) ensures ExampleRank(d) < ExampleRank(c) {
      match c {
        case Selection(ch) => ExampleSelection(ch);
        case Vis(i) => ExampleVis(i);
        case TriV(s) => ExampleTri(s);
        case StrV(s) => ExampleStr(s);
        case Assignable(i) => ExampleAssignable(i);
      }
      BelowCells(ExampleRank, Body(Example(), c), ExampleRank(c));
    }
  }

  // The values that decide the selection, in any settings without a user value.
  lemma {:induction false} ExampleMode(u: Users)
    requires u.value == map[]
    ensures Eval(Example(), ExampleRank, u, Vis(C(0))) == VT(2)
    ensures Run(Example(), ExampleRank, u, Mode(Example(), 0)) == VT(2)
  {
    var cfg := Example();
    ExampleAcyclic();
    EvalIsRun(cfg, ExampleRank, u, TriV(3));
    EvalIsRun(cfg, ExampleRank, u, Vis(C(0)));
    assert [Leaf(S(3))][1..] == [];
    assert Run(cfg, ExampleRank, u, Get(TriV(3))) == VT(2);
    assert PromptMax(cfg, [Leaf(S(3))]) == Bin(OMax, Get(TriV(3)), ZERO);
    assert Run(cfg, ExampleRank, u, Bin(OMax, Get(TriV(3)), ZERO)) == VT(2);
    assert Body(cfg, Vis(C(0))) == Branch(KPromote, Bin(OMax, Get(TriV(3)), ZERO), ONE, ZERO);
    var low := Bin(OMode, ONE, User(C(0)));
    assert Run(cfg, ExampleRank, u, low) == VT(1);
    assert Run(cfg, ExampleRank, u, Bin(OMin, low, Get(Vis(C(0))))) == VT(1);
    assert Mode(cfg, 0) == Branch(KPromote, Bin(OMin, low, Get(Vis(C(0)))), ONE, ZERO);
  }

  lemma ExampleVisible(u: Users, s: nat)
    requires u.value == map[] && s < 2
    ensures Eval(Example(), ExampleRank, u, Vis(S(s))) == VT(2)
  {
    var cfg := Example();
    ExampleAcyclic();
    ExampleMode(u);
    EvalIsRun(cfg, ExampleRank, u, Vis(S(s)));
    assert [Leaf(C(0))][1..] == [];
    var prompt := Bin(OMax, Mode(cfg, 0), ZERO);
    assert PromptMax(cfg, [Leaf(C(0))]) == prompt;
    assert Run(cfg, ExampleRank, u, prompt) == VT(2);
    assert Body(cfg, Vis(S(s))) == Branch(KPromote, prompt, ONE, ZERO);
  }

  // What is selected, given the first choice symbol that passes.
  lemma {:induction false} ExampleSelect(u: Users, t: Term)
    requires u.value == map[] && t == SelectByUser(0, [0, 1, 2], SelectVisible([0, 1, 2]))
    ensures Eval(Example(), ExampleRank, u, Selection(0)) == Run(Example(), ExampleRank, u, t)
  {
    var cfg := Example();
    ExampleMode(u);
    ExampleAcyclic();
    assert Run(cfg, ExampleRank, u, IsNot(Mode(cfg, 0), 2)) == VT(0);
    assert cfg.choice(0).syms == [0, 1, 2] && cfg.choice(0).defaults == [];
    assert SelectByDefault(cfg, [], SelectVisible([0, 1, 2])) == SelectVisible([0, 1, 2]);
    EvalSelection(cfg, ExampleRank, u, 0);
  }

  // A user selection that is fully visible is selected.
  lemma {:induction false} UserSelected(cfg: Config, rank: Cell -> nat, u: Users, ch: nat, syms: seq<nat>,
                                        otherwise: Term, s: nat)
    requires s in syms && UserSelection(u, ch) == VSym(s) && Eval(cfg, rank, u, Vis(S(s))) == VT(2)
    ensures Run(cfg, rank, u, SelectByUser(ch, syms, otherwise)) == VSym(s)
  {
    var first := syms[0];
    var shown := Is(Get(Vis(S(first))), 2);
    var picked, rest := If(shown, Lit(VSym(first)), otherwise), SelectByUser(ch, syms[1..], otherwise);
    RunIf(cfg, rank, u, Bin(OEq, UserSel(ch), Lit(VSym(first))), picked, rest);
    RunIf(cfg, rank, u, shown, Lit(VSym(first)), otherwise);
    if first != s { UserSelected(cfg, rank, u, ch, syms[1..], otherwise, s); }
  }

  lemma SelectionBefore(u: Users)
    requires u == Users(map[], map[0 := 1])
    ensures Eval(Example(), ExampleRank, u, Selection(0)) == VSym(1)
  {
    var visible := SelectVisible([0, 1, 2]);
    ExampleSelect(u, SelectByUser(0, [0, 1, 2], visible));
    ExampleVisible(u, 1);
    UserSelected(Example(), ExampleRank, u, 0, [0, 1, 2], visible, 1);
  }

  lemma SelectionAfter(u: Users)
    requires u == Users(map[], map[0 := 2])
    ensures Eval(Example(), ExampleRank, u, Selection(0)) == VSym(0)
  {
    var cfg, visible := Example(), SelectVisible([0, 1, 2]);
    ExampleAcyclic();
    ExampleSelect(u, SelectByUser(0, [0, 1, 2], visible));
    ExampleVisible(u, 0);
    PromptlessInvisible(cfg, ExampleRank, u, 2);
    SelectionPassedOver(cfg, ExampleRank, u, 0, [0, 1, 2], visible);
    assert visible == If(Get(Vis(S(0))), Lit(VSym(0)), SelectVisible([0, 1, 2][1..]));
    assert Run(cfg, ExampleRank, u, Get(Vis(S(0)))) == VT(2);
  }

  lemma StaleSelection()
    ensures Finalized(Example()) && Acyclic(Example(), ExampleRank)
    ensures var before := Users(map[], map[0 := 1]);
            && Eval(Example(), ExampleRank, before, Selection(0)) == VSym(1)
            && Eval(Example(), ExampleRank, Selecting(before, 0, 2), Selection(0)) == VSym(0)
  {
    var before := Users(map[], map[0 := 1]);
    ExampleFinalized();
    ExampleAcyclic();
    SelectionBefore(before);
    assert before.selection[0 := 2] == map[0 := 2];
    SelectionAfter(Selecting(before, 0, 2));
  }

  // Selects s and looks at the selection.
  method SelectAndShow(cfg: Config, ghost rank: Cell -> nat, ch: nat, s: nat) returns (k: Kconfig)
    requires Finalized(cfg) && Acyclic(cfg, rank)
    requires cfg.sym(s).choice == Some(ch) && cfg.sym(s).prompts != []
    requires ValidValue(cfg, cfg.sym(s).origType, VT(2)) && !cfg.sym(s).hasEnv
    ensures k.cfg == cfg && k.rank == rank && k.Valid() && k.Settings() == Users(map[], map[ch := s])
    ensures Selection(ch) in k.cache && fresh(k)
    ensures k.cache[Selection(ch)] == Eval(cfg, rank, Users(map[], map[ch := s]), Selection(ch))
  {
    k := new Kconfig(cfg, rank);
    var ok := k.SetSymbol(s, VT(2));
    assert k.Settings() == Users(map[], map[ch := s]);
    var v := k.Read(Selection(ch));
    assert Selection(ch) in k.cache;
  }

  // Then selects the promptless p.
  method SelectBoth(cfg: Config, ghost rank: Cell -> nat, ch: nat, s: nat, p: nat) returns (k: Kconfig)
    requires Finalized(cfg) && Acyclic(cfg, rank)
    requires cfg.sym(s).choice == Some(ch) && cfg.sym(s).prompts != []
    requires cfg.sym(p).choice == Some(ch) && cfg.sym(p).prompts == []
    requires ValidValue(cfg, cfg.sym(s).origType, VT(2)) && !cfg.sym(s).hasEnv
    requires ValidValue(cfg, cfg.sym(p).origType, VT(2)) && !cfg.sym(p).hasEnv
    ensures k.cfg == cfg && k.rank == rank && k.Settings() == Users(map[], map[ch := p])
    ensures Selection(ch) in k.cache
    ensures k.cache[Selection(ch)] == Eval(cfg, rank, Users(map[], map[ch := s]), Selection(ch))
  {
    k := SelectAndShow(cfg, rank, ch, s);
    var ok := k.SetSymbol(p, VT(2));
    assert map[ch := s][ch := p] == map[ch := p];
  }

  /** The concrete failure: B is set to y and the choice shows B. Setting the promptless P to
      y drops no cache, so the choice still shows B, while recomputation gives A. */
  method StaleRun() returns (k: Kconfig)
    ensures k.cfg == Example() && k.rank == ExampleRank
    ensures k.Settings() == Users(map[], map[0 := 2])
    ensures Selection(0) in k.cache && k.cache[Selection(0)] == VSym(1)
    ensures Eval(k.cfg, k.rank, k.Settings(), Selection(0)) == VSym(0)
  {
    StaleSelection();
    k := SelectBoth(Example(), ExampleRank, 0, 1, 2);
    assert Selecting(Users(map[], map[0 := 1]), 0, 2) == Users(map[], map[0 := 2]);
  }
}
