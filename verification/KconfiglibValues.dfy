/** The values that the properties of tools/kconfig_new/kconfiglib.py have when nothing is
    cached, and which reads a computation depends on. */
module KconfiglibValues {
  import opened Basics
  import opened KconfiglibModel

  /** The user's settings: user_value of each item, user_selection of each choice. */
  datatype Users = Users(value: map<Item, Val>, selection: map<nat, nat>)

  function UserValue(u: Users, i: Item): Val {
    if i in u.value then u.value[i] else VNone
  }

  function UserSelection(u: Users, ch: nat): Val {
    if ch in u.selection then VSym(u.selection[ch]) else VNone
  }

  /** Tristate user values are 0, 1 or 2, as set_value makes sure; a selected symbol belongs to
      its choice. */
  ghost predicate GoodSettings(cfg: Config, u: Users) {
    && (forall i :: 0 <= T(UserValue(u, i)) <= 2)
    && (forall ch :: ch in u.selection ==> u.selection[ch] in cfg.choice(ch).syms)
  }

  function Cells(t: Term): set<Cell> {
    match t
    case Get(c) => {c}
    case Bin(_, a, b) => Cells(a) + Cells(b)
    case Branch(_, a, b, c) => Cells(a) + Cells(b) + Cells(c)
    case _ => {}
  }

  /** Value dependencies are acyclic: rank orders the properties by what they may read. */
  ghost predicate Acyclic(cfg: Config, rank: Cell -> nat) {
    forall c, d :: d in Cells(Body(cfg, c)) ==> rank(d) < rank(c)
  }

  /** All properties that t mentions are of rank below n. */
  predicate Below(rank: Cell -> nat, t: Term, n: nat) {
    match t
    case Get(c) => rank(c) < n
    case Bin(_, a, b) => Below(rank, a, n) && Below(rank, b, n)
    case Branch(_, a, b, c) => Below(rank, a, n) && Below(rank, b, n) && Below(rank, c, n)
    case _ => true
  }

  lemma BelowSteps(rank: Cell -> nat, n: nat)
    ensures forall op, a, b :: Below(rank, Bin(op, a, b), n) == (Below(rank, a, n) && Below(rank, b, n))
    ensures forall k, a, b, c ::
              Below(rank, Branch(k, a, b, c), n) == (Below(rank, a, n) && Below(rank, b, n) && Below(rank, c, n))
  {
  }

  lemma {:induction false} BelowCells(rank: Cell -> nat, t: Term, n: nat)
    requires Below(rank, t, n)
    ensures forall d :: d in Cells(t) ==> rank(d) < n
  {
    match t
    case Bin(_, a, b) => BelowCells(rank, a, n); BelowCells(rank, b, n);
    case Branch(_, a, b, c) => BelowCells(rank, a, n); BelowCells(rank, b, n); BelowCells(rank, c, n);
    case _ =>
  }

  /** The value of term t, recomputing every property of rank below bound that it reads. */
  ghost function Compute(cfg: Config, rank: Cell -> nat, u: Users, t: Term, bound: nat): Val
    decreases bound, t
  {
    match t
    case Lit(v) => v
    case User(i) => UserValue(u, i)
    case UserSel(ch) => UserSelection(u, ch)
    case Get(c) => if rank(c) < bound then Compute(cfg, rank, u, Body(cfg, c), rank(c)) else VNone
    case Bin(op, a, b) => Apply(cfg, op, Compute(cfg, rank, u, a, bound), Compute(cfg, rank, u, b, bound))
    case Branch(k, a, b, c) =>
      var v := Compute(cfg, rank, u, a, bound);
      Combine(k, v, if Takes(k, v) then Compute(cfg, rank, u, b, bound) else Compute(cfg, rank, u, c, bound))
  }

  /** The value of property c, computed from nothing but the configuration and the settings. */
  ghost function Eval(cfg: Config, rank: Cell -> nat, u: Users, c: Cell): Val {
    Compute(cfg, rank, u, Body(cfg, c), rank(c))
  }

  /** The value of a term in terms of the values of the properties it reads. */
  ghost function Run(cfg: Config, rank: Cell -> nat, u: Users, t: Term): Val {
    match t
    case Lit(v) => v
    case User(i) => UserValue(u, i)
    case UserSel(ch) => UserSelection(u, ch)
    case Get(c) => Eval(cfg, rank, u, c)
    case Bin(op, a, b) => Apply(cfg, op, Run(cfg, rank, u, a), Run(cfg, rank, u, b))
    case Branch(k, a, b, c) =>
      var v := Run(cfg, rank, u, a);
      Combine(k, v, if Takes(k, v) then Run(cfg, rank, u, b) else Run(cfg, rank, u, c))
  }

  lemma {:induction false} ComputeIsRun(cfg: Config, rank: Cell -> nat, u: Users, t: Term, bound: nat)
    requires forall d :: d in Cells(t) ==> rank(d) < bound
    ensures Compute(cfg, rank, u, t, bound) == Run(cfg, rank, u, t)
  {
    match t
    case Bin(_, a, b) =>
      ComputeIsRun(cfg, rank, u, a, bound);
      ComputeIsRun(cfg, rank, u, b, bound);
    case Branch(_, a, b, c) =>
      ComputeIsRun(cfg, rank, u, a, bound);
      ComputeIsRun(cfg, rank, u, b, bound);
      ComputeIsRun(cfg, rank, u, c, bound);
    case _ =>
  }

  lemma {:induction false} EvalIsRun(cfg: Config, rank: Cell -> nat, u: Users, c: Cell)
    requires Acyclic(cfg, rank)
    ensures Eval(cfg, rank, u, c) == Run(cfg, rank, u, Body(cfg, c))
  {
    ComputeIsRun(cfg, rank, u, Body(cfg, c), rank(c));
  }

  // ----- what a computation really reads -----

  /** What a computation looks at: a property, the user_value of an item, or the
      user_selection of a choice. */
  datatype Input = Property(c: Cell) | Setting(i: Item) | Chosen(ch: nat)

  function Source(x: Input): Item {
    match x
    case Property(c) => ItemOf(c)
    case Setting(i) => i
    case Chosen(ch) => C(ch)
  }

  /** The inputs that evaluating t reads; a branch that is not taken reads nothing. */
  ghost function Reads(cfg: Config, rank: Cell -> nat, u: Users, t: Term): set<Input> {
    match t
    case Lit(_) => {}
    case Get(c) => {Property(c)}
    case User(i) => {Setting(i)}
    case UserSel(ch) => {Chosen(ch)}
    case Bin(_, a, b) => Reads(cfg, rank, u, a) + Reads(cfg, rank, u, b)
    case Branch(k, a, b, c) =>
      Reads(cfg, rank, u, a)
      + (if Takes(k, Run(cfg, rank, u, a)) then Reads(cfg, rank, u, b) else Reads(cfg, rank, u, c))
  }

  /** Input x looks the same under both settings. */
  ghost predicate Agrees(cfg: Config, rank: Cell -> nat, u: Users, u': Users, x: Input) {
    match x
    case Property(c) => Eval(cfg, rank, u', c) == Eval(cfg, rank, u, c)
    case Setting(i) => UserValue(u', i) == UserValue(u, i)
    case Chosen(ch) => UserSelection(u', ch) == UserSelection(u, ch)
  }

  /** A computation depends on nothing but what it reads. */
  lemma {:induction false} RunFrame(cfg: Config, rank: Cell -> nat, u: Users, u': Users, t: Term)
    requires forall x :: x in Reads(cfg, rank, u, t) ==> Agrees(cfg, rank, u, u', x)
    ensures Run(cfg, rank, u', t) == Run(cfg, rank, u, t)
    ensures Reads(cfg, rank, u', t) == Reads(cfg, rank, u, t)
  {
    match t
    case Bin(_, a, b) =>
      RunFrame(cfg, rank, u, u', a);
      RunFrame(cfg, rank, u, u', b);
    case Branch(k, a, b, c) =>
      RunFrame(cfg, rank, u, u', a);
      if Takes(k, Run(cfg, rank, u, a)) { RunFrame(cfg, rank, u, u', b); } else { RunFrame(cfg, rank, u, u', c); }
    case Get(c) => assert Property(c) in Reads(cfg, rank, u, t);
    case User(i) => assert Setting(i) in Reads(cfg, rank, u, t);
    case UserSel(ch) => assert Chosen(ch) in Reads(cfg, rank, u, t);
    case Lit(_) =>
  }

  // One step of evaluation, for terms of any depth.
  lemma RunSteps(cfg: Config, rank: Cell -> nat, u: Users)
    ensures forall op, a, b :: Run(cfg, rank, u, Bin(op, a, b))
              == Apply(cfg, op, Run(cfg, rank, u, a), Run(cfg, rank, u, b))
    ensures forall k, a, b, c :: Run(cfg, rank, u, Branch(k, a, b, c))
              == var v := Run(cfg, rank, u, a);
                 Combine(k, v, if Takes(k, v) then Run(cfg, rank, u, b) else Run(cfg, rank, u, c))
  {
  }

  lemma {:induction false} RunIf(cfg: Config, rank: Cell -> nat, u: Users, c: Term, a: Term, b: Term)
    ensures Run(cfg, rank, u, If(c, a, b))
            == if Truthy(Run(cfg, rank, u, c)) then Run(cfg, rank, u, a) else Run(cfg, rank, u, b)
  {
  }

  lemma ReadSteps(cfg: Config, rank: Cell -> nat, u: Users)
    ensures forall op, a, b :: Reads(cfg, rank, u, Bin(op, a, b))
              == Reads(cfg, rank, u, a) + Reads(cfg, rank, u, b)
    ensures forall k, a, b, c :: Reads(cfg, rank, u, Branch(k, a, b, c))
              == Reads(cfg, rank, u, a)
                 + if Takes(k, Run(cfg, rank, u, a)) then Reads(cfg, rank, u, b) else Reads(cfg, rank, u, c)
  {
  }

  // ----- reads stay inside what _build_dep registered -----

  /** t looks at nothing outside the given items, and not at the setting ban. */
  predicate Within(t: Term, items: set<Item>, ban: Input) {
    match t
    case Lit(_) => true
    case Get(c) => ItemOf(c) in items
    case User(i) => i in items && ban != Setting(i)
    case UserSel(ch) => C(ch) in items && ban != Chosen(ch)
    case Bin(_, a, b) => Within(a, items, ban) && Within(b, items, ban)
    case Branch(_, a, b, c) => Within(a, items, ban) && Within(b, items, ban) && Within(c, items, ban)
  }

  // The settings whose absence is of interest.
  predicate Bannable(x: Input) {
    x.Chosen? || (x.Setting? && x.i.S?)
  }

  lemma WithinSteps(items: set<Item>, ban: Input)
    ensures forall op, a, b :: Within(Bin(op, a, b), items, ban) == (Within(a, items, ban) && Within(b, items, ban))
    ensures forall k, a, b, c :: Within(Branch(k, a, b, c), items, ban)
              == (Within(a, items, ban) && Within(b, items, ban) && Within(c, items, ban))
  {
  }

  lemma {:induction false} ReadsWithin(cfg: Config, rank: Cell -> nat, u: Users, t: Term, items: set<Item>, ban: Input)
    requires Within(t, items, ban) && !ban.Property?
    ensures forall x :: x in Reads(cfg, rank, u, t) ==> Source(x) in items && x != ban
    ensures forall d :: d in Cells(t) ==> ItemOf(d) in items
  {
    match t
    case Bin(_, a, b) =>
      ReadsWithin(cfg, rank, u, a, items, ban);
      ReadsWithin(cfg, rank, u, b, items, ban);
    case Branch(_, a, b, c) =>
      ReadsWithin(cfg, rank, u, a, items, ban);
      ReadsWithin(cfg, rank, u, b, items, ban);
      ReadsWithin(cfg, rank, u, c, items, ban);
    case _ =>
  }

  lemma {:induction false} ModeWithin(cfg: Config, ch: nat, items: set<Item>, ban: Input)
    requires Bannable(ban)
    requires C(ch) in items && S(cfg.modules) in items
    ensures Within(Mode(cfg, ch), items, ban) && Within(ChoiceIsBool(cfg, ch), items, ban)
  {
    WithinSteps(items, ban);
  }

  lemma {:induction false} IsBoolWithin(cfg: Config, x: nat, items: set<Item>, ban: Input)
    requires Bannable(ban)
    requires S(cfg.modules) in items
    requires cfg.sym(x).choice.Some? ==> C(cfg.sym(x).choice.value) in items
    ensures Within(IsBool(cfg, x), items, ban)
  {
    WithinSteps(items, ban);
    if cfg.sym(x).choice.Some? {
      ModeWithin(cfg, cfg.sym(x).choice.value, items, ban);
    }
  }

  lemma {:induction false} ValueWithin(cfg: Config, e: Expr, items: set<Item>, ban: Input)
    requires Bannable(ban)
    requires ExprItems(e) <= items && S(cfg.modules) in items
    ensures Within(Value(cfg, e), items, ban)
  {
    match e
    case AND(l, r) => ValueWithin(cfg, l, items, ban); ValueWithin(cfg, r, items, ban);
    case OR(l, r) => ValueWithin(cfg, l, items, ban); ValueWithin(cfg, r, items, ban);
    case NOT(x) => ValueWithin(cfg, x, items, ban);
    case Leaf(C(ch)) => ModeWithin(cfg, ch, items, ban);
    case Leaf(S(_)) =>
    case REL(_, _, _) =>
  }

  lemma {:induction false} PromptWithin(cfg: Config, es: seq<Expr>, items: set<Item>, ban: Input)
    requires Bannable(ban)
    requires ItemsOf(es) <= items && S(cfg.modules) in items
    ensures Within(PromptMax(cfg, es), items, ban)
  {
    if es != [] {
      ValueWithin(cfg, es[0], items, ban);
      PromptWithin(cfg, es[1..], items, ban);
    }
  }

  lemma {:induction false} DefaultWithin(cfg: Config, ds: seq<(Expr, Expr)>, items: set<Item>, ban: Input)
    requires Bannable(ban)
    requires DefaultItems(ds) <= items && S(cfg.modules) in items
    ensures Within(TriDefault(cfg, ds), items, ban) && Within(StrDefault(cfg, ds), items, ban)
  {
    if ds != [] {
      ValueWithin(cfg, ds[0].0, items, ban);
      ValueWithin(cfg, ds[0].1, items, ban);
      DefaultWithin(cfg, ds[1..], items, ban);
    }
  }

  lemma {:induction false} RangeWithin(cfg: Config, typ: Type, rs: seq<(nat, nat, Expr)>, items: set<Item>, ban: Input)
    requires Bannable(ban)
    requires RangeItems(rs) <= items && S(cfg.modules) in items
    ensures Within(ActiveRange(cfg, typ, rs), items, ban)
  {
    WithinSteps(items, ban);
    if rs != [] {
      ValueWithin(cfg, rs[0].2, items, ban);
      RangeWithin(cfg, typ, rs[1..], items, ban);
    }
  }

  lemma {:induction false} SelectWithin(ch: nat, syms: seq<nat>, otherwise: Term, items: set<Item>, ban: Input)
    requires Bannable(ban)
    requires C(ch) in items && SymItems(syms) <= items && ban != Chosen(ch)
    ensures Within(SelectVisible(syms), items, ban)
    ensures Within(otherwise, items, ban) ==> Within(SelectByUser(ch, syms, otherwise), items, ban)
  {
    WithinSteps(items, ban);
    if syms != [] {
      SelectWithin(ch, syms[1..], otherwise, items, ban);
    }
  }

  lemma {:induction false} SelectDefaultWithin(cfg: Config, ds: seq<(nat, Expr)>, otherwise: Term, items: set<Item>,
                                               ban: Input)
    requires Bannable(ban)
    requires ConditionItems(ds) <= items && S(cfg.modules) in items
    requires forall d :: d in ds ==> S(d.0) in items
    requires Within(otherwise, items, ban)
    ensures Within(SelectByDefault(cfg, ds, otherwise), items, ban)
  {
    WithinSteps(items, ban);
    if ds != [] {
      ValueWithin(cfg, ds[0].1, items, ban);
      SelectDefaultWithin(cfg, ds[1..], otherwise, items, ban);
    }
  }

  lemma {:induction false} InSymItems(ss: seq<nat>, s: nat)
    requires s in ss
    ensures S(s) in SymItems(ss)
  {
    if ss[0] != s {
      assert ss == [ss[0]] + ss[1..];
      InSymItems(ss[1..], s);
    }
  }

  /** The items that a getter of item i may look at: i itself, the items whose _dependents
      contain i, and MODULES. */
  function Scope(cfg: Config, i: Item): set<Item> {
    {i, S(cfg.modules)} + DependsOn(cfg, i)
  }

  lemma {:induction false} ChoiceBodyWithin(cfg: Config, c: Cell, ch: nat, ban: Input)
    requires Finalized(cfg) && ItemOf(c) == C(ch)
    requires Bannable(ban) && (c == Selection(ch) ==> ban != Chosen(ch))
    ensures Within(Body(cfg, c), Scope(cfg, C(ch)), ban)
  {
    var d, items := cfg.choice(ch), Scope(cfg, C(ch));
    WithinSteps(items, ban);
    ModeWithin(cfg, ch, items, ban);
    PromptWithin(cfg, d.prompts, items, ban);
    forall x | x in d.defaults ensures S(x.0) in SymItems(d.syms) { InSymItems(d.syms, x.0); }
    if c.Selection? {
      SelectWithin(ch, d.syms, SelectVisible(d.syms), items, ban);
      SelectDefaultWithin(cfg, d.defaults, SelectVisible(d.syms), items, ban);
      SelectWithin(ch, d.syms, SelectByDefault(cfg, d.defaults, SelectVisible(d.syms)), items, ban);
    }
  }

  lemma {:induction false} SymPartsWithin(cfg: Config, x: nat, ban: Input)
    requires Finalized(cfg) && Bannable(ban)
    ensures var d, items := cfg.sym(x), Scope(cfg, S(x));
            && Within(IsBool(cfg, x), items, ban)
            && (d.choice.Some? ==> Within(Mode(cfg, d.choice.value), items, ban))
            && Within(PromptMax(cfg, d.prompts), items, ban)
            && Within(TriDefault(cfg, d.defaults), items, ban) && Within(StrDefault(cfg, d.defaults), items, ban)
            && Within(ActiveRange(cfg, d.origType, d.ranges), items, ban)
            && Within(Value(cfg, d.revDep), items, ban) && Within(Value(cfg, d.weakRevDep), items, ban)
            && Within(Value(cfg, d.directDep), items, ban)
  {
    var d, items := cfg.sym(x), Scope(cfg, S(x));
    IsBoolWithin(cfg, x, items, ban);
    if d.choice.Some? { ModeWithin(cfg, d.choice.value, items, ban); }
    PromptWithin(cfg, d.prompts, items, ban);
    DefaultWithin(cfg, d.defaults, items, ban);
    RangeWithin(cfg, d.origType, d.ranges, items, ban);
    ValueWithin(cfg, d.revDep, items, ban);
    ValueWithin(cfg, d.weakRevDep, items, ban);
    ValueWithin(cfg, d.directDep, items, ban);
  }

  lemma {:induction false} VisWithin(cfg: Config, x: nat, ban: Input)
    requires Finalized(cfg) && Bannable(ban)
    ensures Within(Body(cfg, Vis(S(x))), Scope(cfg, S(x)), ban)
  {
    SymPartsWithin(cfg, x, ban);
    WithinSteps(Scope(cfg, S(x)), ban);
  }

  lemma {:induction false} TriPartsWithin(cfg: Config, x: nat, ban: Input)
    requires Finalized(cfg) && Bannable(ban)
    ensures Within(Unset(cfg, x), Scope(cfg, S(x)), ban) && Within(NoM(cfg, x), Scope(cfg, S(x)), ban)
    ensures Within(Value(cfg, cfg.sym(x).revDep), Scope(cfg, S(x)), ban)
  {
    SymPartsWithin(cfg, x, ban);
    WithinSteps(Scope(cfg, S(x)), ban);
  }

  lemma {:induction false} TriWithin(cfg: Config, x: nat, ban: Input)
    requires Finalized(cfg) && Bannable(ban) && ban != Setting(S(x))
    ensures Within(Body(cfg, TriV(x)), Scope(cfg, S(x)), ban)
  {
    TriPartsWithin(cfg, x, ban);
    WithinSteps(Scope(cfg, S(x)), ban);
  }

  lemma {:induction false} StrWithin(cfg: Config, x: nat, ban: Input)
    requires Finalized(cfg) && Bannable(ban) && ban != Setting(S(x))
    ensures Within(Body(cfg, StrV(x)), Scope(cfg, S(x)), ban)
  {
    SymPartsWithin(cfg, x, ban);
    WithinSteps(Scope(cfg, S(x)), ban);
  }

  lemma {:induction false} AssignableWithin(cfg: Config, x: nat, ban: Input)
    requires Finalized(cfg) && Bannable(ban)
    ensures Within(Body(cfg, Assignable(S(x))), Scope(cfg, S(x)), ban)
  {
    SymPartsWithin(cfg, x, ban);
    AssignablePartsWithin(cfg, x, Scope(cfg, S(x)), ban);
    WithinSteps(Scope(cfg, S(x)), ban);
  }

  lemma {:induction false} AssignablePartsWithin(cfg: Config, x: nat, items: set<Item>, ban: Input)
    requires Within(IsBool(cfg, x), items, ban)
    requires Within(Value(cfg, cfg.sym(x).revDep), items, ban) && Within(Value(cfg, cfg.sym(x).weakRevDep), items, ban)
    ensures Within(AssignableAtY(cfg, x), items, ban) && Within(AssignableAtM(cfg, x), items, ban)
  {
    WithinSteps(items, ban);
    assert Within(NoM(cfg, x), items, ban);
  }

  // Only tri_value and str_value look at a symbol's own user value.
  lemma {:induction false} SymBodyWithin(cfg: Config, c: Cell, x: nat, ban: Input)
    requires Finalized(cfg) && Bannable(ban) && ItemOf(c) == S(x) && (ban != Setting(S(x)) || c.Vis? || c.Assignable?)
    ensures Within(Body(cfg, c), Scope(cfg, S(x)), ban)
  {
    match c
    case Vis(_) => VisWithin(cfg, x, ban);
    case TriV(_) => TriWithin(cfg, x, ban);
    case StrV(_) => StrWithin(cfg, x, ban);
    case Assignable(_) => AssignableWithin(cfg, x, ban);
  }

  /** Whatever a getter of item i reads belongs to i itself, to an item that i was
      registered with as a dependent, or to MODULES. */
  lemma {:induction false} BodyReads(cfg: Config, rank: Cell -> nat, u: Users, c: Cell)
    requires Finalized(cfg)
    ensures forall x :: x in Reads(cfg, rank, u, Body(cfg, c)) ==> Source(x) in Scope(cfg, ItemOf(c))
  {
    match ItemOf(c)
    case S(x) =>
      var ban := Setting(S(x + 1));
      SymBodyWithin(cfg, c, x, ban);
      ReadsWithin(cfg, rank, u, Body(cfg, c), Scope(cfg, S(x)), ban);
    case C(ch) =>
      ChoiceBodyWithin(cfg, c, ch, Setting(S(0)));
      ReadsWithin(cfg, rank, u, Body(cfg, c), Scope(cfg, C(ch)), Setting(S(0)));
  }

  /** Every getter that reads anything reads the visibility of its own item, possibly by way
      of tri_value: this is what makes _cached_vis a witness for all the other caches. */
  lemma {:induction false} VisibilityRead(cfg: Config, rank: Cell -> nat, u: Users, c: Cell)
    ensures || Body(cfg, c).Lit?
            || c.Vis?
            || Property(Vis(ItemOf(c))) in Reads(cfg, rank, u, Body(cfg, c))
            || (c.StrV? && Property(TriV(c.sym)) in Reads(cfg, rank, u, Body(cfg, c))
                && !Body(cfg, TriV(c.sym)).Lit?)
  {
    ReadSteps(cfg, rank, u);
  }

  lemma PromptlessInvisible(cfg: Config, rank: Cell -> nat, u: Users, s: nat)
    requires Acyclic(cfg, rank) && cfg.sym(s).prompts == []
    ensures Eval(cfg, rank, u, Vis(S(s))) == VT(0)
  {
    var d := cfg.sym(s);
    EvalIsRun(cfg, rank, u, Vis(S(s)));
    var promoted := Branch(KPromote, ZERO, if d.origType.TRISTATE? then IsBool(cfg, s) else ONE, ZERO);
    assert Run(cfg, rank, u, ZERO) == VT(0);
    assert Run(cfg, rank, u, promoted) == VT(0);
    if d.choice.Some? {
      var mode := Mode(cfg, d.choice.value);
      assert Run(cfg, rank, u, Is(ZERO, 1)) == VT(0);
      assert Run(cfg, rank, u, Both(Is(ZERO, 1), Is(mode, 2))) == VT(0);
      assert Run(cfg, rank, u, If(IsNot(mode, 2), ZERO, promoted)) == VT(0);
    }
  }

  /** A symbol without a prompt is invisible, so nothing ever reads its user value. */
  lemma {:induction false} PromptlessUnread(cfg: Config, rank: Cell -> nat, u: Users, s: nat, c: Cell)
    requires Finalized(cfg) && Acyclic(cfg, rank) && cfg.sym(s).prompts == []
    ensures Setting(S(s)) !in Reads(cfg, rank, u, Body(cfg, c))
  {
    match ItemOf(c)
    case C(ch) =>
      ChoiceBodyWithin(cfg, c, ch, Setting(S(s)));
      ReadsWithin(cfg, rank, u, Body(cfg, c), Scope(cfg, C(ch)), Setting(S(s)));
    case S(x) =>
      if x != s {
        SymBodyWithin(cfg, c, x, Setting(S(s)));
        ReadsWithin(cfg, rank, u, Body(cfg, c), Scope(cfg, S(x)), Setting(S(s)));
      } else {
        PromptlessOwn(cfg, rank, u, s, c);
      }
  }

  lemma {:induction false} PromptlessOwn(cfg: Config, rank: Cell -> nat, u: Users, s: nat, c: Cell)
    requires Finalized(cfg) && ItemOf(c) == S(s)
    requires Acyclic(cfg, rank) && cfg.sym(s).prompts == []
    ensures Setting(S(s)) !in Reads(cfg, rank, u, Body(cfg, c))
  {
    var items := Scope(cfg, S(s));
    if c.Vis? || c.Assignable? {
      SymBodyWithin(cfg, c, s, Setting(S(s)));
      ReadsWithin(cfg, rank, u, Body(cfg, c), items, Setting(S(s)));
    } else {
      PromptlessInvisible(cfg, rank, u, s);
      SymPartsWithin(cfg, s, Setting(S(s)));
      if c.TriV? { PromptlessTri(cfg, rank, u, s); } else { PromptlessStr(cfg, rank, u, s); }
    }
  }

  // A guard that asks for visibility first does not look further on an invisible symbol.
  lemma {:induction false} InvisibleGuard(cfg: Config, rank: Cell -> nat, u: Users, s: nat, more: Term, own: Term,
                                          otherwise: Term)
    requires Eval(cfg, rank, u, Vis(S(s))) == VT(0)
    requires Setting(S(s)) !in Reads(cfg, rank, u, otherwise)
    ensures Setting(S(s)) !in Reads(cfg, rank, u, If(Both(Get(Vis(S(s))), more), own, otherwise))
  {
    var vis := Get(Vis(S(s)));
    assert Run(cfg, rank, u, Both(vis, more)) == VT(0);
    assert Reads(cfg, rank, u, Both(vis, more)) == {Property(Vis(S(s)))};
  }

  lemma {:induction false} PromptlessTri(cfg: Config, rank: Cell -> nat, u: Users, s: nat)
    requires Finalized(cfg) && Eval(cfg, rank, u, Vis(S(s))) == VT(0)
    ensures Setting(S(s)) !in Reads(cfg, rank, u, Body(cfg, TriV(s)))
  {
    var d, items, vis := cfg.sym(s), Scope(cfg, S(s)), Get(Vis(S(s)));
    if d.constant.None? && (d.origType.BOOL? || d.origType.TRISTATE?) {
      if d.choice.None? {
        TriPartsWithin(cfg, s, Setting(S(s)));
        ReadsWithin(cfg, rank, u, Unset(cfg, s), items, Setting(S(s)));
        ReadsWithin(cfg, rank, u, Value(cfg, d.revDep), items, Setting(S(s)));
        ReadsWithin(cfg, rank, u, NoM(cfg, s), items, Setting(S(s)));
        InvisibleGuard(cfg, rank, u, s, Bin(ONe, User(S(s)), Lit(VNone)), Bin(OMin, User(S(s)), vis), Unset(cfg, s));
        ReadSteps(cfg, rank, u);
      } else {
        InvisibleGuard(cfg, rank, u, s, User(S(s)), ONE, ZERO);
        assert Run(cfg, rank, u, Is(vis, 2)) == VT(0);
        assert Reads(cfg, rank, u, Is(vis, 2)) == {Property(Vis(S(s)))};
      }
    }
  }

  lemma {:induction false} PromptlessStr(cfg: Config, rank: Cell -> nat, u: Users, s: nat)
    requires Finalized(cfg) && Eval(cfg, rank, u, Vis(S(s))) == VT(0)
    ensures Setting(S(s)) !in Reads(cfg, rank, u, Body(cfg, StrV(s)))
  {
    var d, items := cfg.sym(s), Scope(cfg, S(s));
    if d.constant.None? && !(d.origType.BOOL? || d.origType.TRISTATE? || d.origType.UNKNOWN?) {
      SymPartsWithin(cfg, s, Setting(S(s)));
      var byDefault, range := StrDefault(cfg, d.defaults), ActiveRange(cfg, d.origType, d.ranges);
      var clamped := Bin(OClamp(d.origType), range, byDefault);
      WithinSteps(items, Setting(S(s)));
      ReadsWithin(cfg, rank, u, byDefault, items, Setting(S(s)));
      ReadsWithin(cfg, rank, u, clamped, items, Setting(S(s)));
      InvisibleGuard(cfg, rank, u, s, Bin(ONe, User(S(s)), Lit(VNone)), User(S(s)), byDefault);
      InvisibleGuard(cfg, rank, u, s, Bin(OFits(d.origType), range, User(S(s))), User(S(s)), clamped);
      ReadSteps(cfg, rank, u);
    }
  }

  /** The user selection of a choice is looked at for the selection of that choice only. */
  lemma {:induction false} ChosenUnread(cfg: Config, rank: Cell -> nat, u: Users, ch: nat, c: Cell)
    requires Finalized(cfg) && c != Selection(ch)
    ensures Chosen(ch) !in Reads(cfg, rank, u, Body(cfg, c))
  {
    match ItemOf(c)
    case C(x) =>
      ChoiceBodyWithin(cfg, c, x, Chosen(ch));
      ReadsWithin(cfg, rank, u, Body(cfg, c), Scope(cfg, C(x)), Chosen(ch));
    case S(x) =>
      SymBodyWithin(cfg, c, x, Chosen(ch));
      ReadsWithin(cfg, rank, u, Body(cfg, c), Scope(cfg, S(x)), Chosen(ch));
  }

  lemma {:induction false} ReadsAreCells(cfg: Config, rank: Cell -> nat, u: Users, t: Term)
    ensures forall d :: Property(d) in Reads(cfg, rank, u, t) ==> d in Cells(t)
  {
    match t
    case Bin(_, a, b) =>
      ReadsAreCells(cfg, rank, u, a);
      ReadsAreCells(cfg, rank, u, b);
    case Branch(_, a, b, c) =>
      ReadsAreCells(cfg, rank, u, a);
      ReadsAreCells(cfg, rank, u, b);
      ReadsAreCells(cfg, rank, u, c);
    case _ =>
  }

  /** Constant and undefined items look at nothing but themselves. */
  lemma {:induction false} UndefinedReads(cfg: Config, rank: Cell -> nat, u: Users, c: Cell)
    requires Finalized(cfg) && ItemOf(c) !in Defined(cfg)
    ensures forall x :: x in Reads(cfg, rank, u, Body(cfg, c)) ==> Source(x) == ItemOf(c)
  {
    var items, ban := {ItemOf(c)}, Setting(S(if ItemOf(c).S? then ItemOf(c).id + 1 else 0));
    WithinSteps(items, ban);
    match ItemOf(c)
    case S(s) =>
      assert s !in cfg.definedSyms;
      assert Within(Body(cfg, c), items, ban);
      ReadsWithin(cfg, rank, u, Body(cfg, c), items, ban);
    case C(ch) =>
      assert ch !in cfg.choices;
      assert cfg.choice(ch) == ChoiceDef(UNKNOWN, false, [], [], []);
      assert Within(Mode(cfg, ch), items, ban);
      assert Within(Body(cfg, c), items, ban);
      ReadsWithin(cfg, rank, u, Body(cfg, c), items, ban);
  }
}
