/** What the getters of tools/kconfig_new/kconfiglib.py compute, in the words of the Kconfig
    language: the first default whose condition holds, the highest prompt, the range in effect. */
module KconfiglibMeaning {
  import opened Basics
  import opened KconfiglibModel
  import opened KconfiglibValues
  import opened KconfiglibCache
  import opened KconfiglibChoice
  import opened KconfiglibAssignable
  import P = KconfiglibParser

  /** What all values are taken under. */
  ghost predicate Ready(cfg: Config, rank: Cell -> nat, u: Users) {
    Acyclic(cfg, rank) && GoodSettings(cfg, u) && GoodChoices(cfg)
  }

  // ----- expressions -----

  /** expr_value */
  ghost function Level(cfg: Config, rank: Cell -> nat, u: Users, e: Expr): int {
    T(Run(cfg, rank, u, Value(cfg, e)))
  }

  lemma {:induction false} LevelIsTri(cfg: Config, rank: Cell -> nat, u: Users, e: Expr)
    requires Ready(cfg, rank, u)
    ensures Run(cfg, rank, u, Value(cfg, e)) == VT(Level(cfg, rank, u, e)) && 0 <= Level(cfg, rank, u, e) <= 2
  {
    ValueIsTri(cfg, e);
    TermIsTri(cfg, rank, u, Value(cfg, e));
  }

  /** The value of a leaf: tri_value of the symbol or of the choice. */
  ghost function ItemLevel(cfg: Config, rank: Cell -> nat, u: Users, i: Item): int {
    match i
    case S(s) => TriOf(cfg, rank, u, s)
    case C(ch) => ModeOf(cfg, rank, u, ch)
  }

  /** The text of a symbol. */
  ghost function TextOf(cfg: Config, rank: Cell -> nat, u: Users, s: nat): string {
    Text(Eval(cfg, rank, u, StrV(s)))
  }

  /** The base in which a symbol's text is read as a number; 0 takes it from the text. */
  function BaseOf(typ: Type): nat {
    match typ
    case INT => 10
    case HEX => 16
    case _ => 0
  }

  /** Two symbols are compared as numbers unless both are strings or one is no number. */
  ghost predicate Numeric(cfg: Config, rank: Cell -> nat, u: Users, a: nat, b: nat) {
    && !(cfg.sym(a).origType.STRING? && cfg.sym(b).origType.STRING?)
    && cfg.isBase(TextOf(cfg, rank, u, a), BaseOf(cfg.sym(a).origType))
    && cfg.isBase(TextOf(cfg, rank, u, b), BaseOf(cfg.sym(b).origType))
  }

  ghost function NumberOf(cfg: Config, rank: Cell -> nat, u: Users, s: nat): int {
    cfg.toInt(TextOf(cfg, rank, u, s), BaseOf(cfg.sym(s).origType))
  }

  ghost predicate LessThan(cfg: Config, rank: Cell -> nat, u: Users, a: nat, b: nat) {
    if Numeric(cfg, rank, u, a, b) then NumberOf(cfg, rank, u, a) < NumberOf(cfg, rank, u, b)
    else Before(TextOf(cfg, rank, u, a), TextOf(cfg, rank, u, b))
  }

  ghost predicate SameAs(cfg: Config, rank: Cell -> nat, u: Users, a: nat, b: nat) {
    if Numeric(cfg, rank, u, a, b) then NumberOf(cfg, rank, u, a) == NumberOf(cfg, rank, u, b)
    else TextOf(cfg, rank, u, a) == TextOf(cfg, rank, u, b)
  }

  lemma RelationLevel(cfg: Config, rank: Cell -> nat, u: Users, rel: Relation, a: nat, b: nat)
    ensures Level(cfg, rank, u, REL(rel, a, b))
         == if (match rel
                case EQUAL => SameAs(cfg, rank, u, a, b)
                case UNEQUAL => !SameAs(cfg, rank, u, a, b)
                case LESS => LessThan(cfg, rank, u, a, b)
                case LESS_EQUAL => LessThan(cfg, rank, u, a, b) || SameAs(cfg, rank, u, a, b)
                case GREATER => LessThan(cfg, rank, u, b, a)
                case GREATER_EQUAL => LessThan(cfg, rank, u, b, a) || SameAs(cfg, rank, u, a, b))
            then 2 else 0
  {
    var ta, tb, s, t := cfg.sym(a).origType, cfg.sym(b).origType, TextOf(cfg, rank, u, a), TextOf(cfg, rank, u, b);
    StrCmpBefore(s, t);
    var left, right := Get(StrV(a)), Get(StrV(b));
    assert Run(cfg, rank, u, left) == Eval(cfg, rank, u, StrV(a));
    assert Run(cfg, rank, u, right) == Eval(cfg, rank, u, StrV(b));
    assert Run(cfg, rank, u, Bin(ORel(rel, ta, tb), left, right))
        == Apply(cfg, ORel(rel, ta, tb), Eval(cfg, rank, u, StrV(a)), Eval(cfg, rank, u, StrV(b)));
    assert Value(cfg, REL(rel, a, b)) == Bin(ORel(rel, ta, tb), left, right);
  }

  /** expr_value: minimum, maximum and complement of the values of the leaves. */
  lemma ExprLevel(cfg: Config, rank: Cell -> nat, u: Users, e: Expr)
    requires Ready(cfg, rank, u)
    ensures match e
            case Leaf(i) => Level(cfg, rank, u, e) == ItemLevel(cfg, rank, u, i)
            case AND(l, r) => Level(cfg, rank, u, e) == Min(Level(cfg, rank, u, l), Level(cfg, rank, u, r))
            case OR(l, r) => Level(cfg, rank, u, e) == Max(Level(cfg, rank, u, l), Level(cfg, rank, u, r))
            case NOT(x) => Level(cfg, rank, u, e) == 2 - Level(cfg, rank, u, x)
            case REL(_, _, _) => Level(cfg, rank, u, e) == 0 || Level(cfg, rank, u, e) == 2
  {
    match e
    case AND(l, r) => LevelIsTri(cfg, rank, u, l); LevelIsTri(cfg, rank, u, r);
    case OR(l, r) => LevelIsTri(cfg, rank, u, l); LevelIsTri(cfg, rank, u, r);
    case NOT(x) =>
      LevelIsTri(cfg, rank, u, x);
      assert Run(cfg, rank, u, TWO) == VT(2);
    case REL(rel, a, b) => RelationLevel(cfg, rank, u, rel, a, b);
    case Leaf(i) =>
  }

  /** The value that the parser's laws speak of is the one the getters compute. */
  lemma {:induction false} ValueAgrees(cfg: Config, rank: Cell -> nat, u: Users, e: Expr, tri: Item -> P.Tri,
                                       holds: (Relation, nat, nat) -> bool)
    requires Ready(cfg, rank, u) && forall i :: tri(i) == ItemLevel(cfg, rank, u, i)
    requires forall rel, a, b :: holds(rel, a, b) <==> Level(cfg, rank, u, REL(rel, a, b)) == 2
    ensures P.ExprValue(e, tri, holds) == Level(cfg, rank, u, e)
  {
    ExprLevel(cfg, rank, u, e);
    match e
    case AND(l, r) => ValueAgrees(cfg, rank, u, l, tri, holds); ValueAgrees(cfg, rank, u, r, tri, holds);
    case OR(l, r) => ValueAgrees(cfg, rank, u, l, tri, holds); ValueAgrees(cfg, rank, u, r, tri, holds);
    case NOT(x) => ValueAgrees(cfg, rank, u, x, tri, holds);
    case Leaf(_) =>
    case REL(_, _, _) =>
  }

  // ----- lists of alternatives -----

  /** The first index in ds whose condition holds, or |ds|. */
  ghost predicate First(cfg: Config, rank: Cell -> nat, u: Users, conds: seq<Expr>, k: nat) {
    && k <= |conds|
    && (forall j :: 0 <= j < k ==> Level(cfg, rank, u, conds[j]) == 0)
    && (k < |conds| ==> Level(cfg, rank, u, conds[k]) != 0)
  }

  function Conditions<T>(ds: seq<(T, Expr)>): (r: seq<Expr>)
    ensures |r| == |ds| && forall k :: 0 <= k < |ds| ==> r[k] == ds[k].1
  {
    seq(|ds|, k requires 0 <= k < |ds| => ds[k].1)
  }

  lemma FirstShift(cfg: Config, rank: Cell -> nat, u: Users, conds: seq<Expr>, k: nat)
    requires First(cfg, rank, u, conds, k) && k > 0
    ensures First(cfg, rank, u, conds[1..], k - 1)
  {
  }

  /** The default of a bool or tristate symbol: the minimum of value and condition of the first
      default whose condition holds. */
  ghost function DefaultAt(cfg: Config, rank: Cell -> nat, u: Users, ds: seq<(Expr, Expr)>, k: nat): int {
    if k < |ds| then Min(Level(cfg, rank, u, ds[k].0), Level(cfg, rank, u, ds[k].1)) else 0
  }

  lemma {:induction false} RunFirst(cfg: Config, rank: Cell -> nat, u: Users, cond: Term, val: Term, rest: Term)
    ensures Run(cfg, rank, u, Branch(KFirst, cond, val, rest))
         == if T(Run(cfg, rank, u, cond)) != 0
            then VT(Min(T(Run(cfg, rank, u, val)), T(Run(cfg, rank, u, cond)))) else Run(cfg, rank, u, rest)
  {
  }

  lemma DefaultShift(cfg: Config, rank: Cell -> nat, u: Users, ds: seq<(Expr, Expr)>, k: nat)
    requires First(cfg, rank, u, Conditions(ds), k) && k > 0
    ensures First(cfg, rank, u, Conditions(ds[1..]), k - 1)
    ensures DefaultAt(cfg, rank, u, ds[1..], k - 1) == DefaultAt(cfg, rank, u, ds, k)
  {
    FirstShift(cfg, rank, u, Conditions(ds), k);
    assert Conditions(ds)[1..] == Conditions(ds[1..]);
  }

  lemma {:induction false} TriDefaultMeans(cfg: Config, rank: Cell -> nat, u: Users, ds: seq<(Expr, Expr)>, k: nat)
    requires Ready(cfg, rank, u) && First(cfg, rank, u, Conditions(ds), k)
    ensures Run(cfg, rank, u, TriDefault(cfg, ds)) == VT(DefaultAt(cfg, rank, u, ds, k))
  {
    if ds != [] {
      var rest := TriDefault(cfg, ds[1..]);
      assert T(Run(cfg, rank, u, Value(cfg, ds[0].1))) == Level(cfg, rank, u, Conditions(ds)[0]);
      RunFirst(cfg, rank, u, Value(cfg, ds[0].1), Value(cfg, ds[0].0), rest);
      if k > 0 {
        DefaultShift(cfg, rank, u, ds, k);
        TriDefaultMeans(cfg, rank, u, ds[1..], k - 1);
      }
    }
  }

  /** The value of a bool or tristate symbol outside of choices that has no user value, or that is
      invisible: from its first default in effect, from implies if its direct dependencies are
      met, and from selects; m counts as y for symbols without m. */
  lemma UnassignedValue(cfg: Config, rank: Cell -> nat, u: Users, s: nat, k: nat)
    requires Ready(cfg, rank, u) && Ordinary(cfg, s)
    requires UserValue(u, S(s)) == VNone || VisOf(cfg, rank, u, s) == 0
    requires First(cfg, rank, u, Conditions(cfg.sym(s).defaults), k)
    ensures var d := cfg.sym(s);
            var implied := if Level(cfg, rank, u, d.directDep) != 0 then Level(cfg, rank, u, d.weakRevDep) else 0;
            var val := Max(Max(DefaultAt(cfg, rank, u, d.defaults, k), implied), Level(cfg, rank, u, d.revDep));
            TriOf(cfg, rank, u, s)
            == if val == 1 && (CountsAsBool(cfg, rank, u, s) || Level(cfg, rank, u, d.weakRevDep) == 2) then 2 else val
  {
    var d := cfg.sym(s);
    PartsAreTri(cfg, rank, u, s);
    NoMMeans(cfg, rank, u, s);
    UnsetMeans(cfg, rank, u, s, k);
    OwnValue(cfg, rank, u, s);
    EvalIsRun(cfg, rank, u, TriV(s));
    assert Body(cfg, TriV(s)) == Branch(KPromote, Bin(OMax, Own(cfg, s), Value(cfg, d.revDep)), NoM(cfg, s), ZERO);
  }

  // What Symbol.tri_value has before selects are looked at.
  function Own(cfg: Config, s: nat): Term {
    var vis, user := Get(Vis(S(s))), User(S(s));
    If(Both(vis, Bin(ONe, user, Lit(VNone))), Bin(OMin, user, vis), Unset(cfg, s))
  }

  lemma {:induction false} OwnValue(cfg: Config, rank: Cell -> nat, u: Users, s: nat)
    requires Ready(cfg, rank, u) && (UserValue(u, S(s)) == VNone || VisOf(cfg, rank, u, s) == 0)
    ensures Run(cfg, rank, u, Own(cfg, s)) == Run(cfg, rank, u, Unset(cfg, s))
  {
    var vis, user := Get(Vis(S(s))), User(S(s));
    ValuesAreTri(cfg, rank, u, Vis(S(s)));
    var given, limited := Bin(ONe, user, Lit(VNone)), Bin(OMin, user, vis);
    RunIf(cfg, rank, u, vis, given, ZERO);
    RunIf(cfg, rank, u, Both(vis, given), limited, Unset(cfg, s));
  }

  lemma {:induction false} UnsetMeans(cfg: Config, rank: Cell -> nat, u: Users, s: nat, k: nat)
    requires Ready(cfg, rank, u) && First(cfg, rank, u, Conditions(cfg.sym(s).defaults), k)
    ensures var d := cfg.sym(s);
            var implied := if Level(cfg, rank, u, d.directDep) != 0 then Level(cfg, rank, u, d.weakRevDep) else 0;
            Run(cfg, rank, u, Unset(cfg, s)) == VT(Max(DefaultAt(cfg, rank, u, d.defaults, k), implied))
  {
    var d := cfg.sym(s);
    TriDefaultMeans(cfg, rank, u, d.defaults, k);
    LevelIsTri(cfg, rank, u, d.weakRevDep);
    LevelIsTri(cfg, rank, u, d.directDep);
    var implied := Branch(KWhen, Value(cfg, d.weakRevDep), Value(cfg, d.directDep), ZERO);
    assert Unset(cfg, s) == Bin(OMax, TriDefault(cfg, d.defaults), implied);
  }

  /** Some alternative is always the first: there is exactly one such index. */
  lemma {:induction false} FirstExists(cfg: Config, rank: Cell -> nat, u: Users, conds: seq<Expr>) returns (k: nat)
    ensures First(cfg, rank, u, conds, k)
    ensures forall j: nat :: First(cfg, rank, u, conds, j) ==> j == k
  {
    k := 0;
    if conds != [] && Level(cfg, rank, u, conds[0]) == 0 {
      var n := FirstExists(cfg, rank, u, conds[1..]);
      k := n + 1;
    }
  }

  // ----- visibility, mode and type -----

  /** p is the highest of the levels of es, and 0 if there are none. */
  ghost predicate Highest(cfg: Config, rank: Cell -> nat, u: Users, es: seq<Expr>, p: int) {
    && (forall e :: e in es ==> Level(cfg, rank, u, e) <= p)
    && (p == 0 || exists e :: e in es && Level(cfg, rank, u, e) == p)
    && p >= 0
  }

  lemma {:induction false} PromptsMean(cfg: Config, rank: Cell -> nat, u: Users, es: seq<Expr>)
    requires Ready(cfg, rank, u)
    ensures Run(cfg, rank, u, PromptMax(cfg, es)).VT?
    ensures Highest(cfg, rank, u, es, T(Run(cfg, rank, u, PromptMax(cfg, es))))
  {
    if es != [] {
      LevelIsTri(cfg, rank, u, es[0]);
      PromptsMean(cfg, rank, u, es[1..]);
      assert es == [es[0]] + es[1..];
      var p := T(Run(cfg, rank, u, PromptMax(cfg, es[1..])));
      assert T(Run(cfg, rank, u, PromptMax(cfg, es))) == Max(Level(cfg, rank, u, es[0]), p);
      assert es[0] in es;
    }
  }

  ghost predicate ModulesOff(cfg: Config, rank: Cell -> nat, u: Users) {
    TriOf(cfg, rank, u, cfg.modules) == 0
  }

  /** Choice.type is BOOL. */
  ghost predicate BoolChoice(cfg: Config, rank: Cell -> nat, u: Users, ch: nat) {
    cfg.choice(ch).origType.BOOL? || (cfg.choice(ch).origType.TRISTATE? && ModulesOff(cfg, rank, u))
  }

  lemma {:induction false} BoolChoiceMeans(cfg: Config, rank: Cell -> nat, u: Users, ch: nat)
    requires Ready(cfg, rank, u)
    ensures Truthy(Run(cfg, rank, u, ChoiceIsBool(cfg, ch))) <==> BoolChoice(cfg, rank, u, ch)
  {
    ValuesAreTri(cfg, rank, u, TriV(cfg.modules));
    assert Run(cfg, rank, u, Is(Modules(cfg), 0)) == Flag(Eval(cfg, rank, u, TriV(cfg.modules)) == VT(0));
  }

  /** Symbol.type is BOOL: also for a tristate symbol without modules or in a choice in y mode. */
  lemma CountsAsBoolMeans(cfg: Config, rank: Cell -> nat, u: Users, s: nat)
    requires Ready(cfg, rank, u)
    ensures var d := cfg.sym(s);
            CountsAsBool(cfg, rank, u, s)
            <==> d.origType.BOOL?
                 || (d.origType.TRISTATE?
                     && (ModulesOff(cfg, rank, u) || (d.choice.Some? && ModeOf(cfg, rank, u, d.choice.value) == 2)))
  {
    var d := cfg.sym(s);
    ValuesAreTri(cfg, rank, u, TriV(cfg.modules));
    var noModules := Is(Modules(cfg), 0);
    assert Run(cfg, rank, u, noModules) == Flag(Eval(cfg, rank, u, TriV(cfg.modules)) == VT(0));
    if d.choice.Some? {
      var mode := Mode(cfg, d.choice.value);
      ModeIsTri(cfg, d.choice.value);
      TermIsTri(cfg, rank, u, mode);
      assert Run(cfg, rank, u, Is(mode, 2)) == Flag(ModeOf(cfg, rank, u, d.choice.value) == 2);
      RunIf(cfg, rank, u, Is(mode, 2), ONE, noModules);
    }
  }

  /** Choice.tri_value: at least m unless the choice is optional, at least the user's mode, at
      most the visibility; m counts as y for bool choices. */
  lemma ModeMeans(cfg: Config, rank: Cell -> nat, u: Users, ch: nat)
    requires Ready(cfg, rank, u)
    ensures var low := if cfg.choice(ch).optional then 0 else 1;
            var wanted := if UserValue(u, C(ch)) == VNone then low else Max(low, T(UserValue(u, C(ch))));
            var mode := Min(wanted, T(Eval(cfg, rank, u, Vis(C(ch)))));
            ModeOf(cfg, rank, u, ch) == if mode == 1 && BoolChoice(cfg, rank, u, ch) then 2 else mode
  {
    BoolChoiceMeans(cfg, rank, u, ch);
    var low := if cfg.choice(ch).optional then ZERO else ONE;
    var wanted := Bin(OMode, low, User(C(ch)));
    var limited := Bin(OMin, wanted, Get(Vis(C(ch))));
    assert Run(cfg, rank, u, low) == VT(if cfg.choice(ch).optional then 0 else 1);
    assert Run(cfg, rank, u, User(C(ch))) == UserValue(u, C(ch));
    assert Run(cfg, rank, u, wanted) == Apply(cfg, OMode, Run(cfg, rank, u, low), UserValue(u, C(ch)));
    assert Run(cfg, rank, u, limited) == VT(Min(T(Run(cfg, rank, u, wanted)), T(Eval(cfg, rank, u, Vis(C(ch))))));
    assert Mode(cfg, ch) == Branch(KPromote, limited, ChoiceIsBool(cfg, ch), ZERO);
  }

  /** The visibility of a symbol outside of choices: that of its highest prompt, where m counts as
      y unless the symbol is tristate. */
  lemma SymbolVisibility(cfg: Config, rank: Cell -> nat, u: Users, s: nat)
    requires Ready(cfg, rank, u) && cfg.sym(s).choice.None? && cfg.sym(s).constant.None?
    ensures exists p :: Highest(cfg, rank, u, cfg.sym(s).prompts, p)
              && VisOf(cfg, rank, u, s)
                 == if p == 1 && !(cfg.sym(s).origType.TRISTATE? && !CountsAsBool(cfg, rank, u, s)) then 2 else p
  {
    var d := cfg.sym(s);
    PromptsMean(cfg, rank, u, d.prompts);
    EvalIsRun(cfg, rank, u, Vis(S(s)));
    var prompts := PromptMax(cfg, d.prompts);
    var promote := if d.origType.TRISTATE? then IsBool(cfg, s) else ONE;
    assert Body(cfg, Vis(S(s))) == Branch(KPromote, prompts, promote, ZERO);
  }

  /** The same for a choice. */
  lemma ChoiceVisibility(cfg: Config, rank: Cell -> nat, u: Users, ch: nat)
    requires Ready(cfg, rank, u)
    ensures exists p :: Highest(cfg, rank, u, cfg.choice(ch).prompts, p)
              && T(Eval(cfg, rank, u, Vis(C(ch))))
                 == if p == 1 && !(cfg.choice(ch).origType.TRISTATE? && !BoolChoice(cfg, rank, u, ch)) then 2 else p
  {
    var d := cfg.choice(ch);
    PromptsMean(cfg, rank, u, d.prompts);
    BoolChoiceMeans(cfg, rank, u, ch);
    EvalIsRun(cfg, rank, u, Vis(C(ch)));
    var prompts := PromptMax(cfg, d.prompts);
    var promote := if d.origType.TRISTATE? then ChoiceIsBool(cfg, ch) else ONE;
    assert Body(cfg, Vis(C(ch))) == Branch(KPromote, prompts, promote, ZERO);
  }

  // ----- the selection of a choice -----

  /** The first default symbol that is visible and whose condition holds, or |ds|. */
  ghost predicate FirstDefault(cfg: Config, rank: Cell -> nat, u: Users, ds: seq<(nat, Expr)>, k: nat) {
    && k <= |ds|
    && (forall j :: 0 <= j < k ==> Level(cfg, rank, u, ds[j].1) == 0 || VisOf(cfg, rank, u, ds[j].0) == 0)
    && (k < |ds| ==> Level(cfg, rank, u, ds[k].1) != 0 && VisOf(cfg, rank, u, ds[k].0) != 0)
  }

  /** The first visible symbol, or |syms|. */
  ghost predicate FirstVisible(cfg: Config, rank: Cell -> nat, u: Users, syms: seq<nat>, k: nat) {
    && k <= |syms|
    && (forall j :: 0 <= j < k ==> VisOf(cfg, rank, u, syms[j]) == 0)
    && (k < |syms| ==> VisOf(cfg, rank, u, syms[k]) != 0)
  }

  lemma {:induction false} VisibleMeans(cfg: Config, rank: Cell -> nat, u: Users, syms: seq<nat>, k: nat)
    requires Ready(cfg, rank, u) && FirstVisible(cfg, rank, u, syms, k)
    ensures Run(cfg, rank, u, SelectVisible(syms)) == if k < |syms| then VSym(syms[k]) else VNone
  {
    if syms != [] {
      ValuesAreTri(cfg, rank, u, Vis(S(syms[0])));
      RunIf(cfg, rank, u, Get(Vis(S(syms[0]))), Lit(VSym(syms[0])), SelectVisible(syms[1..]));
      assert Run(cfg, rank, u, Get(Vis(S(syms[0])))) == Eval(cfg, rank, u, Vis(S(syms[0])));
      if k > 0 { VisibleMeans(cfg, rank, u, syms[1..], k - 1); }
    }
  }

  lemma {:induction false} ByDefaultMeans(cfg: Config, rank: Cell -> nat, u: Users, ds: seq<(nat, Expr)>,
                                          otherwise: Term, k: nat)
    requires Ready(cfg, rank, u) && FirstDefault(cfg, rank, u, ds, k)
    ensures Run(cfg, rank, u, SelectByDefault(cfg, ds, otherwise))
         == if k < |ds| then VSym(ds[k].0) else Run(cfg, rank, u, otherwise)
  {
    if ds != [] {
      var s, cond, vis := ds[0].0, Value(cfg, ds[0].1), Get(Vis(S(ds[0].0)));
      LevelIsTri(cfg, rank, u, ds[0].1);
      ValuesAreTri(cfg, rank, u, Vis(S(s)));
      RunIf(cfg, rank, u, cond, vis, ZERO);
      assert Run(cfg, rank, u, vis) == Eval(cfg, rank, u, Vis(S(s)));
      RunIf(cfg, rank, u, Both(cond, vis), Lit(VSym(s)), SelectByDefault(cfg, ds[1..], otherwise));
      if k > 0 { ByDefaultMeans(cfg, rank, u, ds[1..], otherwise, k - 1); }
    }
  }

  lemma {:induction false} ByUserMeans(cfg: Config, rank: Cell -> nat, u: Users, ch: nat, syms: seq<nat>,
                                       otherwise: Term)
    ensures Run(cfg, rank, u, SelectByUser(ch, syms, otherwise))
         == if ch in u.selection && u.selection[ch] in syms
               && Eval(cfg, rank, u, Vis(S(u.selection[ch]))) == VT(2)
            then VSym(u.selection[ch]) else Run(cfg, rank, u, otherwise)
  {
    if syms != [] {
      var s := syms[0];
      ByUserMeans(cfg, rank, u, ch, syms[1..], otherwise);
      var picked, full := Bin(OEq, UserSel(ch), Lit(VSym(s))), Is(Get(Vis(S(s))), 2);
      assert Run(cfg, rank, u, full) == Flag(Eval(cfg, rank, u, Vis(S(s))) == VT(2));
      assert Run(cfg, rank, u, picked) == Flag(UserSelection(u, ch) == VSym(s));
      RunIf(cfg, rank, u, full, Lit(VSym(s)), otherwise);
      RunIf(cfg, rank, u, picked, If(full, Lit(VSym(s)), otherwise), SelectByUser(ch, syms[1..], otherwise));
      assert syms == [s] + syms[1..];
    }
  }

  lemma {:induction false} ModeTest(cfg: Config, rank: Cell -> nat, u: Users, ch: nat)
    requires Ready(cfg, rank, u)
    ensures Run(cfg, rank, u, IsNot(Mode(cfg, ch), 2)) == Flag(ModeOf(cfg, rank, u, ch) != 2)
  {
    ModeIsTri(cfg, ch);
    TermIsTri(cfg, rank, u, Mode(cfg, ch));
  }

  /** The selection of a choice in y mode: what the user selected, if it is fully visible; else the
      first default in effect that is visible; else the first visible symbol. */
  lemma SelectionMeans(cfg: Config, rank: Cell -> nat, u: Users, ch: nat, k: nat, j: nat)
    requires Ready(cfg, rank, u)
    requires FirstDefault(cfg, rank, u, cfg.choice(ch).defaults, k)
    requires FirstVisible(cfg, rank, u, cfg.choice(ch).syms, j)
    ensures var d := cfg.choice(ch);
            Eval(cfg, rank, u, Selection(ch))
            == if ModeOf(cfg, rank, u, ch) != 2 then VNone
               else if ch in u.selection && VisOf(cfg, rank, u, u.selection[ch]) == 2 then VSym(u.selection[ch])
               else if k < |d.defaults| then VSym(d.defaults[k].0)
               else if j < |d.syms| then VSym(d.syms[j])
               else VNone
  {
    var d := cfg.choice(ch);
    var visible := SelectVisible(d.syms);
    var byDefault := SelectByDefault(cfg, d.defaults, visible);
    VisibleMeans(cfg, rank, u, d.syms, j);
    ByDefaultMeans(cfg, rank, u, d.defaults, visible, k);
    ByUserMeans(cfg, rank, u, ch, d.syms, byDefault);
    if ch in u.selection { ValuesAreTri(cfg, rank, u, Vis(S(u.selection[ch]))); }
    ModeTest(cfg, rank, u, ch);
    EvalIsRun(cfg, rank, u, Selection(ch));
    RunIf(cfg, rank, u, IsNot(Mode(cfg, ch), 2), Lit(VNone), SelectByUser(ch, d.syms, byDefault));
  }

  // ----- assignable values of choices and their symbols -----

  /** The modes that can be assigned to a choice. */
  lemma ChoiceAssignableMeans(cfg: Config, rank: Cell -> nat, u: Users, ch: nat)
    requires Ready(cfg, rank, u)
    ensures var vis := T(Eval(cfg, rank, u, Vis(C(ch))));
            Eval(cfg, rank, u, Assignable(C(ch)))
            == VTuple(if vis == 0 then []
                      else (if cfg.choice(ch).optional then [0] else [])
                           + (if vis == 1 || !BoolChoice(cfg, rank, u, ch) then [1] else [])
                           + (if vis == 2 then [2] else []))
  {
    var vis, isBool, optional := Get(Vis(C(ch))), ChoiceIsBool(cfg, ch), cfg.choice(ch).optional;
    BoolChoiceMeans(cfg, rank, u, ch);
    ValuesAreTri(cfg, rank, u, Vis(C(ch)));
    EvalIsRun(cfg, rank, u, Assignable(C(ch)));
    var free, bound := If(isBool, Tuple([0, 2]), Tuple([0, 1, 2])), If(isBool, Tuple([2]), Tuple([1, 2]));
    RunIf(cfg, rank, u, isBool, Tuple([0, 2]), Tuple([0, 1, 2]));
    RunIf(cfg, rank, u, isBool, Tuple([2]), Tuple([1, 2]));
    var atY, atM := if optional then free else bound, if optional then Tuple([0, 1]) else Tuple([1]);
    RunIf(cfg, rank, u, Is(vis, 2), atY, atM);
    RunIf(cfg, rank, u, Is(vis, 0), Tuple([]), If(Is(vis, 2), atY, atM));
    assert Run(cfg, rank, u, Is(vis, 2)) == Flag(Eval(cfg, rank, u, Vis(C(ch))) == VT(2));
    assert Run(cfg, rank, u, Is(vis, 0)) == Flag(Eval(cfg, rank, u, Vis(C(ch))) == VT(0));
  }

  /** A fully visible choice symbol can be set to y and nothing else. */
  lemma ChoiceSymAssignable(cfg: Config, rank: Cell -> nat, u: Users, s: nat)
    requires Ready(cfg, rank, u) && cfg.sym(s).choice.Some? && VisOf(cfg, rank, u, s) != 1
    ensures Eval(cfg, rank, u, Assignable(S(s))) == VTuple(if VisOf(cfg, rank, u, s) == 2 then [2] else [])
  {
    var vis, rev := Get(Vis(S(s))), Value(cfg, cfg.sym(s).revDep);
    ValuesAreTri(cfg, rank, u, Vis(S(s)));
    EvalIsRun(cfg, rank, u, Assignable(S(s)));
    var at := If(Is(vis, 2), AssignableAtY(cfg, s), AssignableAtM(cfg, s));
    RunIf(cfg, rank, u, Is(vis, 2), AssignableAtY(cfg, s), AssignableAtM(cfg, s));
    RunIf(cfg, rank, u, Is(vis, 0), Tuple([]), Bin(OThen, rev, at));
    assert Run(cfg, rank, u, Is(vis, 2)) == Flag(Eval(cfg, rank, u, Vis(S(s))) == VT(2));
    assert Run(cfg, rank, u, Is(vis, 0)) == Flag(Eval(cfg, rank, u, Vis(S(s))) == VT(0));
    assert Run(cfg, rank, u, Bin(OThen, rev, at)) == Run(cfg, rank, u, at);
  }

  // ----- strings and numbers -----

  /** A bool or tristate symbol is n, m or y. */
  lemma TriText(cfg: Config, rank: Cell -> nat, u: Users, s: nat)
    requires Ready(cfg, rank, u) && cfg.sym(s).constant.None?
    requires cfg.sym(s).origType.BOOL? || cfg.sym(s).origType.TRISTATE?
    ensures Eval(cfg, rank, u, StrV(s))
         == VS(if TriOf(cfg, rank, u, s) == 0 then "n" else if TriOf(cfg, rank, u, s) == 1 then "m" else "y")
  {
    EvalIsRun(cfg, rank, u, StrV(s));
  }

  /** Constants and undefined symbols are their names. */
  lemma NameText(cfg: Config, rank: Cell -> nat, u: Users, s: nat)
    requires Ready(cfg, rank, u) && (cfg.sym(s).constant.Some? || cfg.sym(s).origType.UNKNOWN?)
    ensures Eval(cfg, rank, u, StrV(s)) == VS(cfg.sym(s).name)
  {
    EvalIsRun(cfg, rank, u, StrV(s));
  }

  /** The text of the default in effect. */
  ghost function DefaultText(cfg: Config, rank: Cell -> nat, u: Users, ds: seq<(Expr, Expr)>, k: nat): Val {
    if k < |ds| && ds[k].0.Leaf? && ds[k].0.item.S? then Eval(cfg, rank, u, StrV(ds[k].0.item.id)) else VS("")
  }

  lemma {:induction false} StrDefaultMeans(cfg: Config, rank: Cell -> nat, u: Users, ds: seq<(Expr, Expr)>, k: nat)
    requires Ready(cfg, rank, u) && First(cfg, rank, u, Conditions(ds), k)
    ensures Run(cfg, rank, u, StrDefault(cfg, ds)) == DefaultText(cfg, rank, u, ds, k)
  {
    if ds != [] {
      LevelIsTri(cfg, rank, u, ds[0].1);
      RunIf(cfg, rank, u, Value(cfg, ds[0].1), StrOf(ds[0].0), StrDefault(cfg, ds[1..]));
      if k > 0 {
        FirstShift(cfg, rank, u, Conditions(ds), k);
        assert Conditions(ds)[1..] == Conditions(ds[1..]);
        StrDefaultMeans(cfg, rank, u, ds[1..], k - 1);
      }
    }
  }

  /** The user value of a visible string symbol counts, else the text of its first default in
      effect. */
  lemma StringValue(cfg: Config, rank: Cell -> nat, u: Users, s: nat, k: nat)
    requires Ready(cfg, rank, u) && cfg.sym(s).constant.None? && cfg.sym(s).origType.STRING?
    requires First(cfg, rank, u, Conditions(cfg.sym(s).defaults), k)
    ensures Eval(cfg, rank, u, StrV(s))
         == if VisOf(cfg, rank, u, s) != 0 && UserValue(u, S(s)) != VNone then UserValue(u, S(s))
            else DefaultText(cfg, rank, u, cfg.sym(s).defaults, k)
  {
    var vis, user, d := Get(Vis(S(s))), User(S(s)), cfg.sym(s);
    StrDefaultMeans(cfg, rank, u, d.defaults, k);
    ValuesAreTri(cfg, rank, u, Vis(S(s)));
    EvalIsRun(cfg, rank, u, StrV(s));
    var given := Bin(ONe, user, Lit(VNone));
    assert Run(cfg, rank, u, given) == Flag(UserValue(u, S(s)) != VNone);
    RunIf(cfg, rank, u, vis, given, ZERO);
    RunIf(cfg, rank, u, Both(vis, given), user, StrDefault(cfg, d.defaults));
  }

  ghost function NumberIn(cfg: Config, text: string, typ: Type): int {
    if cfg.isBase(text, BaseOf(typ)) then cfg.toInt(text, BaseOf(typ)) else 0
  }

  /** The range in effect, if there is one: low and high, or what nothing bounds. */
  ghost predicate InRange(cfg: Config, rank: Cell -> nat, u: Users, s: nat, k: nat, n: int) {
    var d := cfg.sym(s);
    k < |d.ranges| ==> Low(cfg, rank, u, s, k) <= n <= High(cfg, rank, u, s, k)
  }

  ghost function Low(cfg: Config, rank: Cell -> nat, u: Users, s: nat, k: nat): int
    requires k < |cfg.sym(s).ranges|
  {
    NumberIn(cfg, TextOf(cfg, rank, u, cfg.sym(s).ranges[k].0), cfg.sym(s).origType)
  }

  ghost function High(cfg: Config, rank: Cell -> nat, u: Users, s: nat, k: nat): int
    requires k < |cfg.sym(s).ranges|
  {
    NumberIn(cfg, TextOf(cfg, rank, u, cfg.sym(s).ranges[k].1), cfg.sym(s).origType)
  }

  function RangeConditions(rs: seq<(nat, nat, Expr)>): (r: seq<Expr>)
    ensures |r| == |rs| && forall k :: 0 <= k < |rs| ==> r[k] == rs[k].2
  {
    seq(|rs|, k requires 0 <= k < |rs| => rs[k].2)
  }

  lemma {:induction false} RangeRun(cfg: Config, rank: Cell -> nat, u: Users, typ: Type, a: nat, b: nat)
    ensures Run(cfg, rank, u, Bin(ORange(typ), Get(StrV(a)), Get(StrV(b))))
         == VRange(NumberIn(cfg, TextOf(cfg, rank, u, a), typ), NumberIn(cfg, TextOf(cfg, rank, u, b), typ))
  {
    assert Run(cfg, rank, u, Get(StrV(a))) == Eval(cfg, rank, u, StrV(a));
    assert Run(cfg, rank, u, Get(StrV(b))) == Eval(cfg, rank, u, StrV(b));
  }

  /** The range in effect, or None. */
  ghost function RangeAt(cfg: Config, rank: Cell -> nat, u: Users, typ: Type, rs: seq<(nat, nat, Expr)>, k: nat): Val {
    if k < |rs| then VRange(NumberIn(cfg, TextOf(cfg, rank, u, rs[k].0), typ),
                            NumberIn(cfg, TextOf(cfg, rank, u, rs[k].1), typ))
    else VNone
  }

  lemma RangeShift(cfg: Config, rank: Cell -> nat, u: Users, typ: Type, rs: seq<(nat, nat, Expr)>, k: nat)
    requires First(cfg, rank, u, RangeConditions(rs), k) && k > 0
    ensures First(cfg, rank, u, RangeConditions(rs[1..]), k - 1)
    ensures RangeAt(cfg, rank, u, typ, rs[1..], k - 1) == RangeAt(cfg, rank, u, typ, rs, k)
  {
    FirstShift(cfg, rank, u, RangeConditions(rs), k);
    assert RangeConditions(rs)[1..] == RangeConditions(rs[1..]);
  }

  lemma {:induction false} RangeMeans(cfg: Config, rank: Cell -> nat, u: Users, typ: Type, rs: seq<(nat, nat, Expr)>,
                                      k: nat)
    requires Ready(cfg, rank, u) && First(cfg, rank, u, RangeConditions(rs), k)
    ensures Run(cfg, rank, u, ActiveRange(cfg, typ, rs)) == RangeAt(cfg, rank, u, typ, rs, k)
  {
    if rs != [] {
      var here := Bin(ORange(typ), Get(StrV(rs[0].0)), Get(StrV(rs[0].1)));
      RangeRun(cfg, rank, u, typ, rs[0].0, rs[0].1);
      LevelIsTri(cfg, rank, u, RangeConditions(rs)[0]);
      RunIf(cfg, rank, u, Value(cfg, rs[0].2), here, ActiveRange(cfg, typ, rs[1..]));
      if k > 0 {
        RangeShift(cfg, rank, u, typ, rs, k);
        RangeMeans(cfg, rank, u, typ, rs[1..], k - 1);
      }
    }
  }

  /** The user's number counts if the symbol is visible and the number well-formed and within the
      range in effect. */
  ghost predicate UserCounts(cfg: Config, rank: Cell -> nat, u: Users, s: nat, k: nat) {
    var d, v := cfg.sym(s), UserValue(u, S(s));
    && VisOf(cfg, rank, u, s) != 0 && v.VS? && cfg.isBase(v.s, BaseOf(d.origType))
    && InRange(cfg, rank, u, s, k, cfg.toInt(v.s, BaseOf(d.origType)))
  }

  lemma FitsRange(cfg: Config, typ: Type, range: Val, v: Val)
    ensures Truthy(Apply(cfg, OFits(typ), range, v))
            <==> v.VS? && cfg.isBase(v.s, BaseOf(typ))
                 && (range.VRange? ==> range.low <= cfg.toInt(v.s, BaseOf(typ)) <= range.high)
  {
  }

  lemma Clamped(cfg: Config, typ: Type, range: Val, v: Val)
    requires typ.INT? || typ.HEX?
    ensures var n := NumberIn(cfg, Text(v), typ);
            Apply(cfg, OClamp(typ), range, v)
            == if range.VRange? && n < range.low then VS(Written(cfg, typ, range.low))
               else if range.VRange? && n > range.high then VS(Written(cfg, typ, range.high))
               else v
  {
  }

  /** Else the default in effect counts, raised to the low end or lowered to the high end of the
      range in effect. */
  lemma NumberValue(cfg: Config, rank: Cell -> nat, u: Users, s: nat, k: nat, j: nat)
    requires Ready(cfg, rank, u) && cfg.sym(s).constant.None?
    requires cfg.sym(s).origType.INT? || cfg.sym(s).origType.HEX?
    requires First(cfg, rank, u, Conditions(cfg.sym(s).defaults), k)
    requires First(cfg, rank, u, RangeConditions(cfg.sym(s).ranges), j)
    ensures var d, v := cfg.sym(s), Eval(cfg, rank, u, StrV(s));
            var given := DefaultText(cfg, rank, u, d.defaults, k);
            var n := NumberIn(cfg, Text(given), d.origType);
            v == if UserCounts(cfg, rank, u, s, j) then UserValue(u, S(s))
                 else if InRange(cfg, rank, u, s, j, n) then given
                 else VS(Written(cfg, d.origType, if n < Low(cfg, rank, u, s, j) then Low(cfg, rank, u, s, j)
                                                  else High(cfg, rank, u, s, j)))
  {
    var d := cfg.sym(s);
    StrDefaultMeans(cfg, rank, u, d.defaults, k);
    RangeMeans(cfg, rank, u, d.origType, d.ranges, j);
    ValuesAreTri(cfg, rank, u, Vis(S(s)));
    NumberRun(cfg, rank, u, s);
    var range := Run(cfg, rank, u, ActiveRange(cfg, d.origType, d.ranges));
    FitsRange(cfg, d.origType, range, UserValue(u, S(s)));
    Clamped(cfg, d.origType, range, DefaultText(cfg, rank, u, d.defaults, k));
  }

  // The order in which user value, range and default are looked at.
  lemma {:induction false} NumberRun(cfg: Config, rank: Cell -> nat, u: Users, s: nat)
    requires Ready(cfg, rank, u) && cfg.sym(s).constant.None?
    requires cfg.sym(s).origType.INT? || cfg.sym(s).origType.HEX?
    ensures var typ := cfg.sym(s).origType;
            var range := Run(cfg, rank, u, ActiveRange(cfg, typ, cfg.sym(s).ranges));
            Eval(cfg, rank, u, StrV(s))
            == if Truthy(Eval(cfg, rank, u, Vis(S(s)))) && Truthy(Apply(cfg, OFits(typ), range, UserValue(u, S(s))))
               then UserValue(u, S(s))
               else Apply(cfg, OClamp(typ), range, Run(cfg, rank, u, StrDefault(cfg, cfg.sym(s).defaults)))
  {
    var vis, user, d := Get(Vis(S(s))), User(S(s)), cfg.sym(s);
    var range, given := ActiveRange(cfg, d.origType, d.ranges), StrDefault(cfg, d.defaults);
    EvalIsRun(cfg, rank, u, StrV(s));
    var fits, clamped := Bin(OFits(d.origType), range, user), Bin(OClamp(d.origType), range, given);
    RunIf(cfg, rank, u, vis, fits, ZERO);
    RunIf(cfg, rank, u, Both(vis, fits), user, clamped);
    var chosen := If(Both(vis, fits), user, clamped);
    assert Body(cfg, StrV(s)) == Bin(OThen, vis, chosen);
    assert Run(cfg, rank, u, Bin(OThen, vis, chosen)) == Run(cfg, rank, u, chosen);
  }

  ghost function Written(cfg: Config, typ: Type, n: int): string {
    if typ.INT? then cfg.dec(n) else cfg.hex(n)
  }

  /** Constants have their value and nothing to assign; symbols that are neither bool nor tristate
      are n and have nothing to assign either. */
  lemma {:induction false} PlainValues(cfg: Config, rank: Cell -> nat, u: Users, s: nat)
    requires Ready(cfg, rank, u)
    requires cfg.sym(s).constant.Some? || !(cfg.sym(s).origType.BOOL? || cfg.sym(s).origType.TRISTATE?)
    ensures Eval(cfg, rank, u, TriV(s)) == VT(if cfg.sym(s).constant.Some? then cfg.sym(s).constant.value else 0)
    ensures Eval(cfg, rank, u, Assignable(S(s))) == VTuple([])
    ensures cfg.sym(s).constant.Some? ==> VisOf(cfg, rank, u, s) == 0
  {
    EvalIsRun(cfg, rank, u, TriV(s));
    EvalIsRun(cfg, rank, u, Assignable(S(s)));
    EvalIsRun(cfg, rank, u, Vis(S(s)));
  }

  // ----- which values set_value accepts -----

  lemma AcceptedValues(cfg: Config, v: Val)
    ensures ValidValue(cfg, BOOL, v) <==> v in {VT(0), VT(2)}
    ensures ValidValue(cfg, TRISTATE, v) <==> v in {VT(0), VT(1), VT(2)}
    ensures ValidValue(cfg, STRING, v) <==> exists text :: v == VS(text)
    ensures ValidValue(cfg, INT, v) <==> exists text :: v == VS(text) && cfg.isBase(text, 10)
    ensures ValidValue(cfg, HEX, v)
            <==> exists text :: v == VS(text) && cfg.isBase(text, 16) && cfg.toInt(text, 16) >= 0
    ensures !ValidValue(cfg, UNKNOWN, v)
  {
  }

  /** What assignable lists is accepted. */
  lemma OfferedIsAccepted(cfg: Config, rank: Cell -> nat, u: Users, s: nat, t: int)
    requires Ready(cfg, rank, u) && Ordinary(cfg, s)
    requires Eval(cfg, rank, u, Assignable(S(s))).VTuple? && t in Eval(cfg, rank, u, Assignable(S(s))).ts
    ensures ValidValue(cfg, cfg.sym(s).origType, VT(t))
  {
    AssignableTuple(cfg, rank, u, s);
    CountsAsBoolMeans(cfg, rank, u, s);
    PartsAreTri(cfg, rank, u, s);
    if VisOf(cfg, rank, u, s) == 1 { VisibleM(cfg, rank, u, s); }
  }

  // ----- what _build_dep registers -----

  /** e with item i replaced by the item j of the same kind. */
  function Renamed(e: Expr, i: Item, j: Item): Expr
    requires i.S? <==> j.S?
  {
    match e
    case Leaf(x) => Leaf(if x == i then j else x)
    case AND(l, r) => AND(Renamed(l, i, j), Renamed(r, i, j))
    case OR(l, r) => OR(Renamed(l, i, j), Renamed(r, i, j))
    case NOT(x) => NOT(Renamed(x, i, j))
    case REL(rel, a, b) => REL(rel, if S(a) == i then j.id else a, if S(b) == i then j.id else b)
  }

  /** The items of an expression are those whose replacement changes it. */
  lemma {:induction false} ItemsRenamed(e: Expr, i: Item, j: Item)
    requires i != j && (i.S? <==> j.S?)
    ensures i in ExprItems(e) <==> Renamed(e, i, j) != e
  {
    match e
    case AND(l, r) => ItemsRenamed(l, i, j); ItemsRenamed(r, i, j);
    case OR(l, r) => ItemsRenamed(l, i, j); ItemsRenamed(r, i, j);
    case NOT(x) => ItemsRenamed(x, i, j);
    case Leaf(_) =>
    case REL(_, _, _) =>
  }

  lemma {:induction false} ItemsOfExactly(es: seq<Expr>, i: Item)
    ensures i in ItemsOf(es) <==> exists e :: e in es && i in ExprItems(e)
  {
    if es != [] {
      ItemsOfExactly(es[1..], i);
      assert es[0] in es && forall e :: e in es <==> e == es[0] || e in es[1..];
    }
  }

  lemma {:induction false} DefaultItemsExactly(ds: seq<(Expr, Expr)>, i: Item)
    ensures i in DefaultItems(ds) <==> exists d :: d in ds && (i in ExprItems(d.0) || i in ExprItems(d.1))
  {
    if ds != [] {
      DefaultItemsExactly(ds[1..], i);
      assert ds == [ds[0]] + ds[1..];
    }
  }

  lemma {:induction false} RangeItemsExactly(rs: seq<(nat, nat, Expr)>, i: Item)
    ensures i in RangeItems(rs) <==> exists r :: r in rs && (i == S(r.0) || i == S(r.1) || i in ExprItems(r.2))
  {
    if rs != [] {
      RangeItemsExactly(rs[1..], i);
      assert rs == [rs[0]] + rs[1..];
    }
  }

  lemma {:induction false} ConditionItemsExactly(ds: seq<(nat, Expr)>, i: Item)
    ensures i in ConditionItems(ds) <==> exists d :: d in ds && i in ExprItems(d.1)
  {
    if ds != [] {
      ConditionItemsExactly(ds[1..], i);
      assert ds == [ds[0]] + ds[1..];
    }
  }

  lemma {:induction false} SymItemsExactly(ss: seq<nat>, i: Item)
    ensures i in SymItems(ss) <==> i.S? && i.id in ss
  {
    if ss != [] {
      SymItemsExactly(ss[1..], i);
      assert ss == [ss[0]] + ss[1..];
    }
  }

  /** Item j is told of changes to i if and only if j is defined, i is no constant, and i occurs in
      some prompt condition, default, range, select, imply or dependency of j, or, for a choice, in a
      prompt condition or the condition of a default, or among its symbols. */
  lemma DependentsExactly(cfg: Config, i: Item, j: Item)
    ensures j in Dependents(cfg, i)
            <==> && !(i.S? && cfg.sym(i.id).constant.Some?)
                 && (match j case S(s) => s in cfg.definedSyms case C(ch) => ch in cfg.choices)
                 && match j
                    case S(s) =>
                      var d := cfg.sym(s);
                      || (exists e :: e in d.prompts && i in ExprItems(e))
                      || (exists x :: x in d.defaults && (i in ExprItems(x.0) || i in ExprItems(x.1)))
                      || (exists r :: r in d.ranges && (i == S(r.0) || i == S(r.1) || i in ExprItems(r.2)))
                      || i in ExprItems(d.revDep) || i in ExprItems(d.weakRevDep) || i in ExprItems(d.directDep)
                    case C(ch) =>
                      var d := cfg.choice(ch);
                      || (exists e :: e in d.prompts && i in ExprItems(e))
                      || (exists x :: x in d.defaults && i in ExprItems(x.1))
                      || (i.S? && i.id in d.syms)
  {
    match j
    case S(s) =>
      ItemsOfExactly(cfg.sym(s).prompts, i);
      DefaultItemsExactly(cfg.sym(s).defaults, i);
      RangeItemsExactly(cfg.sym(s).ranges, i);
    case C(ch) =>
      ItemsOfExactly(cfg.choice(ch).prompts, i);
      ConditionItemsExactly(cfg.choice(ch).defaults, i);
      SymItemsExactly(cfg.choice(ch).syms, i);
  }
}
