/** Symbols, choices and their computed properties in tools/kconfig_new/kconfiglib.py.

    A property (visibility, tri_value, str_value, assignable, selection) is a `Cell`. What
    its getter computes is a small program, a `Term`, whose only effects are the reads it
    makes: of other properties and of user settings. A term reads in the order and with the
    short cuts of the getter, so "what was actually read" is part of the model. */
module KconfiglibModel {
  import opened Basics

  datatype Type = UNKNOWN | BOOL | TRISTATE | STRING | INT | HEX

  /** Symbols and choices. */
  datatype Item = S(id: nat) | C(id: nat)

  datatype Relation = EQUAL | UNEQUAL | LESS | LESS_EQUAL | GREATER | GREATER_EQUAL

  datatype Expr =
    | Leaf(item: Item)
    | AND(l: Expr, r: Expr)
    | OR(l: Expr, r: Expr)
    | NOT(e: Expr)
    | REL(rel: Relation, a: nat, b: nat)

  datatype SymDef = SymDef(
    name: string,
    origType: Type,
    constant: Option<nat>,  // tristate value of a constant symbol
    prompts: seq<Expr>,  // condition of the prompt of each node that has one
    defaults: seq<(Expr, Expr)>,  // value and condition
    ranges: seq<(nat, nat, Expr)>,  // low and high symbol, and condition
    revDep: Expr,
    weakRevDep: Expr,
    directDep: Expr,
    choice: Option<nat>,
    hasEnv: bool)

  datatype ChoiceDef = ChoiceDef(
    origType: Type,
    optional: bool,
    prompts: seq<Expr>,
    defaults: seq<(nat, Expr)>,
    syms: seq<nat>)

  /** A finalized configuration, with the number parsing of the language runtime. */
  datatype Config = Config(
    sym: nat -> SymDef,
    choice: nat -> ChoiceDef,
    definedSyms: seq<nat>,
    choices: seq<nat>,
    modules: nat,
    isBase: (string, nat) -> bool,
    toInt: (string, nat) -> int,
    dec: int -> string,
    hex: int -> string)

  datatype Cell =
    | Vis(item: Item)
    | TriV(sym: nat)
    | StrV(sym: nat)
    | Assignable(item: Item)
    | Selection(choice: nat)

  function ItemOf(c: Cell): Item {
    match c
    case Vis(i) => i
    case TriV(s) => S(s)
    case StrV(s) => S(s)
    case Assignable(i) => i
    case Selection(ch) => C(ch)
  }

  datatype Val =
    | VNone
    | VT(t: int)
    | VS(s: string)
    | VSym(sym: nat)
    | VRange(low: int, high: int)
    | VTuple(ts: seq<int>)

  function T(v: Val): int {
    if v.VT? then v.t else 0
  }

  predicate Truthy(v: Val) {
    match v
    case VNone => false
    case VT(t) => t != 0
    case VS(s) => s != ""
    case VTuple(ts) => ts != []
    case VSym(_) => true
    case VRange(_, _) => true
  }

  // ----- programs -----

  // How a first value decides what is evaluated next, and how the two are combined.
  datatype Kind = KIf | KAnd | KOr | KFirst | KWhen | KPromote

  datatype Op =
    | OMin | OMax | OMode | OEq | ONe | OMinus | OThen | OTriStr
    | ORel(rel: Relation, ta: Type, tb: Type)
    | ORange(typ: Type)
    | OFits(typ: Type)
    | OClamp(typ: Type)

  datatype Term =
    | Lit(v: Val)
    | Get(cell: Cell)
    | User(item: Item)  // user_value
    | UserSel(choice: nat)  // user_selection
    | Bin(op: Op, a: Term, b: Term)
    | Branch(kind: Kind, a: Term, b: Term, c: Term)

  function Min(a: int, b: int): int {
    if a < b then a else b
  }

  function Max(a: int, b: int): int {
    if a > b then a else b
  }

  predicate Takes(k: Kind, v: Val) {
    match k
    case KIf => Truthy(v)
    case KOr => T(v) == 2
    case KPromote => T(v) == 1
    case KAnd => T(v) != 0
    case KFirst => T(v) != 0
    case KWhen => T(v) != 0
  }

  function Combine(k: Kind, v: Val, w: Val): Val {
    match k
    case KIf => w
    case KAnd => if Takes(k, v) then VT(Min(T(v), T(w))) else VT(0)
    case KOr => if Takes(k, v) then VT(2) else VT(Max(T(v), T(w)))
    case KFirst => if Takes(k, v) then VT(Min(T(w), T(v))) else w
    case KWhen => if Takes(k, v) && Truthy(w) then v else VT(0)
    case KPromote => if Takes(k, v) && Truthy(w) then VT(2) else v
  }

  function Base(t: Type): nat {
    if t.HEX? then 16 else if t.INT? then 10 else 0
  }

  function Flag(b: bool): Val {
    VT(if b then 1 else 0)
  }

  predicate Holds(r: Relation, c: int) {
    match r
    case EQUAL => c == 0
    case UNEQUAL => c != 0
    case LESS => c < 0
    case LESS_EQUAL => c <= 0
    case GREATER => c > 0
    case GREATER_EQUAL => c >= 0
  }

  function Text(v: Val): string {
    if v.VS? then v.s else ""
  }

  function Number(cfg: Config, s: string, base: nat): int {
    if cfg.isBase(s, base) then cfg.toInt(s, base) else 0
  }

  function Apply(cfg: Config, op: Op, v: Val, w: Val): Val {
    match op
    case OMin => VT(Min(T(v), T(w)))
    case OMax => VT(Max(T(v), T(w)))
    case OMode => if w.VNone? then v else VT(Max(T(v), T(w)))
    case OEq => Flag(v == w)
    case ONe => Flag(v != w)
    case OMinus => VT(T(v) - T(w))
    case OThen => w
    case OTriStr => VS(if T(v) == 0 then "n" else if T(v) == 1 then "m" else "y")
    case ORel(rel, ta, tb) =>
      var s, t := Text(v), Text(w);
      var numeric := !(ta.STRING? && tb.STRING?) && cfg.isBase(s, Base(ta)) && cfg.isBase(t, Base(tb));
      var c := if numeric then cfg.toInt(s, Base(ta)) - cfg.toInt(t, Base(tb)) else StrCmp(s, t);
      VT(if Holds(rel, c) then 2 else 0)
    case ORange(typ) => VRange(Number(cfg, Text(v), Base(typ)), Number(cfg, Text(w), Base(typ)))
    case OFits(typ) =>
      Flag(w.VS? && cfg.isBase(w.s, Base(typ))
           && (v.VRange? ==> v.low <= cfg.toInt(w.s, Base(typ)) <= v.high))
    case OClamp(typ) =>
      var n := Number(cfg, Text(w), Base(typ));
      if v.VRange? && (n < v.low || n > v.high) then
        var clamp := if n < v.low then v.low else v.high;
        VS(if typ.INT? then cfg.dec(clamp) else cfg.hex(clamp))
      else w
  }

  const ZERO := Lit(VT(0))
  const ONE := Lit(VT(1))
  const TWO := Lit(VT(2))

  function If(c: Term, a: Term, b: Term): Term { Branch(KIf, c, a, b) }

  function Both(a: Term, b: Term): Term { If(a, b, ZERO) }

  function Either(a: Term, b: Term): Term { If(a, ONE, b) }

  function Is(a: Term, t: int): Term { Bin(OEq, a, Lit(VT(t))) }

  function IsNot(a: Term, t: int): Term { Bin(ONe, a, Lit(VT(t))) }

  // ----- the getters -----

  function Modules(cfg: Config): Term { Get(TriV(cfg.modules)) }

  /** Choice.type == BOOL */
  function ChoiceIsBool(cfg: Config, ch: nat): Term {
    match cfg.choice(ch).origType
    case TRISTATE => Is(Modules(cfg), 0)
    case BOOL => ONE
    case _ => ZERO
  }

  /** Choice.tri_value, which is not cached. */
  function Mode(cfg: Config, ch: nat): Term {
    var low := if cfg.choice(ch).optional then ZERO else ONE;
    Branch(KPromote, Bin(OMin, Bin(OMode, low, User(C(ch))), Get(Vis(C(ch)))),
           ChoiceIsBool(cfg, ch), ZERO)
  }

  /** Symbol.type == BOOL */
  function IsBool(cfg: Config, s: nat): Term {
    match cfg.sym(s).origType
    case TRISTATE =>
      var noModules := Is(Modules(cfg), 0);
      (match cfg.sym(s).choice
       case Some(ch) => Either(Is(Mode(cfg, ch), 2), noModules)
       case None => noModules)
    case BOOL => ONE
    case _ => ZERO
  }

  /** expr_value */
  function Value(cfg: Config, e: Expr): Term {
    match e
    case Leaf(S(s)) => Get(TriV(s))
    case Leaf(C(ch)) => Mode(cfg, ch)
    case AND(l, r) => Branch(KAnd, Value(cfg, l), Value(cfg, r), ZERO)
    case OR(l, r) => Branch(KOr, Value(cfg, l), ZERO, Value(cfg, r))
    case NOT(x) => Bin(OMinus, TWO, Value(cfg, x))
    case REL(rel, a, b) =>
      Bin(ORel(rel, cfg.sym(a).origType, cfg.sym(b).origType), Get(StrV(a)), Get(StrV(b)))
  }

  function PromptMax(cfg: Config, prompts: seq<Expr>): Term {
    if prompts == [] then ZERO
    else Bin(OMax, Value(cfg, prompts[0]), PromptMax(cfg, prompts[1..]))
  }

  /** _get_visibility */
  function Visibility(cfg: Config, i: Item): Term {
    match i
    case S(s) =>
      var d := cfg.sym(s);
      var vis := PromptMax(cfg, d.prompts);
      var promoted := Branch(KPromote, vis, if d.origType.TRISTATE? then IsBool(cfg, s) else ONE, ZERO);
      (match d.choice
       case None => promoted
       case Some(ch) =>
         if d.origType.TRISTATE? then
           If(Both(Is(vis, 1), Is(Mode(cfg, ch), 2)), ZERO, promoted)
         else if cfg.choice(ch).origType.TRISTATE? then
           Bin(OThen, vis, If(IsNot(Mode(cfg, ch), 2), ZERO, promoted))
         else promoted)
    case C(ch) =>
      var d := cfg.choice(ch);
      Branch(KPromote, PromptMax(cfg, d.prompts),
             if d.origType.TRISTATE? then ChoiceIsBool(cfg, ch) else ONE, ZERO)
  }

  function TriDefault(cfg: Config, ds: seq<(Expr, Expr)>): Term {
    if ds == [] then ZERO
    else Branch(KFirst, Value(cfg, ds[0].1), Value(cfg, ds[0].0), TriDefault(cfg, ds[1..]))
  }

  // m is no value for the symbol: it counts as bool, or an imply holds it at y.
  function NoM(cfg: Config, s: nat): Term {
    Either(IsBool(cfg, s), Is(Value(cfg, cfg.sym(s).weakRevDep), 2))
  }

  // The value from defaults and implies.
  function Unset(cfg: Config, s: nat): Term {
    var d := cfg.sym(s);
    Bin(OMax, TriDefault(cfg, d.defaults), Branch(KWhen, Value(cfg, d.weakRevDep), Value(cfg, d.directDep), ZERO))
  }

  /** Symbol.tri_value */
  function SymTri(cfg: Config, s: nat): Term {
    var d := cfg.sym(s);
    var vis := Get(Vis(S(s)));
    if d.constant.Some? then Lit(VT(d.constant.value))
    else if !(d.origType.BOOL? || d.origType.TRISTATE?) then ZERO
    else match d.choice
      case None =>
        var own := If(Both(vis, Bin(ONe, User(S(s)), Lit(VNone))), Bin(OMin, User(S(s)), vis), Unset(cfg, s));
        Branch(KPromote, Bin(OMax, own, Value(cfg, d.revDep)), NoM(cfg, s), ZERO)
      case Some(ch) =>
        If(Is(vis, 2),
           If(Bin(OEq, Get(Selection(ch)), Lit(VSym(s))), TWO, ZERO),
           If(Both(vis, User(S(s))), ONE, ZERO))
  }

  function StrOf(e: Expr): Term {
    if e.Leaf? && e.item.S? then Get(StrV(e.item.id)) else Lit(VS(""))
  }

  function StrDefault(cfg: Config, ds: seq<(Expr, Expr)>): Term {
    if ds == [] then Lit(VS(""))
    else If(Value(cfg, ds[0].1), StrOf(ds[0].0), StrDefault(cfg, ds[1..]))
  }

  function ActiveRange(cfg: Config, typ: Type, rs: seq<(nat, nat, Expr)>): Term {
    if rs == [] then Lit(VNone)
    else If(Value(cfg, rs[0].2), Bin(ORange(typ), Get(StrV(rs[0].0)), Get(StrV(rs[0].1))),
            ActiveRange(cfg, typ, rs[1..]))
  }

  /** Symbol.str_value */
  function SymStr(cfg: Config, s: nat): Term {
    var d := cfg.sym(s);
    var vis := Get(Vis(S(s)));
    if d.constant.Some? then Lit(VS(d.name))
    else match d.origType
      case UNKNOWN => Lit(VS(d.name))
      case STRING =>
        If(Both(vis, Bin(ONe, User(S(s)), Lit(VNone))), User(S(s)), StrDefault(cfg, d.defaults))
      case BOOL => Bin(OTriStr, Get(TriV(s)), ZERO)
      case TRISTATE => Bin(OTriStr, Get(TriV(s)), ZERO)
      case _ =>
        var range := ActiveRange(cfg, d.origType, d.ranges);
        Bin(OThen, vis,
            If(Both(vis, Bin(OFits(d.origType), range, User(S(s)))), User(S(s)),
               Bin(OClamp(d.origType), range, StrDefault(cfg, d.defaults))))
  }

  function Tuple(ts: seq<int>): Term { Lit(VTuple(ts)) }

  function AssignableAtY(cfg: Config, s: nat): Term {
    var rev := Value(cfg, cfg.sym(s).revDep);
    if cfg.sym(s).choice.Some? then Tuple([2])
    else If(Is(rev, 0), If(NoM(cfg, s), Tuple([0, 2]), Tuple([0, 1, 2])),
         If(Is(rev, 2), Tuple([2]), If(NoM(cfg, s), Tuple([2]), Tuple([1, 2]))))
  }

  function AssignableAtM(cfg: Config, s: nat): Term {
    var rev, weak := Value(cfg, cfg.sym(s).revDep), Value(cfg, cfg.sym(s).weakRevDep);
    If(Is(rev, 0), If(IsNot(weak, 2), Tuple([0, 1]), Tuple([0, 2])),
    If(Is(rev, 2), Tuple([2]), Tuple([1])))
  }

  /** Symbol._get_assignable */
  function SymAssignable(cfg: Config, s: nat): Term {
    var d := cfg.sym(s);
    var vis := Get(Vis(S(s)));
    if d.constant.Some? || !(d.origType.BOOL? || d.origType.TRISTATE?) then Tuple([])
    else
      If(Is(vis, 0), Tuple([]),
         Bin(OThen, Value(cfg, d.revDep), If(Is(vis, 2), AssignableAtY(cfg, s), AssignableAtM(cfg, s))))
  }

  /** Choice._get_assignable */
  function ChoiceAssignable(cfg: Config, ch: nat): Term {
    var vis, isBool := Get(Vis(C(ch))), ChoiceIsBool(cfg, ch);
    If(Is(vis, 0), Tuple([]),
    If(Is(vis, 2),
       if cfg.choice(ch).optional then If(isBool, Tuple([0, 2]), Tuple([0, 1, 2]))
       else If(isBool, Tuple([2]), Tuple([1, 2])),
       if cfg.choice(ch).optional then Tuple([0, 1]) else Tuple([1])))
  }

  // "if self.user_selection and self.user_selection.visibility == 2", symbol by symbol.
  function SelectByUser(ch: nat, syms: seq<nat>, otherwise: Term): Term {
    if syms == [] then otherwise
    else If(Bin(OEq, UserSel(ch), Lit(VSym(syms[0]))),
            If(Is(Get(Vis(S(syms[0]))), 2), Lit(VSym(syms[0])), otherwise),
            SelectByUser(ch, syms[1..], otherwise))
  }

  function SelectByDefault(cfg: Config, ds: seq<(nat, Expr)>, otherwise: Term): Term {
    if ds == [] then otherwise
    else If(Both(Value(cfg, ds[0].1), Get(Vis(S(ds[0].0)))), Lit(VSym(ds[0].0)),
            SelectByDefault(cfg, ds[1..], otherwise))
  }

  function SelectVisible(syms: seq<nat>): Term {
    if syms == [] then Lit(VNone)
    else If(Get(Vis(S(syms[0]))), Lit(VSym(syms[0])), SelectVisible(syms[1..]))
  }

  /** Choice._get_selection */
  function ChoiceSelection(cfg: Config, ch: nat): Term {
    var d := cfg.choice(ch);
    If(IsNot(Mode(cfg, ch), 2), Lit(VNone),
       SelectByUser(ch, d.syms, SelectByDefault(cfg, d.defaults, SelectVisible(d.syms))))
  }

  function Body(cfg: Config, c: Cell): Term {
    match c
    case Vis(S(s)) => if cfg.sym(s).constant.Some? then ZERO else Visibility(cfg, S(s))
    case Vis(C(ch)) => Visibility(cfg, C(ch))
    case TriV(s) => SymTri(cfg, s)
    case StrV(s) => SymStr(cfg, s)
    case Assignable(S(s)) => SymAssignable(cfg, s)
    case Assignable(C(ch)) => ChoiceAssignable(cfg, ch)
    case Selection(ch) => ChoiceSelection(cfg, ch)
  }

  // ----- what _build_dep registers -----

  function ExprItems(e: Expr): set<Item> {
    match e
    case Leaf(i) => {i}
    case AND(l, r) => ExprItems(l) + ExprItems(r)
    case OR(l, r) => ExprItems(l) + ExprItems(r)
    case NOT(x) => ExprItems(x)
    case REL(_, a, b) => {S(a), S(b)}
  }

  function ItemsOf(es: seq<Expr>): set<Item> {
    if es == [] then {} else ExprItems(es[0]) + ItemsOf(es[1..])
  }

  function DefaultItems(ds: seq<(Expr, Expr)>): set<Item> {
    if ds == [] then {} else ExprItems(ds[0].0) + ExprItems(ds[0].1) + DefaultItems(ds[1..])
  }

  function RangeItems(rs: seq<(nat, nat, Expr)>): set<Item> {
    if rs == [] then {} else {S(rs[0].0), S(rs[0].1)} + ExprItems(rs[0].2) + RangeItems(rs[1..])
  }

  function ConditionItems(ds: seq<(nat, Expr)>): set<Item> {
    if ds == [] then {} else ExprItems(ds[0].1) + ConditionItems(ds[1..])
  }

  function SymItems(ss: seq<nat>): set<Item> {
    if ss == [] then {} else {S(ss[0])} + SymItems(ss[1..])
  }

  /** The items that item i depends on. */
  function DependsOn(cfg: Config, i: Item): set<Item> {
    match i
    case S(s) =>
      var d := cfg.sym(s);
      ItemsOf(d.prompts) + DefaultItems(d.defaults) + RangeItems(d.ranges)
      + ExprItems(d.revDep) + ExprItems(d.weakRevDep) + ExprItems(d.directDep)
    case C(ch) =>
      var d := cfg.choice(ch);
      ItemsOf(d.prompts) + ConditionItems(d.defaults) + SymItems(d.syms)
  }

  predicate IsConstant(cfg: Config, i: Item) {
    i.S? && cfg.sym(i.id).constant.Some?
  }

  /** The items that _invalidate_all and _build_dep run over. */
  function Defined(cfg: Config): set<Item> {
    (set s | s in cfg.definedSyms :: S(s)) + (set ch | ch in cfg.choices :: C(ch))
  }

  /** item._dependents */
  function Dependents(cfg: Config, i: Item): set<Item> {
    if IsConstant(cfg, i) then {} else set j | j in Defined(cfg) && i in DependsOn(cfg, j)
  }

  /** What _finalize_choice establishes: choices and their symbols name each other; defaults of a
      choice name symbols of that choice. */
  ghost predicate Linked(cfg: Config) {
    && (forall ch, s :: ch in cfg.choices ==>
          (s in cfg.choice(ch).syms <==> cfg.sym(s).choice == Some(ch)))
    && (forall ch, d :: ch in cfg.choices && d in cfg.choice(ch).defaults ==> d.0 in cfg.choice(ch).syms)
  }

  /** What parsing and _finalize_choice establish. The choice of a choice symbol appears in
      the symbol's own dependencies. */
  ghost predicate Finalized(cfg: Config) {
    && (forall s :: s !in cfg.definedSyms ==>
          cfg.sym(s).prompts == [] && cfg.sym(s).choice.None?
          && (cfg.sym(s).constant.Some? || cfg.sym(s).origType.UNKNOWN?))
    && (forall s :: s in cfg.definedSyms ==> cfg.sym(s).constant.None?)
    && (forall s :: cfg.sym(s).choice.Some? ==>
          cfg.sym(s).choice.value in cfg.choices && C(cfg.sym(s).choice.value) in DependsOn(cfg, S(s)))
    && Linked(cfg)
    && (forall ch :: ch !in cfg.choices ==> cfg.choice(ch) == ChoiceDef(UNKNOWN, false, [], [], []))
  }
}
