/** Three-valued Kconfig expressions: the data structure of tools/kconfig/expr.h
    and the meaning that expr_calc_value gives to it. */
module KconfigExpr {
  import opened Basics

  // enum tristate: no < mod < yes, combined by minimum, maximum and 2 - x.
  type Tri = x: int | 0 <= x <= 2
  const NO: Tri := 0
  const MOD: Tri := 1
  const YES: Tri := 2

  datatype SymType = Unknown | Boolean | Tristate | Int | Hex | Str | Other

  /** Constant symbols are interned by name and have no type; every other symbol
      is known by its identity, so `==` on this type is pointer equality. */
  datatype Symbol = Const(name: string) | Config(id: nat, typ: SymType) {
    function Type(): SymType {
      if Const? then Unknown else typ
    }
  }

  const SYM_YES := Const("y")
  const SYM_MOD := Const("m")
  const SYM_NO := Const("n")

  predicate IsTriConst(s: Symbol) {
    s == SYM_YES || s == SYM_MOD || s == SYM_NO
  }

  datatype BinOp = And | Or {
    function Dual(): BinOp {
      if And? then Or else And
    }
    // The constant that leaves the other operand as it is.
    function Unit(): Symbol {
      if And? then SYM_YES else SYM_NO
    }
    function Apply(a: Tri, b: Tri): Tri {
      if And? then (if a < b then a else b) else (if a > b then a else b)
    }
  }

  datatype Rel = Eq | Ne | Lt | Le | Gt | Ge {
    predicate Ordered() {
      !Eq? && !Ne?
    }
    function Negate(): Rel {
      match this
      case Eq => Ne
      case Ne => Eq
      case Lt => Ge
      case Le => Gt
      case Gt => Le
      case Ge => Lt
    }
    predicate Holds(res: int) {
      match this
      case Eq => res == 0
      case Ne => res != 0
      case Lt => res < 0
      case Le => res <= 0
      case Gt => res > 0
      case Ge => res >= 0
    }
  }

  datatype Expr =
    | Sym(s: Symbol)
    | Not(e: Expr)
    | Bin(op: BinOp, l: Expr, r: Expr)
    | Cmp(rel: Rel, a: Symbol, b: Symbol)

  const TRUE := Sym(SYM_YES)
  const FALSE := Sym(SYM_NO)

  predicate IsOp(e: Expr, t: BinOp) {
    e.Bin? && e.op == t
  }

  /** Number of nodes. */
  function Size(e: Expr): nat {
    match e
    case Sym(_) => 1
    case Cmp(_, _, _) => 1
    case Not(x) => 1 + Size(x)
    case Bin(_, l, r) => 1 + Size(l) + Size(r)
  }

  // ----- values -----

  /** What a run of the configurator supplies: the current tristate and string
      value of each symbol, and the C library's number parsing. */
  datatype Env = Env(
    tri: Symbol -> Tri,
    str: Symbol -> string,
    strtoll: (string, nat) -> Option<int>,
    strtoull: (string, nat) -> Option<int>)

  function TriStr(t: Tri): string {
    if t == NO then "n" else if t == MOD then "m" else "y"
  }

  ghost predicate WellFormed(env: Env) {
    && env.tri(SYM_YES) == YES && env.tri(SYM_MOD) == MOD && env.tri(SYM_NO) == NO
    && (forall name :: env.str(Const(name)) == name)
    && (forall id, typ :: typ == Boolean ==> env.tri(Config(id, typ)) != MOD)
    && (forall id, typ :: typ == Boolean || typ == Tristate ==>
          env.str(Config(id, typ)) == TriStr(env.tri(Config(id, typ))))
    && (forall t, base :: env.strtoll(TriStr(t), base) == None)
    && (forall t, base :: env.strtoull(TriStr(t), base) == None)
  }

  datatype Parsed = KString | KSigned(v: int) | KUnsigned(v: int) | KInvalid

  function ParseString(env: Env, s: string, typ: SymType): Parsed {
    match typ
    case Boolean => KString
    case Tristate => KString
    case Int => (match env.strtoll(s, 10) case Some(v) => KSigned(v) case None => KString)
    case Hex => (match env.strtoull(s, 16) case Some(v) => KUnsigned(v) case None => KString)
    case Str => (match env.strtoll(s, 0) case Some(v) => KSigned(v) case None => KString)
    case Unknown => (match env.strtoll(s, 0) case Some(v) => KSigned(v) case None => KString)
    case Other => KInvalid
  }

  const TWO64: int := 0x1_0000_0000_0000_0000

  // Reading either member of the union as unsigned long long.
  function AsUnsigned(p: Parsed): int
    requires p.KSigned? || p.KUnsigned?
  {
    p.v % TWO64
  }

  function Sign(x: int, y: int): int {
    if x < y then -1 else if x > y then 1 else 0
  }

  /** The comparison result of expr_calc_value; None is the "Cannot compare" exit. */
  function Compare(env: Env, rel: Rel, a: Symbol, b: Symbol): Option<int> {
    var s1, s2 := env.str(a), env.str(b);
    var both := a.Type() == Str && b.Type() == Str;
    var k1 := if both then KString else ParseString(env, s1, a.Type());
    var k2 := if both then KString else ParseString(env, s2, b.Type());
    if k1 == KString || k2 == KString then Some(StrCmp(s1, s2))
    else if k1 == KInvalid || k2 == KInvalid then
      if rel.Ordered() then None else Some(StrCmp(s1, s2))
    else if k1.KUnsigned? || k2.KUnsigned? then Some(Sign(AsUnsigned(k1), AsUnsigned(k2)))
    else Some(Sign(k1.v, k2.v))
  }

  function Value(e: Expr, env: Env): Tri {
    match e
    case Sym(s) => env.tri(s)
    case Not(x) => 2 - Value(x, env)
    case Bin(op, l, r) => op.Apply(Value(l, env), Value(r, env))
    case Cmp(rel, a, b) =>
      match Compare(env, rel, a, b)
      case None => NO
      case Some(res) => if rel.Holds(res) then YES else NO
  }

  /** A NULL expression counts as y. */
  function OptValue(e: Option<Expr>, env: Env): Tri {
    if e.None? then YES else Value(e.value, env)
  }

  /** The comparison of a bool or tristate symbol with a constant goes by strings. */
  lemma {:induction false} CompareTri(env: Env, rel: Rel, a: Symbol, name: string)
    requires WellFormed(env)
    requires a.Type() == Boolean || a.Type() == Tristate
    ensures Compare(env, rel, a, Const(name)) == Some(StrCmp(TriStr(env.tri(a)), name))
  {
  }

  /** What a comparison says, given which of the two sides comes first. */
  predicate Orders(rel: Rel, less: bool, same: bool) {
    match rel
    case Eq => same
    case Ne => !same
    case Lt => less
    case Le => less || same
    case Gt => !less && !same
    case Ge => !less
  }

  /** Symbols with numbers for values compare as numbers, with a hex symbol among them as unsigned
      64-bit numbers. */
  lemma {:induction false} CompareNumbers(env: Env, rel: Rel, a: Symbol, b: Symbol, v: int, w: int)
    requires ParseString(env, env.str(a), a.Type()) in {KSigned(v), KUnsigned(v)}
    requires ParseString(env, env.str(b), b.Type()) in {KSigned(w), KUnsigned(w)}
    requires a.Type() != Str || b.Type() != Str
    ensures var hex := a.Type() == Hex || b.Type() == Hex;
            var (x, y) := if hex then (v % TWO64, w % TWO64) else (v, w);
            Value(Cmp(rel, a, b), env) == if Orders(rel, x < y, x == y) then YES else NO
  {
  }

  /** Int and hex symbols have the number that the C library reads with base 10 or 16, strings and
      constants one of any base, bool and tristate symbols none. */
  lemma NumberOf(env: Env, s: Symbol, v: int)
    ensures ParseString(env, env.str(s), s.Type()) in {KSigned(v), KUnsigned(v)}
            <==> match s.Type()
                 case Int => env.strtoll(env.str(s), 10) == Some(v)
                 case Hex => env.strtoull(env.str(s), 16) == Some(v)
                 case Str => env.strtoll(env.str(s), 0) == Some(v)
                 case Unknown => env.strtoll(env.str(s), 0) == Some(v)
                 case _ => false
  {
  }

  /** Two strings, or a value that is no number, compare by the dictionary. */
  lemma {:induction false} CompareStrings(env: Env, rel: Rel, a: Symbol, b: Symbol)
    requires (a.Type() == Str && b.Type() == Str)
             || KString in {ParseString(env, env.str(a), a.Type()), ParseString(env, env.str(b), b.Type())}
    ensures Value(Cmp(rel, a, b), env)
         == if Orders(rel, Before(env.str(a), env.str(b)), env.str(a) == env.str(b)) then YES else NO
  {
    StrCmpBefore(env.str(a), env.str(b));
  }

  /** Symbols of a type without values are only ever equal or unequal, by their strings. */
  lemma {:induction false} CompareOther(env: Env, rel: Rel, a: Symbol, b: Symbol)
    requires a.Type() == Other || b.Type() == Other
    requires KString !in {ParseString(env, env.str(a), a.Type()), ParseString(env, env.str(b), b.Type())}
    ensures Value(Cmp(rel, a, b), env)
         == if !rel.Ordered() && (env.str(a) == env.str(b)) == rel.Eq? then YES else NO
  {
  }

  ghost predicate SameValue(x: Expr, y: Expr) {
    forall env :: WellFormed(env) ==> Value(x, env) == Value(y, env)
  }
}
