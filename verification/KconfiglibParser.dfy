/** expr_str and the expression parser of tools/kconfig_new/kconfiglib.py, on tokens. */
module KconfiglibParser {
  import opened Basics
  import opened KconfiglibModel

  datatype Token =
    | TSym(sym: nat)
    | TNot | TAnd | TOr | TOpen | TClose
    | TRel(rel: Relation)
    | TOther

  predicate ChoiceFree(e: Expr) {
    match e
    case Leaf(i) => i.S?
    case AND(l, r) => ChoiceFree(l) && ChoiceFree(r)
    case OR(l, r) => ChoiceFree(l) && ChoiceFree(r)
    case NOT(x) => ChoiceFree(x)
    case REL(_, _, _) => true
  }

  // ----- printing -----

  /** expr_str */
  function Print(e: Expr): seq<Token>
    requires ChoiceFree(e)
    decreases e, 0
  {
    match e
    case Leaf(i) => [TSym(i.id)]
    case NOT(x) => if x.Leaf? then [TNot] + Print(x) else [TNot, TOpen] + Print(x) + [TClose]
    case AND(l, r) => Operand(l) + [TAnd] + Operand(r)
    case OR(l, r) => Print(l) + [TOr] + Print(r)
    case REL(rel, a, b) => [TSym(a), TRel(rel), TSym(b)]
  }

  /** _format_and_op */
  function Operand(e: Expr): seq<Token>
    requires ChoiceFree(e)
    decreases e, 1
  {
    if e.OR? then [TOpen] + Print(e) + [TClose] else Print(e)
  }

  // ----- parsing -----

  /** What makes the parser read m as m && MODULES. */
  datatype Mode = Mode(transformM: bool, m: nat, modules: nat)

  function Peek(ts: seq<Token>, i: nat): Token {
    if i < |ts| then ts[i] else TOther
  }

  type Parse = Option<(Expr, nat)>

  /** _parse_expr at token i; None is a syntax error. */
  function ParseExpr(ts: seq<Token>, i: nat, mode: Mode): (r: Parse)
    ensures r.Some? ==> i < r.value.1 <= |ts|
    decreases |ts| - i, 2
  {
    match ParseAnd(ts, i, mode)
    case None => None
    case Some((x, j)) =>
      if Peek(ts, j) != TOr then Some((x, j))
      else match ParseExpr(ts, j + 1, mode)
        case None => None
        case Some((y, k)) => Some((OR(x, y), k))
  }

  function ParseAnd(ts: seq<Token>, i: nat, mode: Mode): (r: Parse)
    ensures r.Some? ==> i < r.value.1 <= |ts|
    decreases |ts| - i, 1
  {
    match ParseFactor(ts, i, mode)
    case None => None
    case Some((x, j)) =>
      if Peek(ts, j) != TAnd then Some((x, j))
      else match ParseAnd(ts, j + 1, mode)
        case None => None
        case Some((y, k)) => Some((AND(x, y), k))
  }

  function ParseFactor(ts: seq<Token>, i: nat, mode: Mode): (r: Parse)
    ensures r.Some? ==> i < r.value.1 <= |ts|
    decreases |ts| - i, 0
  {
    match Peek(ts, i)
    case TSym(s) =>
      (match Peek(ts, i + 1)
       case TRel(rel) => if Peek(ts, i + 2).TSym? then Some((REL(rel, s, ts[i + 2].sym), i + 3)) else None
       case _ =>
         if mode.transformM && s == mode.m then Some((AND(Leaf(S(s)), Leaf(S(mode.modules))), i + 1))
         else Some((Leaf(S(s)), i + 1)))
    case TNot =>
      (match ParseFactor(ts, i + 1, mode)
       case None => None
       case Some((x, j)) => Some((NOT(x), j)))
    case TOpen =>
      (match ParseExpr(ts, i + 1, mode)
       case None => None
       case Some((x, j)) => if Peek(ts, j) == TClose then Some((x, j + 1)) else None)
    case _ => None
  }

  /** The parser with its token cursor. */
  class Parser {
    const tokens: seq<Token>
    const mode: Mode
    var next: nat  // _tokens_i + 1

    constructor (tokens: seq<Token>, mode: Mode)
      ensures this.tokens == tokens && this.mode == mode && next == 0
    {
      this.tokens, this.mode, next := tokens, mode, 0;
    }

    /** _check_token */
    method Check(t: Token) returns (found: bool)
      requires next <= |tokens| && t != TOther
      modifies this
      ensures found <==> Peek(tokens, old(next)) == t
      ensures next == old(next) + (if found then 1 else 0) <= |tokens|
    {
      found := Peek(tokens, next) == t;
      if found {
        next := next + 1;
      }
    }

    /** The recursive descent agrees with the grammar functions, and leaves the cursor behind
        the last token it used. */
    method Expression() returns (r: Option<Expr>)
      requires next <= |tokens|
      modifies this
      ensures match ParseExpr(tokens, old(next), mode)
              case None => r.None?
              case Some((e, j)) => r == Some(e) && next == j
      decreases |tokens| - next, 2
    {
      r := Conjunction();
      if r.Some? {
        var more := Check(TOr);
        if more {
          var rest := Expression();
          r := if rest.Some? then Some(OR(r.value, rest.value)) else None;
        }
      }
    }

    method Conjunction() returns (r: Option<Expr>)
      requires next <= |tokens|
      modifies this
      ensures match ParseAnd(tokens, old(next), mode)
              case None => r.None?
              case Some((e, j)) => r == Some(e) && next == j
      decreases |tokens| - next, 1
    {
      r := Factor();
      if r.Some? {
        var more := Check(TAnd);
        if more {
          var rest := Conjunction();
          r := if rest.Some? then Some(AND(r.value, rest.value)) else None;
        }
      }
    }

    method Factor() returns (r: Option<Expr>)
      requires next <= |tokens|
      modifies this
      ensures match ParseFactor(tokens, old(next), mode)
              case None => r.None?
              case Some((e, j)) => r == Some(e) && next == j
      decreases |tokens| - next, 0
    {
      r := None;
      var token := Peek(tokens, next);
      if token.TSym? {
        next := next + 1;
        var rel := Peek(tokens, next);
        if rel.TRel? {
          if Peek(tokens, next + 1).TSym? {
            r := Some(REL(rel.rel, token.sym, tokens[next + 1].sym));
            next := next + 2;
          }
        } else if mode.transformM && token.sym == mode.m {
          r := Some(AND(Leaf(S(token.sym)), Leaf(S(mode.modules))));
        } else {
          r := Some(Leaf(S(token.sym)));
        }
      } else if token == TNot {
        next := next + 1;
        r := Factor();
        r := if r.Some? then Some(NOT(r.value)) else None;
      } else if token == TOpen {
        next := next + 1;
        r := Expression();
        if r.Some? {
          var closed := Check(TClose);
          r := if closed then r else None;
        }
      }
    }
  }

  // ----- what a printed expression parses to -----

  /** x && y with the and-chain x spliced in front of y. */
  function SpliceAnd(x: Expr, y: Expr): Expr {
    if x.AND? then AND(x.l, SpliceAnd(x.r, y)) else AND(x, y)
  }

  function SpliceOr(x: Expr, y: Expr): Expr {
    if x.OR? then OR(x.l, SpliceOr(x.r, y)) else OR(x, y)
  }

  /** e with every chain bracketed to the right. */
  function Normal(e: Expr): Expr {
    match e
    case AND(l, r) => SpliceAnd(Normal(l), Normal(r))
    case OR(l, r) => SpliceOr(Normal(l), Normal(r))
    case NOT(x) => NOT(Normal(x))
    case Leaf(_) => e
    case REL(_, _, _) => e
  }

  lemma {:induction false} SpliceAssoc(x: Expr, y: Expr, z: Expr)
    ensures SpliceAnd(SpliceAnd(x, y), z) == SpliceAnd(x, SpliceAnd(y, z))
    ensures SpliceOr(SpliceOr(x, y), z) == SpliceOr(x, SpliceOr(y, z))
  {
    if x.AND? || x.OR? { SpliceAssoc(x.r, y, z); }
  }

  lemma {:induction false} NormalKind(e: Expr)
    ensures Normal(e).AND? <==> e.AND?
    ensures Normal(e).OR? <==> e.OR?
  {
  }

  // The tokens s stand at position i of ts.
  ghost predicate Stands(ts: seq<Token>, i: nat, s: seq<Token>) {
    i + |s| <= |ts| && ts[i..i + |s|] == s
  }

  lemma StandsConcat(ts: seq<Token>, i: nat, s: seq<Token>, t: seq<Token>)
    requires Stands(ts, i, s + t)
    ensures Stands(ts, i, s) && Stands(ts, i + |s|, t)
  {
    assert s == (s + t)[..|s|] == ts[i..i + |s|];
    assert t == (s + t)[|s|..] == ts[i + |s|..i + |s + t|];
  }

  lemma StandsFirst(ts: seq<Token>, i: nat, s: seq<Token>)
    requires Stands(ts, i, s) && s != []
    ensures Peek(ts, i) == s[0]
  {
    assert ts[i..i + |s|][0] == ts[i];
  }

  const PLAIN := Mode(false, 0, 0)

  // What the parser makes of x in front of position j: more operands may follow.
  function AndFrom(ts: seq<Token>, j: nat, x: Expr): Parse {
    if Peek(ts, j) != TAnd then Some((x, j))
    else match ParseAnd(ts, j + 1, PLAIN)
      case None => None
      case Some((y, k)) => Some((SpliceAnd(x, y), k))
  }

  function OrFrom(ts: seq<Token>, j: nat, x: Expr): Parse {
    if Peek(ts, j) != TOr then Some((x, j))
    else match ParseExpr(ts, j + 1, PLAIN)
      case None => None
      case Some((y, k)) => Some((SpliceOr(x, y), k))
  }

  // The parts of a printed expression in their places.
  lemma StandsAround(ts: seq<Token>, i: nat, s: seq<Token>, t: Token, r: seq<Token>)
    requires Stands(ts, i, s + [t] + r)
    ensures Stands(ts, i, s) && Peek(ts, i + |s|) == t && Stands(ts, i + |s| + 1, r)
  {
    StandsConcat(ts, i, s + [t], r);
    StandsConcat(ts, i, s, [t]);
    StandsFirst(ts, i + |s|, [t]);
  }

  lemma StandsInside(ts: seq<Token>, i: nat, s: seq<Token>)
    requires Stands(ts, i, [TOpen] + s + [TClose])
    ensures Peek(ts, i) == TOpen && Stands(ts, i + 1, s) && Peek(ts, i + 1 + |s|) == TClose
  {
    StandsConcat(ts, i, [TOpen] + s, [TClose]);
    StandsConcat(ts, i, [TOpen], s);
    StandsFirst(ts, i, [TOpen]);
    StandsFirst(ts, i + 1 + |s|, [TClose]);
  }

  lemma StandsNot(ts: seq<Token>, i: nat, s: seq<Token>)
    requires Stands(ts, i, [TNot] + s)
    ensures Peek(ts, i) == TNot && Stands(ts, i + 1, s)
  {
    StandsConcat(ts, i, [TNot], s);
    StandsFirst(ts, i, [TNot]);
  }

  // Two operands in a row.
  lemma {:induction false} AndFromTwo(ts: seq<Token>, m: nat, j: nat, x: Expr, y: Expr)
    requires Peek(ts, m) == TAnd && ParseAnd(ts, m + 1, PLAIN) == AndFrom(ts, j, y)
    ensures AndFrom(ts, m, x) == AndFrom(ts, j, SpliceAnd(x, y))
  {
    var rest := ParseAnd(ts, j + 1, PLAIN);
    if rest.Some? { SpliceAssoc(x, y, rest.value.0); }
  }

  lemma {:induction false} OrFromTwo(ts: seq<Token>, m: nat, j: nat, x: Expr, y: Expr)
    requires Peek(ts, m) == TOr && ParseExpr(ts, m + 1, PLAIN) == OrFrom(ts, j, y)
    ensures OrFrom(ts, m, x) == OrFrom(ts, j, SpliceOr(x, y))
  {
    var rest := ParseExpr(ts, j + 1, PLAIN);
    if rest.Some? { SpliceAssoc(x, y, rest.value.0); }
  }

  lemma {:induction false} OneFactor(ts: seq<Token>, i: nat, j: nat, x: Expr)
    requires ParseFactor(ts, i, PLAIN) == Some((x, j)) && !x.AND?
    ensures ParseAnd(ts, i, PLAIN) == AndFrom(ts, j, x)
  {
  }

  lemma {:induction false} OneOperand(ts: seq<Token>, i: nat, j: nat, x: Expr)
    requires ParseAnd(ts, i, PLAIN) == Some((x, j)) && !x.OR?
    ensures ParseExpr(ts, i, PLAIN) == OrFrom(ts, j, x)
  {
  }

  lemma {:induction false} FactorInParens(ts: seq<Token>, i: nat, k: nat, x: Expr)
    requires Peek(ts, i) == TOpen && Peek(ts, k) == TClose && ParseExpr(ts, i + 1, PLAIN) == OrFrom(ts, k, x)
    ensures ParseFactor(ts, i, PLAIN) == Some((x, k + 1))
  {
  }

  /** A printed operand that is not itself a conjunction is read as one factor. */
  lemma {:induction false} ParseOneFactor(e: Expr, ts: seq<Token>, i: nat)
    requires ChoiceFree(e) && !e.AND? && Stands(ts, i, Operand(e))
    requires !Peek(ts, i + |Operand(e)|).TRel?
    ensures ParseFactor(ts, i, PLAIN) == Some((Normal(e), i + |Operand(e)|))
    decreases e, 2
  {
    match e
    case OR(l, r) => ParseInParens(e, ts, i);
    case NOT(x) => ParseNegation(x, ts, i);
    case Leaf(_) => StandsFirst(ts, i, Print(e));
    case REL(rel, a, b) =>
      assert ts[i..i + 3][0] == ts[i] && ts[i..i + 3][1] == ts[i + 1] && ts[i..i + 3][2] == ts[i + 2];
  }

  lemma {:induction false} ParseInParens(e: Expr, ts: seq<Token>, i: nat)
    requires ChoiceFree(e) && Stands(ts, i, [TOpen] + Print(e) + [TClose])
    ensures ParseFactor(ts, i, PLAIN) == Some((Normal(e), i + |Print(e)| + 2))
    decreases e, if e.OR? then 1 else 5
  {
    StandsInside(ts, i, Print(e));
    ParsePrinted(e, ts, i + 1);
    FactorInParens(ts, i, i + 1 + |Print(e)|, Normal(e));
  }

  lemma {:induction false} ParseNegation(x: Expr, ts: seq<Token>, i: nat)
    requires ChoiceFree(x) && Stands(ts, i, Print(NOT(x)))
    requires !Peek(ts, i + |Print(NOT(x))|).TRel?
    ensures ParseFactor(ts, i, PLAIN) == Some((NOT(Normal(x)), i + |Print(NOT(x))|))
    decreases x, 6
  {
    if x.Leaf? {
      StandsNot(ts, i, Print(x));
      StandsFirst(ts, i + 1, Print(x));
    } else {
      assert [TNot, TOpen] + Print(x) + [TClose] == [TNot] + ([TOpen] + Print(x) + [TClose]);
      StandsNot(ts, i, [TOpen] + Print(x) + [TClose]);
      ParseInParens(x, ts, i + 1);
    }
  }

  /** A printed operand of && parses to its normal form, which the parser then splices in
      front of whatever follows a further &&. */
  lemma {:induction false} ParseOperand(e: Expr, ts: seq<Token>, i: nat)
    requires ChoiceFree(e) && Stands(ts, i, Operand(e))
    requires !Peek(ts, i + |Operand(e)|).TRel?
    ensures ParseAnd(ts, i, PLAIN) == AndFrom(ts, i + |Operand(e)|, Normal(e))
    decreases e, 3
  {
    if e.AND? {
      ParseConjunction(e, ts, i);
    } else {
      NormalKind(e);
      ParseOneFactor(e, ts, i);
      OneFactor(ts, i, i + |Operand(e)|, Normal(e));
    }
  }

  lemma {:induction false} ParseConjunction(e: Expr, ts: seq<Token>, i: nat)
    requires ChoiceFree(e) && e.AND? && Stands(ts, i, Operand(e.l) + [TAnd] + Operand(e.r))
    requires !Peek(ts, i + |Operand(e.l)| + 1 + |Operand(e.r)|).TRel?
    ensures ParseAnd(ts, i, PLAIN)
         == AndFrom(ts, i + |Operand(e.l)| + 1 + |Operand(e.r)|, SpliceAnd(Normal(e.l), Normal(e.r)))
    decreases e, 2
  {
    var m, k := i + |Operand(e.l)|, i + |Operand(e.l)| + 1 + |Operand(e.r)|;
    StandsAround(ts, i, Operand(e.l), TAnd, Operand(e.r));
    assert ParseAnd(ts, i, PLAIN) == AndFrom(ts, m, Normal(e.l)) by { ParseOperand(e.l, ts, i); }
    assert ParseAnd(ts, m + 1, PLAIN) == AndFrom(ts, k, Normal(e.r)) by { ParseOperand(e.r, ts, m + 1); }
    AndFromTwo(ts, m, k, Normal(e.l), Normal(e.r));
  }

  lemma {:induction false} ParsePrinted(e: Expr, ts: seq<Token>, i: nat)
    requires ChoiceFree(e) && Stands(ts, i, Print(e))
    requires !Peek(ts, i + |Print(e)|).TRel? && Peek(ts, i + |Print(e)|) != TAnd
    ensures ParseExpr(ts, i, PLAIN) == OrFrom(ts, i + |Print(e)|, Normal(e))
    decreases e, if e.OR? then 0 else 4
  {
    if e.OR? {
      ParseDisjunction(e, ts, i);
    } else {
      NormalKind(e);
      ParseOperand(e, ts, i);
      OneOperand(ts, i, i + |Print(e)|, Normal(e));
    }
  }

  lemma {:induction false} ParseDisjunction(e: Expr, ts: seq<Token>, i: nat)
    requires ChoiceFree(e) && e.OR? && Stands(ts, i, Print(e.l) + [TOr] + Print(e.r))
    requires var k := i + |Print(e.l)| + 1 + |Print(e.r)|; !Peek(ts, k).TRel? && Peek(ts, k) != TAnd
    ensures ParseExpr(ts, i, PLAIN)
         == OrFrom(ts, i + |Print(e.l)| + 1 + |Print(e.r)|, SpliceOr(Normal(e.l), Normal(e.r)))
    decreases e, 0, 0
  {
    var m, k := i + |Print(e.l)|, i + |Print(e.l)| + 1 + |Print(e.r)|;
    StandsAround(ts, i, Print(e.l), TOr, Print(e.r));
    assert ParseExpr(ts, i, PLAIN) == OrFrom(ts, m, Normal(e.l)) by { ParsePrinted(e.l, ts, i); }
    assert ParseExpr(ts, m + 1, PLAIN) == OrFrom(ts, k, Normal(e.r)) by { ParsePrinted(e.r, ts, m + 1); }
    OrFromTwo(ts, m, k, Normal(e.l), Normal(e.r));
  }

  /** Parsing a printed expression uses up all its tokens and gives its normal form. */
  lemma {:induction false} PrintParse(e: Expr)
    requires ChoiceFree(e)
    ensures ParseExpr(Print(e), 0, PLAIN) == Some((Normal(e), |Print(e)|))
  {
    assert Print(e)[0..|Print(e)|] == Print(e);
    ParsePrinted(e, Print(e), 0);
  }

  // ----- the normal form means the same -----

  type Tri = x: int | 0 <= x <= 2

  /** expr_value, for given values of the symbols and given outcomes of the comparisons. */
  function ExprValue(e: Expr, tri: Item -> Tri, holds: (Relation, nat, nat) -> bool): Tri {
    match e
    case Leaf(i) => tri(i)
    case AND(l, r) =>
      var v := ExprValue(l, tri, holds);
      if v == 0 then 0 else Min(v, ExprValue(r, tri, holds))
    case OR(l, r) =>
      var v := ExprValue(l, tri, holds);
      if v == 2 then 2 else Max(v, ExprValue(r, tri, holds))
    case NOT(x) => 2 - ExprValue(x, tri, holds)
    case REL(rel, a, b) => if holds(rel, a, b) then 2 else 0
  }

  lemma {:induction false} SpliceValue(x: Expr, y: Expr, tri: Item -> Tri, holds: (Relation, nat, nat) -> bool)
    ensures ExprValue(SpliceAnd(x, y), tri, holds) == ExprValue(AND(x, y), tri, holds)
    ensures ExprValue(SpliceOr(x, y), tri, holds) == ExprValue(OR(x, y), tri, holds)
  {
    if x.AND? || x.OR? { SpliceValue(x.r, y, tri, holds); }
  }

  lemma {:induction false} NormalValue(e: Expr, tri: Item -> Tri, holds: (Relation, nat, nat) -> bool)
    ensures ExprValue(Normal(e), tri, holds) == ExprValue(e, tri, holds)
  {
    match e
    case AND(l, r) =>
      NormalValue(l, tri, holds);
      NormalValue(r, tri, holds);
      SpliceValue(Normal(l), Normal(r), tri, holds);
    case OR(l, r) =>
      NormalValue(l, tri, holds);
      NormalValue(r, tri, holds);
      SpliceValue(Normal(l), Normal(r), tri, holds);
    case NOT(x) => NormalValue(x, tri, holds);
    case Leaf(_) =>
    case REL(_, _, _) =>
  }

  /** No && (||) has an && (||) as its left operand. */
  predicate RightNested(e: Expr) {
    match e
    case AND(l, r) => !l.AND? && RightNested(l) && RightNested(r)
    case OR(l, r) => !l.OR? && RightNested(l) && RightNested(r)
    case NOT(x) => RightNested(x)
    case Leaf(_) => true
    case REL(_, _, _) => true
  }

  lemma {:induction false} SpliceNested(x: Expr, y: Expr)
    requires RightNested(x) && RightNested(y)
    ensures RightNested(SpliceAnd(x, y)) && RightNested(SpliceOr(x, y))
  {
    if x.AND? || x.OR? { SpliceNested(x.r, y); }
  }

  /** The round trip gives back e itself exactly when all chains of e nest to the right. */
  lemma {:induction false} NormalIsIdentity(e: Expr)
    ensures RightNested(Normal(e))
    ensures Normal(e) == e <==> RightNested(e)
  {
    match e
    case AND(l, r) =>
      NormalIsIdentity(l);
      NormalIsIdentity(r);
      SpliceNested(Normal(l), Normal(r));
    case OR(l, r) =>
      NormalIsIdentity(l);
      NormalIsIdentity(r);
      SpliceNested(Normal(l), Normal(r));
    case NOT(x) => NormalIsIdentity(x);
    case Leaf(_) =>
    case REL(_, _, _) =>
  }

  /** The round trip of expr_str through the parser. */
  lemma {:induction false} RoundTrip(e: Expr)
    requires ChoiceFree(e)
    ensures ParseExpr(Print(e), 0, PLAIN).Some?
    ensures var (e', n) := ParseExpr(Print(e), 0, PLAIN).value;
            && n == |Print(e)|
            && (forall tri, holds :: ExprValue(e', tri, holds) == ExprValue(e, tri, holds))
            && (e' == e <==> RightNested(e))
  {
    PrintParse(e);
    NormalIsIdentity(e);
    forall tri, holds ensures ExprValue(Normal(e), tri, holds) == ExprValue(e, tri, holds) {
      NormalValue(e, tri, holds);
    }
  }
}
