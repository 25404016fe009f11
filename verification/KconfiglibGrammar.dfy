/** The expression grammar of tools/kconfig_new/kconfiglib.py, and what the parser makes of any
    line of tokens in either of its modes. */
module KconfiglibGrammar {
  import opened Basics
  import opened KconfiglibModel
  import opened KconfiglibParser

  // ----- the grammar -----

  /** The tokens from i up to j are a factor that spells e. A symbol alone is not followed by a
      comparison sign. */
  ghost predicate SpellsFactor(ts: seq<Token>, i: nat, j: nat, e: Expr)
    requires i <= j <= |ts|
    decreases j - i, 0
  {
    || (j == i + 1 && ts[i].TSym? && e == Leaf(S(ts[i].sym)) && !(j < |ts| && ts[j].TRel?))
    || (j == i + 3 && ts[i].TSym? && ts[i + 1].TRel? && ts[i + 2].TSym?
        && e == REL(ts[i + 1].rel, ts[i].sym, ts[i + 2].sym))
    || (i + 1 < j && ts[i] == TNot && e.NOT? && SpellsFactor(ts, i + 1, j, e.e))
    || (i + 2 < j && ts[i] == TOpen && ts[j - 1] == TClose && SpellsExpr(ts, i + 1, j - 1, e))
  }

  /** A factor, or a factor, && and a conjunction. */
  ghost predicate SpellsAnd(ts: seq<Token>, i: nat, j: nat, e: Expr)
    requires i <= j <= |ts|
    decreases j - i, 1
  {
    || SpellsFactor(ts, i, j, e)
    || (e.AND? && exists k :: i < k < j && ts[k] == TAnd && SpellsFactor(ts, i, k, e.l) && SpellsAnd(ts, k + 1, j, e.r))
  }

  /** A conjunction, or a conjunction, || and an expression. */
  ghost predicate SpellsExpr(ts: seq<Token>, i: nat, j: nat, e: Expr)
    requires i <= j <= |ts|
    decreases j - i, 2
  {
    || SpellsAnd(ts, i, j, e)
    || (e.OR? && exists k :: i < k < j && ts[k] == TOr && SpellsAnd(ts, i, k, e.l) && SpellsExpr(ts, k + 1, j, e.r))
  }

  predicate At(ts: seq<Token>, j: nat, t: Token) {
    j < |ts| && ts[j] == t
  }

  // What is parsed is spelled there.
  lemma {:induction false} ParsedFactor(ts: seq<Token>, i: nat, j: nat, e: Expr)
    requires ParseFactor(ts, i, PLAIN) == Some((e, j))
    ensures i < j <= |ts| && SpellsFactor(ts, i, j, e)
    decreases |ts| - i, 0
  {
    if Peek(ts, i) == TNot {
      ParsedFactor(ts, i + 1, j, e.e);
    } else if Peek(ts, i) == TOpen {
      ParsedExpr(ts, i + 1, j - 1, e);
    }
  }

  lemma {:induction false} ParsedAnd(ts: seq<Token>, i: nat, j: nat, e: Expr)
    requires ParseAnd(ts, i, PLAIN) == Some((e, j))
    ensures i < j <= |ts| && SpellsAnd(ts, i, j, e) && !At(ts, j, TAnd)
    decreases |ts| - i, 1
  {
    var (x, k) := ParseFactor(ts, i, PLAIN).value;
    ParsedFactor(ts, i, k, x);
    if Peek(ts, k) == TAnd {
      ParsedAnd(ts, k + 1, j, e.r);
    }
  }

  lemma {:induction false} ParsedExpr(ts: seq<Token>, i: nat, j: nat, e: Expr)
    requires ParseExpr(ts, i, PLAIN) == Some((e, j))
    ensures i < j <= |ts| && SpellsExpr(ts, i, j, e) && !At(ts, j, TAnd) && !At(ts, j, TOr)
    decreases |ts| - i, 2
  {
    var (x, k) := ParseAnd(ts, i, PLAIN).value;
    ParsedAnd(ts, i, k, x);
    if Peek(ts, k) == TOr {
      ParsedExpr(ts, k + 1, j, e.r);
    }
  }

  // What is spelled there is parsed.
  lemma {:induction false} SpelledFactor(ts: seq<Token>, i: nat, j: nat, e: Expr)
    requires i <= j <= |ts| && SpellsFactor(ts, i, j, e)
    ensures ParseFactor(ts, i, PLAIN) == Some((e, j))
    decreases j - i, 0
  {
    if i < j && ts[i] == TNot {
      SpelledFactor(ts, i + 1, j, e.e);
    } else if i < j && ts[i] == TOpen {
      SpelledExpr(ts, i + 1, j - 1, e);
    }
  }

  lemma {:induction false} SpelledAnd(ts: seq<Token>, i: nat, j: nat, e: Expr)
    requires i <= j <= |ts| && SpellsAnd(ts, i, j, e) && !At(ts, j, TAnd)
    ensures ParseAnd(ts, i, PLAIN) == Some((e, j))
    decreases j - i, 1
  {
    if SpellsFactor(ts, i, j, e) {
      SpelledFactor(ts, i, j, e);
    } else {
      var k :| i < k < j && ts[k] == TAnd && SpellsFactor(ts, i, k, e.l) && SpellsAnd(ts, k + 1, j, e.r);
      SpelledFactor(ts, i, k, e.l);
      SpelledAnd(ts, k + 1, j, e.r);
    }
  }

  lemma {:induction false} SpelledExpr(ts: seq<Token>, i: nat, j: nat, e: Expr)
    requires i <= j <= |ts| && SpellsExpr(ts, i, j, e) && !At(ts, j, TAnd) && !At(ts, j, TOr)
    ensures ParseExpr(ts, i, PLAIN) == Some((e, j))
    decreases j - i, 2
  {
    if SpellsAnd(ts, i, j, e) {
      SpelledAnd(ts, i, j, e);
    } else {
      var k :| i < k < j && ts[k] == TOr && SpellsAnd(ts, i, k, e.l) && SpellsExpr(ts, k + 1, j, e.r);
      SpelledAnd(ts, i, k, e.l);
      SpelledExpr(ts, k + 1, j, e.r);
    }
  }

  /** The parser reads as far as the grammar allows, and nothing else: it returns e and stops at j
      if and only if the tokens up to j spell e and no operator follows. */
  lemma {:induction false} ParsesGrammar(ts: seq<Token>, i: nat, j: nat, e: Expr)
    ensures ParseExpr(ts, i, PLAIN) == Some((e, j))
            <==> i <= j <= |ts| && SpellsExpr(ts, i, j, e) && !At(ts, j, TAnd) && !At(ts, j, TOr)
  {
    if ParseExpr(ts, i, PLAIN) == Some((e, j)) {
      ParsedExpr(ts, i, j, e);
    }
    if i <= j <= |ts| && SpellsExpr(ts, i, j, e) && !At(ts, j, TAnd) && !At(ts, j, TOr) {
      SpelledExpr(ts, i, j, e);
    }
  }

  // ----- conditions, where m stands for m && MODULES -----

  /** The symbol values tri, with m lowered to MODULES where the mode asks for it. */
  ghost function Lowered(mode: Mode, tri: Item -> Tri): Item -> Tri {
    (i: Item) =>
      if mode.transformM && i == S(mode.m) && tri(S(mode.modules)) < tri(i) then tri(S(mode.modules)) else tri(i)
  }

  /** r is q read for the given mode: they fail together or stop at the same token, and the value
      of r is that of q with m lowered, whatever the values are; comparisons are as they were. */
  ghost predicate ReadsAs(r: Parse, q: Parse, mode: Mode) {
    && (r.Some? <==> q.Some?)
    && (r.Some? ==> r.value.1 == q.value.1 && forall tri, holds ::
          ExprValue(r.value.0, tri, holds) == ExprValue(q.value.0, Lowered(mode, tri), holds))
  }

  lemma {:induction false} FactorModes(ts: seq<Token>, i: nat, mode: Mode)
    ensures ReadsAs(ParseFactor(ts, i, mode), ParseFactor(ts, i, PLAIN), mode)
    decreases |ts| - i, 0
  {
    if Peek(ts, i) == TNot {
      FactorModes(ts, i + 1, mode);
    } else if Peek(ts, i) == TOpen {
      ExprModes(ts, i + 1, mode);
    }
  }

  lemma {:induction false} AndModes(ts: seq<Token>, i: nat, mode: Mode)
    ensures ReadsAs(ParseAnd(ts, i, mode), ParseAnd(ts, i, PLAIN), mode)
    decreases |ts| - i, 1
  {
    FactorModes(ts, i, mode);
    var x := ParseFactor(ts, i, mode);
    if x.Some? && Peek(ts, x.value.1) == TAnd {
      AndModes(ts, x.value.1 + 1, mode);
    }
  }

  lemma {:induction false} ExprModes(ts: seq<Token>, i: nat, mode: Mode)
    ensures ReadsAs(ParseExpr(ts, i, mode), ParseExpr(ts, i, PLAIN), mode)
    decreases |ts| - i, 2
  {
    AndModes(ts, i, mode);
    var x := ParseAnd(ts, i, mode);
    if x.Some? && Peek(ts, x.value.1) == TOr {
      ExprModes(ts, x.value.1 + 1, mode);
    }
  }

  // ----- parentheses -----

  /** How many parentheses e needs: one pair for each disjunction that is an operand of a
      conjunction, and one for each negation of anything but a symbol. */
  function Groups(e: Expr): nat {
    match e
    case AND(l, r) => (if l.OR? then 1 else 0) + (if r.OR? then 1 else 0) + Groups(l) + Groups(r)
    case OR(l, r) => Groups(l) + Groups(r)
    case NOT(x) => (if x.Leaf? then 0 else 1) + Groups(x)
    case Leaf(_) => 0
    case REL(_, _, _) => 0
  }

  function Count(ts: seq<Token>, t: Token): nat {
    if ts == [] then 0 else (if ts[0] == t then 1 else 0) + Count(ts[1..], t)
  }

  lemma {:induction false} CountConcat(a: seq<Token>, b: seq<Token>, t: Token)
    ensures Count(a + b, t) == Count(a, t) + Count(b, t)
  {
    if a == [] {
      assert a + b == b;
    } else {
      assert (a + b)[1..] == a[1..] + b;
      CountConcat(a[1..], b, t);
    }
  }

  lemma {:induction false} CountAround(a: seq<Token>, x: Token, b: seq<Token>, t: Token)
    ensures Count(a + [x] + b, t) == Count(a, t) + (if x == t then 1 else 0) + Count(b, t)
  {
    CountConcat(a + [x], b, t);
    CountConcat(a, [x], t);
  }

  lemma {:induction false} CountGrouped(s: seq<Token>, t: Token)
    ensures Count([TOpen] + s + [TClose], t) == Count(s, t) + if t == TOpen || t == TClose then 1 else 0
  {
    CountConcat([TOpen] + s, [TClose], t);
    CountConcat([TOpen], s, t);
  }

  /** expr_str writes those parentheses and no others. */
  lemma {:induction false} PrintedParens(e: Expr, t: Token)
    requires ChoiceFree(e) && (t == TOpen || t == TClose)
    ensures Count(Print(e), t) == Groups(e)
    decreases e, 0
  {
    match e
    case AND(l, r) =>
      OperandParens(l, t);
      OperandParens(r, t);
      CountAround(Operand(l), TAnd, Operand(r), t);
    case OR(l, r) =>
      PrintedParens(l, t);
      PrintedParens(r, t);
      CountAround(Print(l), TOr, Print(r), t);
    case NOT(x) => NegatedParens(x, t);
    case Leaf(_) =>
    case REL(rel, a, b) =>
      assert Print(e) == [TSym(a)] + [TRel(rel)] + [TSym(b)];
      CountAround([TSym(a)], TRel(rel), [TSym(b)], t);
  }

  lemma {:induction false} NegatedParens(x: Expr, t: Token)
    requires ChoiceFree(x) && (t == TOpen || t == TClose)
    ensures Count(Print(NOT(x)), t) == Groups(NOT(x))
    decreases x, 2
  {
    PrintedParens(x, t);
    if x.Leaf? {
      CountConcat([TNot], Print(x), t);
    } else {
      assert Print(NOT(x)) == [TNot] + ([TOpen] + Print(x) + [TClose]);
      CountConcat([TNot], [TOpen] + Print(x) + [TClose], t);
      CountGrouped(Print(x), t);
    }
  }

  lemma {:induction false} OperandParens(e: Expr, t: Token)
    requires ChoiceFree(e) && (t == TOpen || t == TClose)
    ensures Count(Operand(e), t) == Groups(e) + if e.OR? then 1 else 0
    decreases e, 1
  {
    PrintedParens(e, t);
    if e.OR? { CountGrouped(Print(e), t); }
  }
}
